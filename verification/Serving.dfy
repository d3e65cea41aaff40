/**
 The server: commands that come over a connection are applied to the storage engine, and their replies
 go back. From the bytes that a client sends to the bytes that it gets, the server is a plain map.
 */
module Serving {
  import opened Types
  import opened Frames
  import opened FrameCursor
  import opened Printing
  import opened Connection
  import opened Handles
  import Commands

  // ---------- commands on a plain map ----------

  function KeySet(keys: seq<Bytes>): set<Bytes> {
    if |keys| == 0 then {} else KeySet(keys[..|keys| - 1]) + {keys[|keys| - 1]}
  }

  /** What a command does to a map, and its reply. */
  function MapApply(m: map<Bytes, Bytes>, c: Commands.Command): (r: (map<Bytes, Bytes>, Frame))
    ensures !r.1.Array?
  {
    match c
    case Get(key) => (m, if key in m then BulkString(m[key]) else Null)
    case Set(key, value) => (m[key := value], SimpleString([79, 75]))
    case Del(keys) => (m - KeySet(keys), Integer(Wrap64(|m.Keys * KeySet(keys)|)))
  }

  /** Why the server stops: there is no next frame, or it is no command, or the engine is closed. */
  datatype Stop = Ended(reply: Reply) | Refused(error: Commands.CommandError) | EngineClosed

  datatype Service = Service(contents: map<Bytes, Bytes>, replies: seq<Frame>, stop: Stop)

  /** The commands of a session, up to the first frame that is no command, on a plain map. */
  function Serve(m: map<Bytes, Bytes>, s: Session): Service
    decreases |s.frames|
  {
    if |s.frames| == 0 then Service(m, [], Ended(s.ending))
    else
      match Commands.CommandOf(s.frames[0])
      case Err(error) => Service(m, [], Refused(error))
      case Ok(c) =>
        var (n, reply) := MapApply(m, c);
        Replied([reply], Serve(n, Session(s.frames[1..], s.ending)))
  }

  function Replied(replies: seq<Frame>, s: Service): Service {
    s.(replies := replies + s.replies)
  }

  /** On an engine that is closed the first command ends the service. */
  function ServeOn(closed: bool, m: map<Bytes, Bytes>, s: Session): Service {
    if closed && |s.frames| > 0 && Commands.CommandOf(s.frames[0]).Ok? then Service(m, [], EngineClosed)
    else Serve(m, s)
  }

  /** Deleting keys one after the other, and how many were there. */
  ghost function DelEach(m: map<Bytes, Bytes>, keys: seq<Bytes>): (map<Bytes, Bytes>, nat) {
    if |keys| == 0 then (m, 0)
    else
      var (n, count) := DelEach(m, keys[..|keys| - 1]);
      var key := keys[|keys| - 1];
      (n - {key}, count + if key in n then 1 else 0)
  }

  lemma NothingDeleted(m: map<Bytes, Bytes>, keys: seq<Bytes>)
    ensures DelEach(m, keys[..0]) == (m, 0) && Wrap64(0) == 0
  {
  }

  lemma DelEachStep(m: map<Bytes, Bytes>, keys: seq<Bytes>, i: nat, next: nat)
    requires i < |keys| && next == i + 1
    ensures var (n, count) := DelEach(m, keys[..i]);
            DelEach(m, keys[..next]) == (n - {keys[i]}, count + if keys[i] in n then 1 else 0)
  {
    assert keys[..next][..i] == keys[..i];
  }

  lemma NewKey(a: set<Bytes>, b: set<Bytes>, key: Bytes)
    requires key in a && key !in b
    ensures |a * (b + {key})| == |a * b| + 1
  {
    assert a * (b + {key}) == a * b + {key};
  }

  lemma OldKey(a: set<Bytes>, b: set<Bytes>, key: Bytes)
    requires key !in a || key in b
    ensures a * (b + {key}) == a * b
  {
  }

  lemma MinusMore(m: map<Bytes, Bytes>, keys: set<Bytes>, key: Bytes)
    ensures m - keys - {key} == m - (keys + {key})
  {
  }

  lemma {:induction false} DelEachMap(m: map<Bytes, Bytes>, keys: seq<Bytes>)
    ensures DelEach(m, keys).0 == m - KeySet(keys)
  {
    if |keys| > 0 {
      var init := keys[..|keys| - 1];
      DelEachMap(m, init);
      MinusMore(m, KeySet(init), keys[|keys| - 1]);
    }
  }

  /** Keys deleted one after the other are gone together, and a key that is named twice counts once. */
  lemma {:induction false} DelEachIs(m: map<Bytes, Bytes>, keys: seq<Bytes>)
    ensures DelEach(m, keys).0 == m - KeySet(keys)
    ensures DelEach(m, keys).1 == |m.Keys * KeySet(keys)|
  {
    DelEachMap(m, keys);
    if |keys| > 0 {
      var init, key := keys[..|keys| - 1], keys[|keys| - 1];
      DelEachIs(m, init);
      if key in m && key !in KeySet(init) {
        NewKey(m.Keys, KeySet(init), key);
      } else {
        OldKey(m.Keys, KeySet(init), key);
      }
    }
  }

  // ---------- one connection ----------

  /** Handles one connection: reads frames, applies their commands, writes the replies. */
  class Handler {
    const storage: Handle
    const connection: Connection

    constructor (storage: Handle, connection: Connection)
      ensures this.storage == storage && this.connection == connection
    {
      this.storage, this.connection := storage, connection;
    }

    /** Delete one key and count it if it was there. */
    method DelNext(key: Commands.Utf8Bytes, n: i64, ghost found: nat)
      returns (count: Option<i64>, ghost found': nat)
      requires storage.Valid() && n == Wrap64(found)
      modifies storage.writer, storage.writer.dir, storage.writer.log, storage.ctx`keydir
      ensures storage.Valid() && (storage.writer.log == old(storage.writer.log) || fresh(storage.writer.log))
      ensures storage.ctx.closed ==> count == None && storage.Map() == old(storage.Map())
      ensures !storage.ctx.closed ==>
                && storage.Map() == old(storage.Map()) - {key}
                && found' == found + (if key in old(storage.Map()) then 1 else 0) && count == Some(Wrap64(found'))
    {
      found' := found;
      var existed := storage.Delete(key);
      match existed {
        case None => return None, found;
        case Some(true) =>
          CountStep(found);
          found' := found + 1;
          count := Some(WrappingAdd(n, 1));
        case Some(false) => count := Some(n);
      }
    }

    /** Delete the keys one after the other and count those that were there. */
    method ApplyDel(keys: seq<Commands.Utf8Bytes>) returns (count: Option<i64>)
      requires storage.Valid()
      modifies storage.writer, storage.writer.dir, storage.writer.log, storage.ctx`keydir
      ensures storage.Valid() && (storage.writer.log == old(storage.writer.log) || fresh(storage.writer.log))
      ensures storage.ctx.closed && |keys| > 0 ==> count == None && storage.Map() == old(storage.Map())
      ensures !storage.ctx.closed ==>
                && storage.Map() == old(storage.Map()) - KeySet(keys)
                && count == Some(Wrap64(|old(storage.Map()).Keys * KeySet(keys)|))
    {
      hide *;
      ghost var m := storage.Map();
      ghost var found := 0;
      var n: i64 := 0;
      NothingDeleted(m, keys);
      for i := 0 to |keys|
        invariant storage.Valid() && (storage.writer.log == old(storage.writer.log) || fresh(storage.writer.log))
        invariant storage.ctx.closed ==> i == 0
        invariant (storage.Map(), found) == DelEach(m, keys[..i]) && n == Wrap64(found)
      {
        DelEachStep(m, keys, i, i + 1);
        var counted;
        counted, found := DelNext(keys[i], n, found);
        match counted {
          case None => return None;
          case Some(more) => n := more;
        }
      }
      assert keys[..|keys|] == keys;
      DelEachIs(m, keys);
      count := Some(n);
    }

    /** What the storage engine answers to a command; none when it is closed. */
    method Ask(c: Commands.Command) returns (response: Option<Frame>)
      requires storage.Valid() && Commands.Acceptable(c)
      modifies storage.writer, storage.writer.dir, storage.writer.log, storage.ctx`keydir, storage.reader.readers
      ensures storage.Valid() && (storage.writer.log == old(storage.writer.log) || fresh(storage.writer.log))
      ensures storage.ctx.closed <==> response == None
      ensures response.None? ==> storage.Map() == old(storage.Map())
      ensures response.Some? ==> storage.Map() == MapApply(old(storage.Map()), c).0
      ensures response.Some? ==> response.value == MapApply(old(storage.Map()), c).1
    {
      match c {
        case Get(key) =>
          var value := storage.Get(key);
          if value.None? {
            return None;
          }
          response := Some(match value.value case None => Null case Some(v) => BulkString(v));
        case Set(key, value) =>
          var done := storage.Put(key, value);
          response := if done then Some(SimpleString([79, 75])) else None;
        case Del(keys) =>
          var count := ApplyDel(keys);
          response := if count.Some? then Some(Integer(count.value)) else None;
      }
    }

    /** Apply a command and write its reply; false when the engine is closed. */
    method Apply(c: Commands.Command) returns (ok: bool)
      requires storage.Valid() && Commands.Acceptable(c)
      modifies storage.writer, storage.writer.dir, storage.writer.log, storage.ctx`keydir
      modifies storage.reader.readers, connection`outgoing
      ensures storage.Valid() && (storage.writer.log == old(storage.writer.log) || fresh(storage.writer.log))
      ensures ok == !storage.ctx.closed
      ensures ok ==> storage.Map() == MapApply(old(storage.Map()), c).0
      ensures ok ==> connection.outgoing == old(connection.outgoing) + PrintedValue(MapApply(old(storage.Map()), c).1)
      ensures !ok ==> storage.Map() == old(storage.Map()) && connection.outgoing == old(connection.outgoing)
    {
      var response := Ask(c);
      if response.None? {
        return false;
      }
      ghost var now := storage.Map();
      WriteReply(response.value);
      assert storage.Map() == now;
      ok := true;
    }

    method WriteReply(frame: Frame)
      requires !frame.Array?
      modifies connection`outgoing
      ensures connection.outgoing == old(connection.outgoing) + PrintedValue(frame)
    {
      var _ := connection.WriteFrame(frame);
    }

    /** What the connection still brings. */
    ghost function Coming(): Session
      reads connection
    {
      ReadAll(connection.buffer, connection.incoming)
    }

    ghost function Pending(): nat
      reads connection
    {
      |connection.buffer| + |Concat(connection.incoming)|
    }

    /** The command of the next frame, or why there is none. */
    method NextCommand() returns (c: Option<Commands.Command>, stop: Stop)
      requires connection.Valid()
      modifies connection
      ensures connection.Valid() && connection.outgoing == old(connection.outgoing)
      ensures c.Some? ==>
                && Commands.Acceptable(c.value) && Pending() < old(Pending())
                && old(Coming()) == Before([Commands.ToFrame(c.value)], Coming())
      ensures c.None? ==> forall closed, m :: ServeOn(closed, m, old(Coming())) == Service(m, [], stop)
    {
      c, stop := None, Ended(Closed);
      ReadAllStep(connection.buffer, connection.incoming);
      var next := connection.ReadFrame();
      if !next.Received? {
        stop := Ended(next);
        return;
      }
      var command := Commands.TryFrom(next.frame);
      match command {
        case Err(error) =>
          stop := Refused(error);
        case Ok(command) =>
          Commands.ParsesIff(next.frame, command);
          c := Some(command);
      }
    }

    /** One frame: read it, apply its command and reply, or stop. */
    method ServeOne() returns (stop: Option<Stop>, ghost reply: Frame)
      requires storage.Valid() && connection.Valid()
      modifies storage.writer, storage.writer.dir, storage.writer.log, storage.ctx`keydir
      modifies storage.reader.readers, connection
      ensures storage.Valid() && connection.Valid()
      ensures storage.writer.log == old(storage.writer.log) || fresh(storage.writer.log)
      ensures !reply.Array?
      ensures stop.None? ==>
                && ServeOn(storage.ctx.closed, old(storage.Map()), old(Coming()))
                   == Replied([reply], ServeOn(storage.ctx.closed, storage.Map(), Coming()))
                && connection.outgoing == old(connection.outgoing) + PrintedValue(reply) && Pending() < old(Pending())
      ensures stop.Some? ==>
                && ServeOn(storage.ctx.closed, old(storage.Map()), old(Coming()))
                   == Service(storage.Map(), [], stop.value)
                && connection.outgoing == old(connection.outgoing)
    {
      hide MapApply, PrintedValue, ReadAll;
      reply := Null;
      var command, why := NextCommand();
      if command.None? {
        stop := Some(why);
        return;
      }
      reply := MapApply(storage.Map(), command.value).1;
      Served(storage.Map(), Coming(), command.value, reply);
      var ok := Apply(command.value);
      stop := if ok then None else Some(EngineClosed);
    }

    /** Frame by frame until there is no frame or one that is no command. The engine may merge files between
        any two commands. */
    method Run() returns (stop: Stop, ghost replies: seq<Frame>)
      requires storage.Valid() && connection.Valid()
      modifies storage.writer, storage.writer.dir, storage.writer.log, storage.writer.readers, storage.ctx`keydir
      modifies storage.reader.readers, connection
      ensures storage.Valid() && connection.Valid()
      ensures Flat(replies) && connection.outgoing == old(connection.outgoing) + PrintedItems(replies)
      ensures Service(storage.Map(), replies, stop) == ServeOn(storage.ctx.closed, old(storage.Map()), old(Coming()))
    {
      hide *;
      ghost var served := ServeOn(storage.ctx.closed, storage.Map(), Coming());
      ghost var sent := connection.outgoing;
      replies := [];
      RepliedNone(served);
      NothingPrinted(sent);
      var done := None;
      while done.None?
        invariant storage.Valid() && connection.Valid()
        invariant storage.writer.log == old(storage.writer.log) || fresh(storage.writer.log)
        invariant Flat(replies) && connection.outgoing == sent + PrintedItems(replies)
        invariant served == if done.None? then Replied(replies, ServeOn(storage.ctx.closed, storage.Map(), Coming()))
                            else Service(storage.Map(), replies, done.value)
        decreases done.None?, Pending()
      {
        var merging: bool := *;
        if merging {
          var _ := storage.Merge();
        }
        ghost var reply;
        done, reply := ServeOne();
        if done.None? {
          ghost var all := replies + [reply];
          OneMorePrinted(sent, replies, reply, all, PrintedValue(reply));
          OneMoreReply(replies, reply, all, ServeOn(storage.ctx.closed, storage.Map(), Coming()));
          replies := all;
        } else {
          LastReply(replies, storage.Map(), done.value);
        }
      }
      stop := done.value;
    }
  }

  lemma LastReply(replies: seq<Frame>, m: map<Bytes, Bytes>, stop: Stop)
    ensures Replied(replies, Service(m, [], stop)) == Service(m, replies, stop)
  {
    assert replies + [] == replies;
  }

  lemma OneMoreReply(replies: seq<Frame>, reply: Frame, all: seq<Frame>, s: Service)
    requires all == replies + [reply]
    ensures Replied(replies, Replied([reply], s)) == Replied(all, s)
  {
    assert replies + ([reply] + s.replies) == all + s.replies;
  }

  lemma OneMorePrinted(sent: seq<byte>, replies: seq<Frame>, reply: Frame, all: seq<Frame>, p: seq<byte>)
    requires Flat(replies) && !reply.Array? && all == replies + [reply] && p == PrintedValue(reply)
    ensures Flat(all) && sent + PrintedItems(replies) + p == sent + PrintedItems(all)
  {
    PrintedItemsJoin(replies, reply, all, p);
    Associates(sent, PrintedItems(replies), p);
  }

  lemma NothingPrinted(sent: seq<byte>)
    ensures Flat([]) && sent + PrintedItems([]) == sent
  {
  }

  lemma RepliedNone(s: Service)
    ensures Replied([], s) == s
  {
    assert [] + s.replies == s.replies;
  }

  lemma Served(m: map<Bytes, Bytes>, coming: Session, c: Commands.Command, reply: Frame)
    requires Commands.Acceptable(c) && reply == MapApply(m, c).1
    ensures Serve(m, Before([Commands.ToFrame(c)], coming)) == Replied([reply], Serve(MapApply(m, c).0, coming))
  {
    Commands.WrittenParses(c);
    assert Before([Commands.ToFrame(c)], coming).frames[1..] == coming.frames;
  }

  lemma CountStep(n: nat)
    ensures WrappingAdd(Wrap64(n), 1) == Wrap64(n + 1)
  {
    var k :| Wrap64(n) == n + k * TWO_64;
    var j :| Wrap64(Wrap64(n) + 1) == Wrap64(n) + 1 + j * TWO_64;
    Decimals.WrapIs(n + 1, Wrap64(Wrap64(n) + 1), k + j);
  }
}
