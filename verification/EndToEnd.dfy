/**
 From bytes to bytes: what a client writes, what the server does with it, and what the client reads. Both
 directions may be split into reads in any way.
 */
module EndToEnd {
  import opened Types
  import opened Frames
  import opened Printing
  import opened Connection
  import opened Delivery
  import opened Handles
  import opened Serving

  function FramesOf(commands: seq<Commands.Command>): (frames: seq<Frame>)
    ensures |frames| == |commands| && forall i :: 0 <= i < |commands| ==> frames[i] == Commands.ToFrame(commands[i])
  {
    seq(|commands|, i requires 0 <= i < |commands| => Commands.ToFrame(commands[i]))
  }

  /** The commands on a plain map. */
  function MapServe(m: map<Bytes, Bytes>, commands: seq<Commands.Command>): (map<Bytes, Bytes>, seq<Frame>)
    decreases |commands|
  {
    if |commands| == 0 then (m, [])
    else
      var (n, reply) := MapApply(m, commands[0]);
      var (p, replies) := MapServe(n, commands[1..]);
      (p, [reply] + replies)
  }

  /** Commands that a client may send: no empty DEL, and lengths that a program can have. */
  predicate Sendable(c: Commands.Command) {
    Commands.Acceptable(c) && WellFormed(Commands.ToFrame(c))
  }

  predicate AllSendable(commands: seq<Commands.Command>) {
    forall i :: 0 <= i < |commands| ==> Sendable(commands[i])
  }

  lemma {:induction false} ServesCommands(m: map<Bytes, Bytes>, commands: seq<Commands.Command>, s: Session)
    requires AllSendable(commands) && s == Session(FramesOf(commands), Closed)
    ensures Serve(m, s) == Service(MapServe(m, commands).0, MapServe(m, commands).1, Ended(Closed))
    decreases |commands|
  {
    if |commands| > 0 {
      Commands.WrittenParses(commands[0]);
      var tail := Session(FramesOf(commands[1..]), Closed);
      assert s.frames[1..] == tail.frames;
      ServesCommands(MapApply(m, commands[0]).0, commands[1..], tail);
    }
  }

  // ---------- to the server ----------

  /** The bytes that a client writes for its commands. */
  function Request(commands: seq<Commands.Command>): (bytes: seq<byte>)
    ensures PrintedAll(FramesOf(commands)) == Some(bytes)
    decreases |commands|
  {
    if |commands| == 0 then []
    else
      assert FramesOf(commands)[1..] == FramesOf(commands[1..]);
      Printed(Commands.ToFrame(commands[0])).value + Request(commands[1..])
  }

  lemma NoNegativeInCommands(c: Commands.Command)
    ensures NonNegative(Commands.ToFrame(c))
  {
  }

  /** Whatever commands a client writes, and however their bytes are split into reads: the server does what
      the commands do to a plain map, with the same replies, and ends when the client closes. */
  lemma ServesWhatWasSent(m: map<Bytes, Bytes>, commands: seq<Commands.Command>, chunks: seq<seq<byte>>)
    requires AllSendable(commands) && Concat(chunks) == Request(commands)
    ensures Serve(m, ReadAll([], chunks))
         == Service(MapServe(m, commands).0, MapServe(m, commands).1, Ended(Closed))
  {
    forall i | 0 <= i < |commands|
      ensures WellFormed(FramesOf(commands)[i]) && NonNegative(FramesOf(commands)[i])
    {
      NoNegativeInCommands(commands[i]);
    }
    AlwaysDelivered(FramesOf(commands), chunks);
    ServesCommands(m, commands, ReadAll([], chunks));
  }

  // ---------- back to the client ----------

  /** The values of the map have lengths that a program can have. */
  predicate Fits(m: map<Bytes, Bytes>) {
    forall k :: k in m ==> |m[k]| < TWO_63
  }

  predicate GoodReply(f: Frame) {
    !f.Array? && WellFormed(f) && NonNegative(f)
  }

  predicate GoodReplies(replies: seq<Frame>) {
    forall i :: 0 <= i < |replies| ==> GoodReply(replies[i])
  }

  lemma {:induction false} KeySetIsSmall(keys: seq<Bytes>)
    ensures |KeySet(keys)| <= |keys|
  {
    if |keys| > 0 {
      KeySetIsSmall(keys[..|keys| - 1]);
    }
  }

  lemma PartIsSmall(a: set<Bytes>, b: set<Bytes>)
    ensures |a * b| <= |b|
  {
    SubsetIsSmall(a * b, b);
  }

  lemma {:induction false} SubsetIsSmall(a: set<Bytes>, b: set<Bytes>)
    requires a <= b
    ensures |a| <= |b|
  {
    if a != {} {
      var x :| x in a;
      SubsetIsSmall(a - {x}, b - {x});
    }
  }

  /** The count of a DEL is a number of its keys and never wraps around. */
  lemma CountIsExact(m: map<Bytes, Bytes>, c: Commands.Command)
    requires Sendable(c) && c.Del?
    ensures MapApply(m, c).1.Integer? && MapApply(m, c).1.value == |m.Keys * KeySet(c.keys)| <= |c.keys|
  {
    KeySetIsSmall(c.keys);
    PartIsSmall(m.Keys, KeySet(c.keys));
    assert |Commands.ToFrame(c).items| == |c.keys| + 1;
    Decimals.WrapExact(|m.Keys * KeySet(c.keys)|);
  }

  lemma ReplyIsGood(m: map<Bytes, Bytes>, c: Commands.Command)
    requires Fits(m) && Sendable(c)
    ensures Fits(MapApply(m, c).0) && GoodReply(MapApply(m, c).1)
  {
    match c {
      case Set(key, value) => assert WellFormed(Commands.ToFrame(c).items[2]);
      case Get(_) =>
      case Del(_) => CountIsExact(m, c);
    }
  }

  lemma OneMoreGood(reply: Frame, rest: seq<Frame>)
    requires GoodReply(reply) && GoodReplies(rest)
    ensures GoodReplies([reply] + rest)
  {
  }

  lemma {:induction false} RepliesAreGood(m: map<Bytes, Bytes>, commands: seq<Commands.Command>)
    requires Fits(m) && AllSendable(commands)
    ensures |MapServe(m, commands).1| == |commands| && GoodReplies(MapServe(m, commands).1)
    decreases |commands|
  {
    if |commands| > 0 {
      var (n, reply) := MapApply(m, commands[0]);
      ReplyIsGood(m, commands[0]);
      RepliesAreGood(n, commands[1..]);
      OneMoreGood(reply, MapServe(n, commands[1..]).1);
    }
  }

  lemma {:induction false} ItemsPrint(items: seq<Frame>)
    requires Flat(items)
    ensures PrintedAll(items) == Some(PrintedItems(items))
    decreases |items|
  {
    if |items| > 0 {
      ItemsPrint(items[1..]);
    }
  }

  /** However the bytes of the replies are split into reads, the client reads back the replies of the plain
      map, one for each command. */
  lemma RepliesComeBack(m: map<Bytes, Bytes>, commands: seq<Commands.Command>, replies: seq<Frame>,
                        chunks: seq<seq<byte>>)
    requires Fits(m) && AllSendable(commands) && replies == MapServe(m, commands).1
    requires Flat(replies) && Concat(chunks) == PrintedItems(replies)
    ensures |replies| == |commands| && ReadAll([], chunks) == Session(replies, Closed)
  {
    RepliesAreGood(m, commands);
    ItemsPrint(replies);
    AlwaysDelivered(replies, chunks);
  }

  // ---------- both ways ----------

  /** Serve a client that writes these commands and then closes. Its requests may come in any reads, and it
      may read what was sent back in any reads: it gets the replies of a plain map, one for each command,
      and the engine holds what the plain map holds. */
  method ServeClient(storage: Handle, chunks: seq<seq<byte>>, ghost commands: seq<Commands.Command>)
    returns (sent: seq<byte>)
    requires storage.Valid() && !storage.ctx.closed && Fits(storage.Map())
    requires Chunked(chunks) && AllSendable(commands) && Concat(chunks) == Request(commands)
    modifies storage.writer, storage.writer.dir, storage.writer.log, storage.writer.readers, storage.ctx`keydir
    modifies storage.reader.readers
    ensures storage.Valid() && storage.Map() == MapServe(old(storage.Map()), commands).0
    ensures forall back: seq<seq<byte>> :: Concat(back) == sent ==>
              ReadAll([], back) == Session(MapServe(old(storage.Map()), commands).1, Closed)
  {
    var connection := new Connection(chunks);
    var handler := new Handler(storage, connection);
    ghost var m := storage.Map();
    ServesWhatWasSent(m, commands, chunks);
    ghost var stop, replies := handler.Run();
    sent := connection.outgoing;
    assert [] + PrintedItems(replies) == PrintedItems(replies);
    forall back: seq<seq<byte>> | Concat(back) == sent
      ensures ReadAll([], back) == Session(replies, Closed)
    {
      RepliesComeBack(m, commands, replies, back);
    }
  }
}
