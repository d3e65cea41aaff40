/** A connection: frames out of the bytes that reads bring, and frames into the bytes that are written. */
module Connection {
  import opened Types
  import opened Frames
  import opened FrameCursor
  import opened Printing

  /** What one call for a frame returns: a frame, the end of the stream, a stream that ended within a
      frame, an error of a frame, or a panic. */
  datatype Reply = Received(frame: Frame) | Closed | Reset | Bad(error: FrameError) | Panicked

  /** What the buffered bytes start with. */
  datatype Front = Whole(frame: Frame, len: nat) | NeedMore | Broken(error: FrameError) | Faulty

  function FrontOf(b: seq<byte>): (r: Front)
    ensures r.Whole? ==> 3 <= r.len <= |b|
  {
    match CheckAt(b, 0)
    case Got(_, len) =>
      (match ParseAt(b, 0)
       case Got(f, _) => Whole(f, len)
       case Failed(error) => Broken(error)
       case Fault => Faulty)
    case Failed(error) => if error == Incomplete then NeedMore else Broken(error)
    case Fault => Faulty
  }

  /** The bytes that reads bring; each read brings some, until the peer has closed. */
  predicate Chunked(chunks: seq<seq<byte>>) {
    forall i :: 0 <= i < |chunks| ==> |chunks[i]| > 0
  }

  function NextFrame(b: seq<byte>, chunks: seq<seq<byte>>): (Reply, seq<byte>, seq<seq<byte>>)
    decreases |chunks|
  {
    match FrontOf(b)
    case Whole(f, len) => (Received(f), b[len..], chunks)
    case Broken(error) => (Bad(error), b, chunks)
    case Faulty => (Panicked, b, chunks)
    case NeedMore =>
      if |chunks| == 0 then (if |b| == 0 then Closed else Reset, b, chunks)
      else NextFrame(b + chunks[0], chunks[1..])
  }

  class Connection {
    var buffer: seq<byte>
    var incoming: seq<seq<byte>>
    var outgoing: seq<byte>

    ghost predicate Valid()
      reads this
    {
      Chunked(incoming)
    }

    constructor (incoming: seq<seq<byte>>)
      requires Chunked(incoming)
      ensures Valid() && buffer == [] && outgoing == [] && this.incoming == incoming
    {
      buffer, outgoing := [], [];
      this.incoming := incoming;
    }

    /** Take the next bytes that the stream has; none when it is closed. */
    method ReadBuf() returns (n: nat)
      requires Valid()
      modifies this
      ensures Valid() && outgoing == old(outgoing)
      ensures n == 0 <==> |old(incoming)| == 0
      ensures n == 0 ==> buffer == old(buffer) && incoming == old(incoming)
      ensures n > 0 ==> buffer == old(buffer) + old(incoming)[0] && incoming == old(incoming)[1..]
    {
      if |incoming| == 0 {
        return 0;
      }
      n := |incoming[0]|;
      buffer := buffer + incoming[0];
      incoming := incoming[1..];
    }

    /** A frame from the buffer if it holds a whole one; its bytes leave the buffer. */
    method ParseFrame() returns (r: Outcome<Option<Frame>>)
      requires Valid()
      modifies this
      ensures Valid() && outgoing == old(outgoing) && incoming == old(incoming)
      ensures match FrontOf(old(buffer))
              case Whole(f, len) => r == Done(Some(f)) && buffer == old(buffer)[len..]
              case NeedMore => r == Done(None) && buffer == old(buffer)
              case Broken(error) => r == Err(error) && buffer == old(buffer)
              case Faulty => r == Panic && buffer == old(buffer)
    {
      var cursor := new Cursor(buffer);
      var checked := cursor.Check();
      match checked {
        case Done(_) =>
          var len := cursor.pos;
          cursor.pos := 0;
          var frame :- cursor.Parse();
          buffer := buffer[len..];
          r := Done(Some(frame));
        case Err(error) =>
          if error == Incomplete {
            r := Done(None);
          } else {
            r := Err(error);
          }
        case Panic => r := Panic;
      }
    }

    /** The next frame, reading as often as that takes. */
    method ReadFrame() returns (r: Reply)
      requires Valid()
      modifies this
      ensures Valid() && outgoing == old(outgoing)
      ensures (r, buffer, incoming) == NextFrame(old(buffer), old(incoming))
    {
      while true
        invariant Valid() && outgoing == old(outgoing)
        invariant NextFrame(buffer, incoming) == NextFrame(old(buffer), old(incoming))
        decreases |incoming|
      {
        var parsed := ParseFrame();
        match parsed {
          case Err(error) => return Bad(error);
          case Panic => return Panicked;
          case Done(Some(frame)) => return Received(frame);
          case Done(None) =>
        }
        var n := ReadBuf();
        if n == 0 {
          return if buffer == [] then Closed else Reset;
        }
      }
    }

    /** Frames one after the other, until there is none. */
    method ReadFrames() returns (frames: seq<Frame>, ending: Reply)
      requires Valid()
      modifies this
      ensures Session(frames, ending) == ReadAll(old(buffer), old(incoming))
    {
      frames := [];
      var start := ReadAll(buffer, incoming);
      ReadAllStep(buffer, incoming);
      ending := ReadFrame();
      while ending.Received?
        invariant Valid()
        invariant start == if ending.Received? then Before(frames + [ending.frame], ReadAll(buffer, incoming))
                           else Session(frames, ending)
        decreases |buffer| + |Concat(incoming)| + if ending.Received? then 1 else 0
      {
        frames := frames + [ending.frame];
        ReadAllStep(buffer, incoming);
        ending := ReadFrame();
      }
    }

    // ---------- writing ----------

    /** The digits go through a buffer of twenty bytes, which always has room for them. */
    method WriteDecimal(value: i64)
      modifies this`outgoing
      ensures outgoing == old(outgoing) + Decimal(value)
    {
      var room := new byte[20](i => 0);
      var text := Decimal(value);
      DecimalFits(value);
      var pos := 0;
      while pos < |text|
        invariant 0 <= pos <= |text| && room[..pos] == text[..pos] && outgoing == old(outgoing)
      {
        room[pos] := text[pos];
        pos := pos + 1;
      }
      assert text[..pos] == text;
      outgoing := outgoing + room[..pos];
    }

    method WriteSingleValue(frame: Frame) returns (r: Outcome<()>)
      modifies this`outgoing
      ensures if frame.Array? then r == Panic && outgoing == old(outgoing)
              else r == Done(()) && outgoing == old(outgoing) + PrintedValue(frame)
    {
      ghost var was := outgoing;
      match frame {
        case SimpleString(s) =>
          outgoing := outgoing + [PLUS];
          outgoing := outgoing + s;
          outgoing := outgoing + CRLF;
          Join(was, [PLUS], s, CRLF);
        case Error(e) =>
          outgoing := outgoing + [MINUS];
          outgoing := outgoing + e;
          outgoing := outgoing + CRLF;
          Join(was, [MINUS], e, CRLF);
        case Integer(i) =>
          outgoing := outgoing + [COLON];
          WriteDecimal(i);
          outgoing := outgoing + CRLF;
          Join(was, [COLON], Decimal(i), CRLF);
        case Null =>
          outgoing := outgoing + ([DOLLAR] + (MINUS_ONE + CRLF));
        case BulkString(bs) =>
          WriteBulk(bs);
        case Array(_) => return Panic;
      }
      r := Done(());
    }

    method WriteBulk(bs: Bytes)
      modifies this`outgoing
      ensures outgoing == old(outgoing) + PrintedValue(BulkString(bs))
    {
      ghost var was := outgoing;
      outgoing := outgoing + [DOLLAR];
      WriteDecimal(Wrap64(|bs|));
      outgoing := outgoing + CRLF;
      ghost var length := Decimal(Wrap64(|bs|));
      Join(was, [DOLLAR], length, CRLF);
      ghost var head := outgoing;
      outgoing := outgoing + bs;
      outgoing := outgoing + CRLF;
      JoinBulk(was, [DOLLAR], length + CRLF, bs, CRLF);
    }

    /** Elements are written up to the first that is an array. */
    method WriteArray(items: seq<Frame>) returns (r: Outcome<()>)
      modifies this`outgoing
      ensures match Printed(Array(items))
              case Some(p) => r == Done(()) && outgoing == old(outgoing) + p
              case None => r == Panic
    {
      outgoing := outgoing + [STAR];
      WriteDecimal(Wrap64(|items|));
      outgoing := outgoing + CRLF;
      ghost var length := Decimal(Wrap64(|items|));
      Join(old(outgoing), [STAR], length, CRLF);
      ghost var before := outgoing;
      for i := 0 to |items|
        invariant Flat(items[..i]) && outgoing == before + PrintedItems(items[..i])
      {
        var _ :- WriteSingleValue(items[i]);
        PrintMore(items, i, before);
      }
      assert items[..|items|] == items;
      Join(old(outgoing), [STAR], length + CRLF, PrintedItems(items));
      r := Done(());
    }

    method WriteFrame(frame: Frame) returns (r: Outcome<()>)
      modifies this`outgoing
      ensures match Printed(frame)
              case Some(p) => r == Done(()) && outgoing == old(outgoing) + p
              case None => r == Panic
    {
      if frame.Array? {
        r := WriteArray(frame.items);
      } else {
        r := WriteSingleValue(frame);
      }
    }
  }

  lemma Join(was: seq<byte>, x: seq<byte>, y: seq<byte>, z: seq<byte>)
    ensures was + x + y + z == was + (x + (y + z))
    ensures was + (x + y) + z == was + (x + (y + z))
  {
    assert was + x + y + z == was + (x + (y + z));
  }

  lemma JoinBulk(was: seq<byte>, x: seq<byte>, y: seq<byte>, z: seq<byte>, w: seq<byte>)
    ensures was + (x + y) + z + w == was + (x + (y + (z + w)))
  {
  }

  lemma PrintMore(items: seq<Frame>, i: nat, before: seq<byte>)
    requires i < |items| && Flat(items[..i]) && !items[i].Array?
    ensures Flat(items[..i + 1])
    ensures before + PrintedItems(items[..i]) + PrintedValue(items[i]) == before + PrintedItems(items[..i + 1])
  {
    PrintedItemsJoin(items[..i], items[i], items[..i + 1], PrintedValue(items[i]));
  }

  lemma {:induction false} PrintedItemsJoin(items: seq<Frame>, f: Frame, all: seq<Frame>, p: seq<byte>)
    requires Flat(items) && !f.Array? && all == items + [f] && p == PrintedValue(f)
    ensures Flat(all) && PrintedItems(all) == PrintedItems(items) + p
    decreases |items|
  {
    var v := PrintedValue(all[0]);
    var tail := all[1..];
    PrintedFirst(all, v, tail);
    if |items| == 0 {
      assert tail == [];
    } else {
      var init := items[1..];
      PrintedFirst(items, v, init);
      PrintedItemsJoin(init, f, tail, p);
      Associates(v, PrintedItems(init), p);
    }
  }

  lemma Associates(x: seq<byte>, y: seq<byte>, z: seq<byte>)
    ensures x + y + z == x + (y + z)
  {
  }

  // ---------- a whole session ----------

  /** The frames that were received and how the stream ended. */
  datatype Session = Session(frames: seq<Frame>, ending: Reply)

  function Before(frames: seq<Frame>, s: Session): Session {
    Session(frames + s.frames, s.ending)
  }

  /** Reading frames until there is no more; independent of how single frames are asked for. */
  function ReadAll(b: seq<byte>, chunks: seq<seq<byte>>): Session
    decreases |chunks|, |b|
  {
    match FrontOf(b)
    case Whole(f, len) => Before([f], ReadAll(b[len..], chunks))
    case Broken(error) => Session([], Bad(error))
    case Faulty => Session([], Panicked)
    case NeedMore =>
      if |chunks| == 0 then Session([], if |b| == 0 then Closed else Reset)
      else ReadAll(b + chunks[0], chunks[1..])
  }

  function Concat(chunks: seq<seq<byte>>): seq<byte> {
    if |chunks| == 0 then [] else chunks[0] + Concat(chunks[1..])
  }

  /** A session is the next frame and then the session from there. */
  lemma {:induction false} ReadAllStep(b: seq<byte>, chunks: seq<seq<byte>>)
    ensures var (r, b', chunks') := NextFrame(b, chunks);
            && ReadAll(b, chunks) == (if r.Received? then Before([r.frame], ReadAll(b', chunks')) else Session([], r))
            && (r.Received? ==> |b'| + |Concat(chunks')| < |b| + |Concat(chunks)|)
            && |b'| + |Concat(chunks')| <= |b| + |Concat(chunks)|
    decreases |chunks|
  {
    if FrontOf(b).NeedMore? && |chunks| > 0 {
      ReadAllStep(b + chunks[0], chunks[1..]);
    }
  }
}
