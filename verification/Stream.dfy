/** Sessions over a stream: they do not depend on how the bytes came, and they bring what was written. */
module Stream {
  import opened Types
  import opened Frames
  import opened FramePasses
  import opened LoneSigns
  import opened Printing
  import opened Connection

  // ---------- bytes that are still to come ----------

  /** With more bytes in the buffer a whole frame stays the frame, and a broken one stays broken. */
  lemma FrontStands(b: seq<byte>, c: seq<byte>)
    requires b <= c
    ensures FrontOf(b).Whole? ==> FrontOf(c) == FrontOf(b)
    ensures FrontOf(b).Broken? ==> FrontOf(c).Broken?
  {
    if CheckAt(b, 0).Got? {
      CheckStands(b, c, 0);
      ParseIsDecided(b, c, 0);
      CheckedParses(c, 0);
    } else if Settled(CheckAt(b, 0)) {
      CheckStands(b, c, 0);
    }
  }

  lemma WholeStep(b: seq<byte>, x: seq<byte>, f: Frame, len: nat)
    requires FrontOf(b) == Whole(f, len)
    ensures ReadAll(b + x, []) == Before([f], ReadAll(b[len..] + x, []))
  {
    FrontStands(b, b + x);
    assert (b + x)[len..] == b[len..] + x;
  }

  /** Two endings are alike when they differ at most in which error ended the stream. */
  predicate Alike(r: Reply, s: Reply) {
    r == s || (r.Bad? && s.Bad?)
  }

  predicate Same(s: Session, t: Session) {
    s.frames == t.frames && Alike(s.ending, t.ending)
  }

  lemma NextChunk(b: seq<byte>, chunks: seq<seq<byte>>)
    requires |chunks| > 0
    ensures b + Concat(chunks) == b + chunks[0] + Concat(chunks[1..])
  {
    assert b + (chunks[0] + Concat(chunks[1..])) == b + chunks[0] + Concat(chunks[1..]);
  }

  /** Unless it panics, a session is the one that has all bytes at once. */
  lemma {:induction false} AsIfAtOnce(b: seq<byte>, chunks: seq<seq<byte>>)
    requires ReadAll(b, chunks).ending != Panicked
    ensures Same(ReadAll(b, chunks), ReadAll(b + Concat(chunks), []))
    decreases |chunks|, |b|
  {
    match FrontOf(b) {
      case Whole(f, len) =>
        WholeStep(b, Concat(chunks), f, len);
        AsIfAtOnce(b[len..], chunks);
      case Broken(error) => FrontStands(b, b + Concat(chunks));
      case Faulty =>
      case NeedMore =>
        if |chunks| > 0 {
          AsIfAtOnce(b + chunks[0], chunks[1..]);
          NextChunk(b, chunks);
        } else {
          assert b + Concat(chunks) == b;
        }
    }
  }

  // ---------- when a session panics ----------

  /** All bytes of the first `k` reads, at once, end in a panic. */
  ghost predicate PanicsAfter(b: seq<byte>, chunks: seq<seq<byte>>, k: nat)
    requires k <= |chunks|
  {
    ReadAll(b + Concat(chunks[..k]), []).ending == Panicked
  }

  lemma {:induction false} PanicIsAfterSome(b: seq<byte>, chunks: seq<seq<byte>>) returns (k: nat)
    requires ReadAll(b, chunks).ending == Panicked
    ensures k <= |chunks| && PanicsAfter(b, chunks, k)
    decreases |chunks|, |b|
  {
    match FrontOf(b) {
      case Faulty =>
        k := 0;
        assert b + Concat(chunks[..0]) == b;
      case Whole(f, len) =>
        k := PanicIsAfterSome(b[len..], chunks);
        WholeStep(b, Concat(chunks[..k]), f, len);
      case NeedMore =>
        var j := PanicIsAfterSome(b + chunks[0], chunks[1..]);
        k := j + 1;
        NextChunk(b, chunks[..k]);
        assert chunks[..k][1..] == chunks[1..][..j];
    }
  }

  /** A session that panics on the first reads panics. */
  lemma {:induction false} PanicStays(b: seq<byte>, chunks: seq<seq<byte>>, k: nat)
    requires k <= |chunks| && ReadAll(b, chunks[..k]).ending == Panicked
    ensures ReadAll(b, chunks).ending == Panicked
    decreases |chunks|, |b|
  {
    match FrontOf(b) {
      case Whole(f, len) => PanicStays(b[len..], chunks, k);
      case NeedMore =>
        if k > 0 {
          assert chunks[..k][1..] == chunks[1..][..k - 1];
          PanicStays(b + chunks[0], chunks[1..], k - 1);
        }
      case _ =>
    }
  }

  lemma NoPanicOnFirst(b: seq<byte>, chunks: seq<seq<byte>>, k: nat)
    requires k <= |chunks| && ReadAll(b, chunks).ending != Panicked
    ensures !PanicsAfter(b, chunks, k)
  {
    if ReadAll(b, chunks[..k]).ending == Panicked {
      PanicStays(b, chunks, k);
    }
    AsIfAtOnce(b, chunks[..k]);
  }

  lemma PanicsAfterIff(b: seq<byte>, chunks: seq<seq<byte>>)
    ensures ReadAll(b, chunks).ending == Panicked <==> exists k | 0 <= k <= |chunks| :: PanicsAfter(b, chunks, k)
  {
    if ReadAll(b, chunks).ending == Panicked {
      var k := PanicIsAfterSome(b, chunks);
    } else {
      forall k | 0 <= k <= |chunks|
        ensures !PanicsAfter(b, chunks, k)
      {
        NoPanicOnFirst(b, chunks, k);
      }
    }
  }

  /** The bytes are whole frames, and then bytes that await a number which may start with the sign. */
  ghost predicate NumberAwaited(b: seq<byte>, sign: byte) {
    match FrontOf(b)
    case Whole(_, len) => NumberAwaited(b[len..], sign)
    case NeedMore => Awaits(b, 0, sign)
    case _ => false
  }

  /** The last byte is a sign, and the bytes before it await a number. */
  ghost predicate EndsWithAwaitedSign(b: seq<byte>) {
    |b| > 0 && IsSign(b[|b| - 1]) && NumberAwaited(b[..|b| - 1], b[|b| - 1])
  }

  lemma FrontFaultIff(b: seq<byte>)
    ensures FrontOf(b) == Faulty
       <==> |b| > 0 && IsSign(b[|b| - 1]) && Awaits(b[..|b| - 1], 0, b[|b| - 1])
  {
    if |b| > 0 {
      assert b == b[..|b| - 1] + [b[|b| - 1]];
      FaultIff(b[..|b| - 1], b, b[|b| - 1], 0);
    }
    if CheckAt(b, 0).Got? {
      CheckedParses(b, 0);
    }
  }

  /** The front of a buffer and the front of the buffer without its last byte. */
  lemma FrontOfInit(b: seq<byte>, init: seq<byte>)
    requires |b| > 0 && init == b[..|b| - 1]
    ensures FrontOf(b).Whole? && FrontOf(b).len < |b| ==> FrontOf(init) == FrontOf(b)
    ensures FrontOf(init).Whole? ==> FrontOf(b) == FrontOf(init)
  {
    FrontStands(init, b);
    if FrontOf(b).Whole? && FrontOf(b).len < |b| {
      CheckWithin(init, b, 0);
      ParseIsDecided(init, b, 0);
      CheckedParses(init, 0);
    }
  }

  /** All bytes at once end in a panic exactly if they end with an awaited sign. */
  lemma {:induction false} AtOncePanicsIff(b: seq<byte>)
    ensures ReadAll(b, []).ending == Panicked <==> EndsWithAwaitedSign(b)
    decreases |b|
  {
    FrontFaultIff(b);
    if |b| > 0 {
      var init, s := b[..|b| - 1], b[|b| - 1];
      FrontOfInit(b, init);
      match FrontOf(b) {
        case Whole(f, len) =>
          AtOncePanicsIff(b[len..]);
          if len < |b| {
            assert b[len..][..|b| - len - 1] == init[len..];
          }
        case Faulty => AwaitingIsIncomplete(init, 0, s);
        case _ =>
      }
    }
  }

  /** A session panics if and only if some read ends with a sign exactly where the bytes so far await a
      number. */
  lemma PanicsIff(b: seq<byte>, chunks: seq<seq<byte>>)
    ensures ReadAll(b, chunks).ending == Panicked
       <==> exists k | 0 <= k <= |chunks| :: EndsWithAwaitedSign(b + Concat(chunks[..k]))
  {
    PanicsAfterIff(b, chunks);
    forall k | 0 <= k <= |chunks|
      ensures PanicsAfter(b, chunks, k) <==> EndsWithAwaitedSign(b + Concat(chunks[..k]))
    {
      AtOncePanicsIff(b + Concat(chunks[..k]));
    }
  }

  predicate EndsInSign(s: seq<byte>) {
    |s| > 0 && s[|s| - 1] in {PLUS, MINUS}
  }

  /** In particular, a session does not panic if no read ends right after a sign. */
  lemma {:induction false} NoSignNoPanic(b: seq<byte>, chunks: seq<seq<byte>>)
    requires Chunked(chunks) && !EndsInSign(b) && (forall i :: 0 <= i < |chunks| ==> !EndsInSign(chunks[i]))
    ensures ReadAll(b, chunks).ending != Panicked
    decreases |chunks|, |b|
  {
    match FrontOf(b) {
      case Whole(f, len) => NoSignNoPanic(b[len..], chunks);
      case Faulty =>
        if CheckAt(b, 0).Fault? {
          FrontFaultIff(b);
        } else {
          CheckedParses(b, 0);
        }
      case NeedMore =>
        if |chunks| > 0 {
          NoSignNoPanic(b + chunks[0], chunks[1..]);
        }
      case Broken(_) =>
    }
  }

  /** No read ends with a sign where the bytes so far await a number. */
  ghost predicate SafelySplit(chunks: seq<seq<byte>>) {
    forall k | 0 <= k <= |chunks| :: !EndsWithAwaitedSign(Concat(chunks[..k]))
  }

  lemma SafelySplitIff(chunks: seq<seq<byte>>)
    ensures SafelySplit(chunks) <==> ReadAll([], chunks).ending != Panicked
  {
    PanicsIff([], chunks);
    forall k | 0 <= k <= |chunks|
      ensures [] + Concat(chunks[..k]) == Concat(chunks[..k])
    {
    }
  }

  /** Two ways in which the same bytes can come, with no read that ends with an awaited sign, bring the
      same frames and end alike. */
  lemma ChunkingDoesNotMatter(chunks: seq<seq<byte>>, others: seq<seq<byte>>)
    requires Concat(chunks) == Concat(others) && SafelySplit(chunks) && SafelySplit(others)
    ensures Same(ReadAll([], chunks), ReadAll([], others))
  {
    SafelySplitIff(chunks);
    SafelySplitIff(others);
    AsIfAtOnce([], chunks);
    AsIfAtOnce([], others);
  }

  /** However the bytes come, and also if the session panics, the frames are the first frames of the
      bytes. */
  lemma {:induction false} FramesAreFirst(b: seq<byte>, chunks: seq<seq<byte>>)
    ensures ReadAll(b, chunks).frames <= ReadAll(b + Concat(chunks), []).frames
    decreases |chunks|, |b|
  {
    match FrontOf(b) {
      case Whole(f, len) =>
        WholeStep(b, Concat(chunks), f, len);
        FramesAreFirst(b[len..], chunks);
      case NeedMore =>
        if |chunks| > 0 {
          FramesAreFirst(b + chunks[0], chunks[1..]);
          NextChunk(b, chunks);
        }
      case _ =>
    }
  }

  /** It can matter where a read ends: right after a sign the session panics, one byte later it does not. */
  lemma SignAtEndMatters()
    ensures var bytes := [COLON, MINUS, 49, CR, LF];
            && Concat([bytes]) == Concat([bytes[..2], bytes[2..]])
            && ReadAll([], [bytes]) == Session([Integer(-1)], Closed)
            && ReadAll([], [bytes[..2], bytes[2..]]) == Session([], Panicked)
  {
    var bytes: seq<byte> := [COLON, MINUS, 49, CR, LF];
    assert Digits(1) == [49] && Decimal(-1) == [MINUS, 49];
    assert HoldsAt(bytes, 0, PrintedValue(Integer(-1)));
    ValueReads(bytes, 0, Integer(-1));
    ParsedIsChecked(bytes, 0);
    assert bytes[5..] == [];
    OneChunk(bytes);
    ConcatTwo(bytes[..2], bytes[2..]);
    ConcatOne(bytes);
    assert FrontOf(bytes) == Whole(Integer(-1), 5);
    LoneSign();
  }

  lemma OneChunk(bytes: seq<byte>)
    ensures ReadAll([], [bytes]) == ReadAll(bytes, [])
  {
    assert FrontOf([]) == NeedMore;
    assert [] + bytes == bytes && [bytes][1..] == [];
  }

  lemma ConcatOne(x: seq<byte>)
    ensures Concat([x]) == x
  {
    assert [x][1..] == [];
    assert x + [] == x;
  }

  lemma ConcatTwo(x: seq<byte>, y: seq<byte>)
    ensures Concat([x, y]) == x + y
  {
    assert [x, y][1..] == [y];
    ConcatOne(x);
    ConcatOne(y);
  }

  lemma LoneSign()
    ensures forall rest :: ReadAll([], [[COLON, MINUS], rest]) == Session([], Panicked)
  {
    var b: seq<byte> := [COLON, MINUS];
    assert CheckAt(b, 0).Fault?;
    assert [] + b == b;
  }
}
