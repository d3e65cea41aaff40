/** What one side writes and what the other side reads, however the bytes are split into reads. */
module Delivery {
  import opened Types
  import opened Frames
  import opened FramePasses
  import opened LoneSigns
  import opened Printing
  import opened Connection
  import opened Stream

  function PrintedAll(frames: seq<Frame>): Option<seq<byte>> {
    if |frames| == 0 then Some([])
    else
      match (Printed(frames[0]), PrintedAll(frames[1..]))
      case (Some(p), Some(rest)) => Some(p + rest)
      case _ => None
  }

  /** The front of bytes that start with a written frame. */
  lemma WrittenIsFront(f: Frame, p: seq<byte>, bytes: seq<byte>)
    requires WellFormed(f) && Printed(f) == Some(p) && p <= bytes
    ensures CheckAt(bytes, 0) == Got((), |p|) && FrontOf(bytes) == Whole(f, |p|)
  {
    PrintedReads(bytes, 0, f, p);
    ParsedIsChecked(bytes, 0);
  }

  /** The bytes of well-formed frames, all at once, are read as these frames and then the end. */
  lemma {:induction false} WrittenComesBack(frames: seq<Frame>, bytes: seq<byte>)
    requires PrintedAll(frames) == Some(bytes) && (forall i :: 0 <= i < |frames| ==> WellFormed(frames[i]))
    ensures ReadAll(bytes, []) == Session(frames, Closed)
    decreases |frames|
  {
    if |frames| > 0 {
      var p := Printed(frames[0]).value;
      var rest := PrintedAll(frames[1..]).value;
      WrittenIsFront(frames[0], p, bytes);
      assert bytes[|p|..] == rest;
      WrittenComesBack(frames[1..], rest);
      assert frames == [frames[0]] + frames[1..];
    }
  }

  /** What one side writes the other side receives, frame by frame, if and only if no read ends with a
      sign where the bytes so far await a number. */
  lemma DeliveredIff(frames: seq<Frame>, chunks: seq<seq<byte>>)
    requires PrintedAll(frames) == Some(Concat(chunks)) && (forall i :: 0 <= i < |frames| ==> WellFormed(frames[i]))
    ensures ReadAll([], chunks) == Session(frames, Closed) <==> SafelySplit(chunks)
  {
    WrittenComesBack(frames, Concat(chunks));
    assert [] + Concat(chunks) == Concat(chunks);
    SafelySplitIff(chunks);
    if ReadAll([], chunks).ending != Panicked {
      AsIfAtOnce([], chunks);
    }
  }

  // ---------- frames without negative integers ----------

  predicate NonNegative(f: Frame) {
    match f
    case Integer(v) => v >= 0
    case Array(items) => forall i :: 0 <= i < |items| ==> NonNegative(items[i])
    case _ => true
  }

  /** The second byte of such a value is no sign that its first byte lets a number start with. */
  lemma NoSignFollows(f: Frame, p: seq<byte>)
    requires !f.Array? && NonNegative(f) && WellFormed(f) && p == PrintedValue(f)
    ensures |p| >= 2 && p[0] != STAR
    ensures p[0] == COLON ==> IsDigit(p[1])
    ensures p[0] == DOLLAR ==> IsDigit(p[1]) || p[1] == MINUS
  {
    match f {
      case Integer(v) => DecimalStart(v);
      case BulkString(data) =>
        Decimals.WrapExact(|data|);
        DecimalStart(|data|);
      case _ =>
    }
  }

  /** Within the bytes of such a value no sign is awaited. */
  lemma ValueAwaitsNoSign(b: seq<byte>, all: seq<byte>, s: byte, pos: nat, f: Frame, p: seq<byte>)
    requires !f.Array? && NonNegative(f) && WellFormed(f) && p == PrintedValue(f)
    requires b + [s] <= all && HoldsAt(all, pos, p) && pos <= |b| < pos + |p| && IsSign(s)
    ensures !Awaits(b, pos, s)
  {
    NoSignFollows(f, p);
    HoldsByte(all, pos, p, 0);
    HoldsByte(all, pos, p, 1);
    assert all[|b|] == (b + [s])[|b|] == s;
    if pos < |b| {
      assert b[pos] == all[pos];
    }
  }

  lemma ValueChecks(b: seq<byte>, all: seq<byte>, pos: nat, f: Frame, p: seq<byte>)
    requires !f.Array? && WellFormed(f) && p == PrintedValue(f) && b <= all && HoldsAt(all, pos, p) && pos <= |b|
    ensures CheckAt(b, pos) == Got((), pos + |p|) <==> pos + |p| <= |b|
    ensures CheckAt(b, pos).Got? <==> pos + |p| <= |b|
  {
    ValueReads(all, pos, f);
    ParsedIsChecked(all, pos);
    CheckOfPrefix(b, all, pos);
    if CheckAt(b, pos).Got? {
      CheckStands(b, all, pos);
    }
  }

  lemma {:induction false} ItemsAwaitNoSign(b: seq<byte>, all: seq<byte>, s: byte, pos: nat, items: seq<Frame>, n: nat,
                                            p: seq<byte>)
    requires Flat(items) && n == |items| && p == PrintedItems(items)
    requires forall i :: 0 <= i < |items| ==> WellFormed(items[i]) && NonNegative(items[i])
    requires b + [s] <= all && HoldsAt(all, pos, p) && pos <= |b| && IsSign(s)
    ensures !AwaitsAmong(b, pos, n, s)
    decreases n
  {
    if n > 0 {
      var f, tail := items[0], items[1..];
      var first, rest := PrintedValue(f), PrintedItems(tail);
      PrintedFirst(items, first, tail);
      HoldsParts(all, pos, first, rest);
      ValueChecks(b, all, pos, f, first);
      if pos + |first| <= |b| {
        if Awaits(b, pos, s) {
          AwaitingIsIncomplete(b, pos, s);
        }
        ItemsAwaitNoSign(b, all, s, pos + |first|, tail, n - 1, rest);
      } else {
        ValueAwaitsNoSign(b, all, s, pos, f, first);
      }
    }
  }

  lemma ArrayAwaitsNoSign(b: seq<byte>, all: seq<byte>, s: byte, items: seq<Frame>, length: seq<byte>, rest: seq<byte>)
    requires Flat(items) && |items| < TWO_63 && length == Decimal(|items|) && rest == PrintedItems(items)
    requires forall i :: 0 <= i < |items| ==> WellFormed(items[i]) && NonNegative(items[i])
    requires b + [s] <= all && HoldsAt(all, 0, [STAR] + ((length + CRLF) + rest)) && IsSign(s)
    ensures !Awaits(b, 0, s)
  {
    hide AwaitsAmong, CheckAt, Decimal, Flat, HoldsAt, NonNegative, PrintedItems, RunEnd, WellFormed;
    ArrayBytes(all, 0, |items|, length, rest);
    assert all[|b|] == (b + [s])[|b|] == s;
    if |b| == 1 {
      HoldsParts(all, 0, [STAR], (length + CRLF) + rest);
      HoldsParts(all, 1, length + CRLF, rest);
      DecimalStart(|items|);
      HoldsByte(all, 1, length + CRLF, 0);
    } else if |b| > 1 && IntegerAt(b, 1).Got? {
      IntegerStands(b, all, 1);
      ItemsAwaitNoSign(b, all, s, 3 + |length|, items, |items|, rest);
    }
  }

  /** Within the bytes of a frame without negative integers no sign is awaited. */
  lemma FrameAwaitsNoSign(b: seq<byte>, all: seq<byte>, s: byte, f: Frame, p: seq<byte>)
    requires NonNegative(f) && WellFormed(f) && Printed(f) == Some(p)
    requires b + [s] <= all && p <= all && |b| < |p| && IsSign(s)
    ensures !Awaits(b, 0, s)
  {
    assert HoldsAt(all, 0, p);
    if f.Array? {
      Decimals.WrapExact(|f.items|);
      ArrayAwaitsNoSign(b, all, s, f.items, Decimal(|f.items|), PrintedItems(f.items));
    } else {
      ValueAwaitsNoSign(b, all, s, 0, f, p);
    }
  }

  lemma RestFollows(b: seq<byte>, s: byte, all: seq<byte>, p: seq<byte>, rest: seq<byte>)
    requires b + [s] <= all && all == p + rest && |p| <= |b|
    ensures p <= b && b[|p|..] + [s] <= rest
  {
    assert (b + [s])[|p|..] == b[|p|..] + [s];
    assert all[|p|..] == rest;
  }

  lemma {:induction false} FramesAwaitNoSign(frames: seq<Frame>, all: seq<byte>, b: seq<byte>, s: byte)
    requires PrintedAll(frames) == Some(all) && b + [s] <= all && IsSign(s)
    requires forall i :: 0 <= i < |frames| ==> WellFormed(frames[i]) && NonNegative(frames[i])
    ensures !NumberAwaited(b, s)
    decreases |frames|
  {
    hide Awaits, CheckAt, FrontOf, IsSign, NonNegative, ParseAt, Printed, WellFormed;
    if |frames| > 0 {
      var f, tail := frames[0], frames[1..];
      var p, rest := Printed(f).value, PrintedAll(tail).value;
      WrittenIsFront(f, p, all);
      if |p| <= |b| {
        RestFollows(b, s, all, p, rest);
        WrittenIsFront(f, p, b);
        FramesAwaitNoSign(tail, rest, b[|p|..], s);
      } else {
        FrontStands(b, all);
        FrameAwaitsNoSign(b, all, s, f, p);
      }
    }
  }

  lemma {:induction false} ConcatOfFirst(chunks: seq<seq<byte>>, k: nat)
    requires k <= |chunks|
    ensures Concat(chunks[..k]) <= Concat(chunks)
    decreases |chunks|
  {
    if k > 0 {
      ConcatOfFirst(chunks[1..], k - 1);
      assert chunks[..k][1..] == chunks[1..][..k - 1];
    }
  }

  /** Frames without negative integers are received however their bytes are split into reads: whatever
      byte a read ends with, the session does not panic. */
  lemma AlwaysDelivered(frames: seq<Frame>, chunks: seq<seq<byte>>)
    requires PrintedAll(frames) == Some(Concat(chunks))
    requires forall i :: 0 <= i < |frames| ==> WellFormed(frames[i]) && NonNegative(frames[i])
    ensures ReadAll([], chunks) == Session(frames, Closed)
  {
    hide NonNegative, NumberAwaited, PrintedAll, ReadAll, WellFormed;
    forall k | 0 <= k <= |chunks|
      ensures !EndsWithAwaitedSign(Concat(chunks[..k]))
    {
      var c := Concat(chunks[..k]);
      ConcatOfFirst(chunks, k);
      if |c| > 0 && IsSign(c[|c| - 1]) {
        assert c == c[..|c| - 1] + [c[|c| - 1]];
        FramesAwaitNoSign(frames, Concat(chunks), c[..|c| - 1], c[|c| - 1]);
      }
    }
    DeliveredIff(frames, chunks);
  }
}
