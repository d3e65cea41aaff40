/** Where exactly the checking pass runs out of its buffer: at a sign that is the last byte, in a place
    where the bytes before it await a number. */
module LoneSigns {
  import opened Types
  import opened Frames
  import opened FramePasses

  /** The bytes from `pos` on are headers of arrays and whole frames within them, and then the first byte
      of a frame that goes on with a number, which may start with the sign `s`. After the first byte of a
      bulk string a minus announces a null and no number. */
  ghost predicate Awaits(b: seq<byte>, pos: nat, s: byte)
    requires pos <= |b|
    decreases |b| - pos, 0
  {
    if pos == |b| then false
    else if pos + 1 == |b| then b[pos] == COLON || b[pos] == STAR || (b[pos] == DOLLAR && s == PLUS)
    else
      && b[pos] == STAR && IntegerAt(b, pos + 1).Got?
      && AwaitsAmong(b, IntegerAt(b, pos + 1).end, IntegerAt(b, pos + 1).value, s)
  }

  /** The same within `n` frames. */
  ghost predicate AwaitsAmong(b: seq<byte>, pos: nat, n: int, s: byte)
    requires pos <= |b|
    decreases |b| - pos, 1
  {
    n > 0 && (Awaits(b, pos, s) || (CheckAt(b, pos).Got? && AwaitsAmong(b, CheckAt(b, pos).end, n - 1, s)))
  }

  /** While a number is awaited the frame is incomplete. */
  lemma {:induction false} AwaitingIsIncomplete(b: seq<byte>, pos: nat, s: byte)
    requires pos <= |b| && Awaits(b, pos, s)
    ensures CheckAt(b, pos) == Failed(Incomplete)
    decreases |b| - pos, 0
  {
    if pos + 1 < |b| {
      var r := IntegerAt(b, pos + 1);
      AwaitingAmongIsIncomplete(b, r.end, r.value, s);
    }
  }

  lemma {:induction false} AwaitingAmongIsIncomplete(b: seq<byte>, pos: nat, n: int, s: byte)
    requires pos <= |b| && AwaitsAmong(b, pos, n, s)
    ensures CheckAll(b, pos, n) == Failed(Incomplete)
    decreases |b| - pos, 1
  {
    if Awaits(b, pos, s) {
      AwaitingIsIncomplete(b, pos, s);
    } else {
      AwaitingAmongIsIncomplete(b, CheckAt(b, pos).end, n - 1, s);
    }
  }

  predicate IsSign(s: byte) {
    s == PLUS || s == MINUS
  }

  /** A number faults exactly if it is a sign and nothing more. */
  lemma IntegerFaultIff(c: seq<byte>, pos: nat)
    requires pos <= |c|
    ensures IntegerAt(c, pos).Fault? <==> pos + 1 == |c| && IsSign(c[pos])
  {
  }

  lemma NothingLeftDoesNotFault(c: seq<byte>, n: int)
    ensures !CheckAll(c, |c|, n).Fault?
  {
  }

  /** The header of an array that the last byte completes leaves nothing to read. */
  lemma HeaderWithSign(b: seq<byte>, c: seq<byte>, s: byte, p: nat)
    requires c == b + [s] && p <= |b| && IntegerAt(c, p).Got?
    ensures if IntegerAt(c, p).end <= |b| then IntegerAt(b, p) == IntegerAt(c, p)
            else IntegerAt(c, p).end == |c| && !IntegerAt(b, p).Got?
  {
    if IntegerAt(c, p).end <= |b| {
      IntegerWithin(b, c, p);
    } else if IntegerAt(b, p).Got? {
      IntegerStands(b, c, p);
    }
  }

  lemma FrameWithSign(b: seq<byte>, c: seq<byte>, s: byte, pos: nat)
    requires c == b + [s] && pos <= |b|
    ensures CheckAt(b, pos).Got? ==> CheckAt(c, pos) == CheckAt(b, pos)
    ensures CheckAt(c, pos).Got? && !CheckAt(b, pos).Got? ==> CheckAt(c, pos).end == |c|
  {
    if CheckAt(b, pos).Got? {
      CheckStands(b, c, pos);
    } else if CheckAt(c, pos).Got? && CheckAt(c, pos).end <= |b| {
      CheckWithin(b, c, pos);
    }
  }

  /** With one more byte the pass runs out of its buffer if and only if the byte is a sign and the bytes
      before it await a number that may start with it. */
  lemma {:induction false} FaultIff(b: seq<byte>, c: seq<byte>, s: byte, pos: nat)
    requires c == b + [s] && pos <= |b|
    ensures CheckAt(c, pos).Fault? <==> IsSign(s) && Awaits(b, pos, s)
    decreases |b| - pos, 1
  {
    IntegerFaultIff(c, pos + 1);
    if pos + 1 < |b| && b[pos] == STAR {
      ArrayFaultIff(b, c, s, pos);
    }
  }

  lemma {:induction false} ArrayFaultIff(b: seq<byte>, c: seq<byte>, s: byte, pos: nat)
    requires c == b + [s] && pos + 1 < |b| && b[pos] == STAR
    ensures CheckAt(c, pos).Fault? <==> IsSign(s) && Awaits(b, pos, s)
    decreases |b| - pos, 0
  {
    IntegerFaultIff(c, pos + 1);
    var r := IntegerAt(c, pos + 1);
    if r.Got? {
      HeaderWithSign(b, c, s, pos + 1);
      if r.end <= |b| {
        FaultAmongIff(b, c, s, r.end, r.value);
      } else {
        NothingLeftDoesNotFault(c, r.value);
      }
    } else if IntegerAt(b, pos + 1).Got? {
      IntegerStands(b, c, pos + 1);
    }
  }

  lemma {:induction false} FaultAmongIff(b: seq<byte>, c: seq<byte>, s: byte, pos: nat, n: int)
    requires c == b + [s] && pos <= |b|
    ensures CheckAll(c, pos, n).Fault? <==> IsSign(s) && AwaitsAmong(b, pos, n, s)
    decreases |b| - pos, 2
  {
    if n > 0 {
      FaultIff(b, c, s, pos);
      FrameWithSign(b, c, s, pos);
      if CheckAt(b, pos).Got? {
        FaultAmongIff(b, c, s, CheckAt(b, pos).end, n - 1);
      } else if CheckAt(c, pos).Got? {
        NothingLeftDoesNotFault(c, n - 1);
      }
    }
  }
}
