/** The two passes as the program runs them, over a cursor that moves through a buffer. */
module FrameCursor {
  import opened Types
  import opened Utf8
  import opened Frames
  import opened Decimals

  /** A value, an error, or a panic of the program. */
  datatype Outcome<+T> = Done(value: T) | Err(error: FrameError) | Panic {
    predicate IsFailure() {
      !Done?
    }

    function PropagateFailure<U>(): Outcome<U>
      requires IsFailure()
    {
      match this
      case Err(error) => Err(error)
      case Panic => Panic
    }

    function Extract(): T
      requires !IsFailure()
    {
      value
    }
  }

  /** The outcome and the new position are the ones of the specification. */
  ghost predicate Agrees<T>(o: Outcome<T>, pos: nat, r: Read<T>) {
    match r
    case Got(value, end) => o == Done(value) && pos == end
    case Failed(error) => o == Err(error)
    case Fault => o == Panic
  }

  function AsciiToI64(b: byte): (n: Option<i64>)
    ensures n.Some? <==> IsDigit(b)
    ensures n.Some? ==> n.value == Natural([b])
  {
    if b < 48 || 57 < b then None
    else
      DigitWrites(b);
      Some(b - 48)
  }

  function CheckedMul(x: Option<i64>, n: i64): Option<i64> {
    match x
    case Some(x) => if InI64(x * n) then Some(x * n) else None
    case None => None
  }

  function CheckedAdd(x: Option<i64>, n: i64): Option<i64> {
    match x
    case Some(x) => if InI64(x + n) then Some(x + n) else None
    case None => None
  }

  function CheckedSub(x: Option<i64>, n: i64): Option<i64> {
    match x
    case Some(x) => if InI64(x - n) then Some(x - n) else None
    case None => None
  }

  /** Multiplication, addition and subtraction of machine integers without a check. */
  function WrappingMul(x: i64, n: i64): i64 {
    Wrap64(x * n)
  }

  function WrappingAdd(x: i64, n: i64): i64 {
    Wrap64(x + n)
  }

  function WrappingSub(x: i64, n: i64): i64 {
    Wrap64(x - n)
  }

  lemma CheckedUp(v: int, n: i64)
    requires 0 <= v && 0 <= n <= 9
    ensures CheckedAdd(CheckedMul(if InI64(v) then Some(v) else None, 10), n)
         == if InI64(v * 10 + n) then Some(v * 10 + n) else None
  {
  }

  lemma CheckedDown(v: int, n: i64)
    requires v <= 0 && 0 <= n <= 9
    ensures CheckedSub(CheckedMul(if InI64(v) then Some(v) else None, 10), n)
         == if InI64(v * 10 - n) then Some(v * 10 - n) else None
  {
  }

  lemma UpStep(b: seq<byte>, start: nat, i: nat, n: i64)
    requires start <= i < |b| && AllDigits(b[start..i]) && AsciiToI64(b[i]) == Some(n)
    ensures AllDigits(b[start..i + 1])
    ensures Signed(false, b[start..i + 1]) == Signed(false, b[start..i]) * 10 + n
  {
    NaturalStep(b, start, i);
  }

  lemma DownStep(b: seq<byte>, start: nat, i: nat, n: i64)
    requires start <= i < |b| && AllDigits(b[start..i]) && AsciiToI64(b[i]) == Some(n)
    ensures AllDigits(b[start..i + 1])
    ensures Signed(true, b[start..i + 1]) == Signed(true, b[start..i]) * 10 - n
  {
    NaturalStep(b, start, i);
  }

  class Cursor {
    const buf: seq<byte>
    var pos: nat

    ghost predicate Valid()
      reads this
    {
      pos <= |buf|
    }

    constructor (buf: seq<byte>)
      ensures this.buf == buf && pos == 0 && Valid()
    {
      this.buf := buf;
      pos := 0;
    }

    method GetByte() returns (r: Outcome<byte>)
      requires Valid()
      modifies this
      ensures Valid()
      ensures r == if old(pos) == |buf| then Err(Incomplete) else Done(buf[old(pos)])
      ensures pos == if old(pos) == |buf| then old(pos) else old(pos) + 1
    {
      if pos == |buf| {
        return Err(Incomplete);
      }
      r := Done(buf[pos]);
      pos := pos + 1;
    }

    method PeekByte() returns (r: Outcome<byte>)
      requires Valid()
      ensures r == if pos == |buf| then Err(Incomplete) else Done(buf[pos])
    {
      r := if pos == |buf| then Err(Incomplete) else Done(buf[pos]);
    }

    method Skip(n: nat) returns (r: Outcome<()>)
      requires Valid()
      modifies this
      ensures Valid() && Agrees(r, pos, SkipAt(buf, old(pos), n))
    {
      if |buf| - pos < n {
        return Err(Incomplete);
      }
      pos := pos + n;
      r := Done(());
    }

    method GetLine() returns (r: Outcome<seq<byte>>)
      requires Valid() && |buf| > 0
      modifies this
      ensures Valid() && Agrees(r, pos, LineAt(buf, old(pos)))
    {
      var start, end := pos, |buf| - 1;
      var i := start;
      while i < end
        invariant start <= i <= |buf| && pos == start && LineStop(buf, start) == LineStop(buf, i)
      {
        if buf[i] == CR {
          pos := pos + (i - start + 2);
          return Done(buf[start..i]);
        } else if buf[i] == LF {
          return Err(BadEncoding);
        }
        i := i + 1;
      }
      r := Err(Incomplete);
    }

    /** The digits of a number that is not negative: first without checks, then with. */
    method AccumulateUp(start: nat) returns (idx: nat, num: Option<i64>)
      requires start < |buf|
      ensures idx == RunEnd(buf, start) && num == Accumulated(start, Signed(false, buf[start..idx]))
    {
      var end := |buf| - 1;
      idx := start;
      var unchecked: i64 := 0;
      while idx != end && idx != MAX_SAFE_DIGITS
        invariant start <= idx <= end && AllDigits(buf[start..idx])
        invariant start <= MAX_SAFE_DIGITS ==> idx <= MAX_SAFE_DIGITS
        invariant unchecked == Wrap64(Signed(false, buf[start..idx]))
        decreases end - idx
      {
        match AsciiToI64(buf[idx]) {
          case Some(n) =>
            WrapStep(Signed(false, buf[start..idx]), n);
            UpStep(buf, start, idx, n);
            unchecked := WrappingAdd(WrappingMul(unchecked, 10), n);
          case None => break;
        }
        idx := idx + 1;
      }
      num := Some(unchecked);
      if start <= MAX_SAFE_DIGITS {
        SafeDigitsFit(buf[start..idx]);
        WrapExact(Signed(false, buf[start..idx]));
      }
      while idx != end
        invariant start <= idx <= end && AllDigits(buf[start..idx])
        invariant start > MAX_SAFE_DIGITS ==> idx == end || !IsDigit(buf[idx])
        invariant num == Accumulated(start, Signed(false, buf[start..idx]))
        decreases end - idx
      {
        match AsciiToI64(buf[idx]) {
          case Some(n) =>
            CheckedUp(Signed(false, buf[start..idx]), n);
            UpStep(buf, start, idx, n);
            num := CheckedAdd(CheckedMul(num, 10), n);
          case None => break;
        }
        idx := idx + 1;
      }
      assert forall k :: start <= k < idx ==> buf[k] == buf[start..idx][k - start];
      RunEndIs(buf, start, idx);
    }

    /** The digits of a negative number. */
    method AccumulateDown(start: nat) returns (idx: nat, num: Option<i64>)
      requires start < |buf|
      ensures idx == RunEnd(buf, start) && num == Accumulated(start, Signed(true, buf[start..idx]))
    {
      var end := |buf| - 1;
      idx := start;
      var unchecked: i64 := 0;
      while idx != end && idx != MAX_SAFE_DIGITS
        invariant start <= idx <= end && AllDigits(buf[start..idx])
        invariant start <= MAX_SAFE_DIGITS ==> idx <= MAX_SAFE_DIGITS
        invariant unchecked == Wrap64(Signed(true, buf[start..idx]))
        decreases end - idx
      {
        match AsciiToI64(buf[idx]) {
          case Some(n) =>
            WrapStep(Signed(true, buf[start..idx]), -n);
            DownStep(buf, start, idx, n);
            unchecked := WrappingSub(WrappingMul(unchecked, 10), n);
          case None => break;
        }
        idx := idx + 1;
      }
      num := Some(unchecked);
      if start <= MAX_SAFE_DIGITS {
        SafeDigitsFit(buf[start..idx]);
        WrapExact(Signed(true, buf[start..idx]));
      }
      while idx != end
        invariant start <= idx <= end && AllDigits(buf[start..idx])
        invariant start > MAX_SAFE_DIGITS ==> idx == end || !IsDigit(buf[idx])
        invariant num == Accumulated(start, Signed(true, buf[start..idx]))
        decreases end - idx
      {
        match AsciiToI64(buf[idx]) {
          case Some(n) =>
            CheckedDown(Signed(true, buf[start..idx]), n);
            DownStep(buf, start, idx, n);
            num := CheckedSub(CheckedMul(num, 10), n);
          case None => break;
        }
        idx := idx + 1;
      }
      assert forall k :: start <= k < idx ==> buf[k] == buf[start..idx][k - start];
      RunEndIs(buf, start, idx);
    }

    method GetInteger() returns (r: Outcome<i64>)
      requires Valid() && |buf| > 0
      modifies this
      ensures Valid() && Agrees(r, pos, IntegerAt(buf, old(pos)))
    {
      hide Accumulated, AllDigits, RunEnd, Signed;
      var init := pos;
      var sign :- PeekByte();
      if sign == MINUS || sign == PLUS {
        pos := pos + 1;
      }
      var start, end := pos, |buf| - 1;
      if start > end {
        // The sign is the last byte: the index never meets `end`, and the first access is out of range.
        return Panic;
      }
      var idx, num;
      if sign == MINUS {
        idx, num := AccumulateDown(start);
      } else {
        idx, num := AccumulateUp(start);
      }
      if idx == end {
        return Err(Incomplete);
      }
      if idx == start || buf[idx] != CR {
        return Err(NotInteger(buf[init..idx + 1]));
      }
      pos := pos + (idx - start + 2);
      match num {
        case Some(n) => r := Done(n);
        case None => r := Err(NotInteger(buf[init..idx]));
      }
    }

    /** The checking pass. */
    method Check() returns (r: Outcome<()>)
      requires Valid()
      modifies this
      ensures Valid() && Agrees(r, pos, CheckAt(buf, old(pos)))
      decreases |buf| - pos
    {
      hide Accumulated, AllDigits, LineAt, RunEnd, Signed;
      var b :- GetByte();
      if b == PLUS || b == MINUS {
        var _ :- GetLine();
      } else if b == COLON {
        var _ :- GetInteger();
      } else if b == DOLLAR {
        var next :- PeekByte();
        if next == MINUS {
          var _ :- Skip(4);
        } else {
          var length :- GetInteger();
          var n: int := length;
          if n < 0 {
            return Err(BadEncoding);
          }
          var _ :- Skip(n + 2);
        }
      } else if b == STAR {
        var n :- GetInteger();
        var i: int := 0;
        ghost var first := pos;
        while i < n
          invariant first <= pos <= |buf| && (n > 0 ==> i <= n)
          invariant CheckAll(buf, first, n) == CheckAll(buf, pos, n - i)
          decreases n - i
        {
          var _ :- Check();
          i := i + 1;
        }
      } else {
        return Err(BadEncoding);
      }
      r := Done(());
    }

    /** A null or a bulk string, after its first byte. */
    method ParseBulk() returns (r: Outcome<Frame>)
      requires Valid() && 0 < pos && buf[pos - 1] == DOLLAR
      modifies this
      ensures Valid() && Agrees(r, pos, ParseAt(buf, old(pos) - 1))
    {
      var next :- PeekByte();
      if next == MINUS {
        var l :- GetLine();
        if l != MINUS_ONE {
          return Err(BadEncoding);
        }
        return Done(Null);
      }
      var length :- GetInteger();
      var len: int := length;
      if len < 0 {
        return Err(BadEncoding);
      }
      if len + 2 > |buf| - pos {
        return Err(Incomplete);
      }
      var data := buf[pos..pos + len];
      pos := pos + len;
      var _ :- Skip(2);
      r := Done(BulkString(data));
    }

    /** The elements of an array, pushed one after the other. */
    method ParseItems(len: nat) returns (r: Outcome<seq<Frame>>)
      requires Valid()
      modifies this
      ensures Valid() && Agrees(r, pos, ParseAll(buf, old(pos), len))
      decreases |buf| - pos, 1
    {
      hide IntegerAt, LineAt, ParseAt;
      var items := [];
      ghost var first := pos;
      PrependNone(ParseAll(buf, first, len));
      while |items| < len
        invariant first <= pos <= |buf| && |items| <= len
        invariant ParseAll(buf, first, len) == Prepended(items, ParseAll(buf, pos, len - |items|))
      {
        var item :- Parse();
        PrependMore(items, item, ParseAll(buf, pos, len - |items| - 1));
        items := items + [item];
      }
      assert items + [] == items;
      r := Done(items);
    }

    /** The building pass. */
    method Parse() returns (r: Outcome<Frame>)
      requires Valid()
      modifies this
      ensures Valid() && Agrees(r, pos, ParseAt(buf, old(pos)))
      decreases |buf| - pos, 0
    {
      var b :- GetByte();
      if b == PLUS {
        var l :- GetLine();
        if !ValidUtf8(l) {
          return Err(NotUtf8(l));
        }
        r := Done(SimpleString(l));
      } else if b == MINUS {
        var l :- GetLine();
        if !ValidUtf8(l) {
          return Err(NotUtf8(l));
        }
        r := Done(Error(l));
      } else if b == COLON {
        var x :- GetInteger();
        r := Done(Integer(x));
      } else if b == DOLLAR {
        r := ParseBulk();
      } else if b == STAR {
        var len :- GetInteger();
        if len < 0 {
          return Err(BadEncoding);
        }
        var items :- ParseItems(len);
        r := Done(Array(items));
      } else {
        return Err(BadEncoding);
      }
    }
  }

  ghost function Prepended(items: seq<Frame>, r: Read<seq<Frame>>): Read<seq<Frame>> {
    var (rest, end) :- r;
    Got(items + rest, end)
  }

  lemma PrependNone(r: Read<seq<Frame>>)
    ensures Prepended([], r) == r
  {
    if r.Got? {
      assert [] + r.value == r.value;
    }
  }

  lemma PrependMore(items: seq<Frame>, item: Frame, r: Read<seq<Frame>>)
    ensures Prepended(items, Prepended([item], r)) == Prepended(items + [item], r)
  {
    if r.Got? {
      assert items + ([item] + r.value) == items + [item] + r.value;
    }
  }
}
