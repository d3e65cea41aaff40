/**
 The messages of the Redis serialization protocol and what reading one from a buffer gives: a pass that
 only checks, and a pass that builds the message.
 */
module Frames {
  import opened Types
  import opened Utf8

  const CR: byte := 13
  const LF: byte := 10
  const PLUS: byte := 43
  const MINUS: byte := 45
  const COLON: byte := 58
  const DOLLAR: byte := 36
  const STAR: byte := 42

  datatype Frame =
    | SimpleString(text: seq<byte>)
    | Error(text: seq<byte>)
    | Integer(value: i64)
    | BulkString(data: Bytes)
    | Array(items: seq<Frame>)
    | Null

  datatype FrameError =
    | Incomplete
    | BadEncoding
    | NotInteger(raw: seq<byte>)
    | NotUtf8(raw: seq<byte>)

  /** What reading at a position comes to. A fault is an index out of range, which stops the program. */
  datatype Read<+T> = Got(value: T, end: nat) | Failed(error: FrameError) | Fault {
    predicate IsFailure() {
      !Got?
    }

    function PropagateFailure<U>(): Read<U>
      requires IsFailure()
    {
      match this
      case Failed(error) => Failed(error)
      case Fault => Fault
    }

    function Extract(): (T, nat)
      requires !IsFailure()
    {
      (value, end)
    }
  }

  // ---------- lines ----------

  /** The first CR or LF from `i` on that is not the last byte of the buffer. */
  function LineStop(b: seq<byte>, i: nat): (j: nat)
    requires i <= |b|
    ensures i <= j <= |b|
    decreases |b| - i
  {
    if i + 1 >= |b| || b[i] == CR || b[i] == LF then i else LineStop(b, i + 1)
  }

  /** A line runs to the first CR; one byte after the CR is skipped, whatever it is. */
  function LineAt(b: seq<byte>, pos: nat): Read<seq<byte>>
    requires pos <= |b|
  {
    var i := LineStop(b, pos);
    if i + 1 >= |b| then Failed(Incomplete)
    else if b[i] == CR then Got(b[pos..i], i + 2)
    else Failed(BadEncoding)
  }

  // ---------- integers ----------

  predicate IsDigit(b: byte) {
    48 <= b <= 57
  }

  predicate AllDigits(s: seq<byte>) {
    forall i :: 0 <= i < |s| ==> IsDigit(s[i])
  }

  /** The number that a string of digits writes. */
  function Natural(digits: seq<byte>): nat
    requires AllDigits(digits)
  {
    if |digits| == 0 then 0 else Natural(digits[..|digits| - 1]) * 10 + (digits[|digits| - 1] - 48)
  }

  function Signed(negative: bool, digits: seq<byte>): int
    requires AllDigits(digits)
  {
    var n: int := Natural(digits);
    if negative then -n else n
  }

  /** Where a run of digits from `i` ends; the last byte of the buffer is never part of it. */
  function RunEnd(b: seq<byte>, i: nat): (j: nat)
    requires i < |b|
    ensures i <= j < |b| && AllDigits(b[i..j])
    ensures j + 1 == |b| || !IsDigit(b[j])
    decreases |b| - i
  {
    if i + 1 == |b| || !IsDigit(b[i]) then i
    else
      assert b[i..RunEnd(b, i + 1)] == [b[i]] + b[i + 1..RunEnd(b, i + 1)];
      RunEnd(b, i + 1)
  }

  /** Digits before this index of the buffer are accumulated without an overflow check. */
  const MAX_SAFE_DIGITS: nat := 18

  /** What the digits from index `start` on come to. Past the limit nothing is checked and the value
      wraps around; otherwise a value that is out of range is noticed. */
  function Accumulated(start: nat, value: int): Option<i64> {
    if start > MAX_SAFE_DIGITS then Some(Wrap64(value))
    else if InI64(value) then Some(value)
    else None
  }

  function SignLength(b: seq<byte>, pos: nat): (n: nat)
    requires pos < |b|
    ensures n <= 1
  {
    if b[pos] == MINUS || b[pos] == PLUS then 1 else 0
  }

  function IntegerAt(b: seq<byte>, pos: nat): Read<i64>
    requires pos <= |b|
  {
    if pos == |b| then Failed(Incomplete)
    else
      var start := pos + SignLength(b, pos);
      if start == |b| then Fault
      else
        var e := RunEnd(b, start);
        if e + 1 == |b| then Failed(Incomplete)
        else if e == start || b[e] != CR then Failed(NotInteger(b[pos..e + 1]))
        else
          match Accumulated(start, Signed(b[pos] == MINUS, b[start..e]))
          case Some(n) => Got(n, e + 2)
          case None => Failed(NotInteger(b[pos..e]))
  }

  // ---------- the checking pass ----------

  function SkipAt(b: seq<byte>, pos: nat, n: nat): Read<()> {
    if pos + n > |b| then Failed(Incomplete) else Got((), pos + n)
  }

  function CheckAt(b: seq<byte>, pos: nat): (r: Read<()>)
    requires pos <= |b|
    ensures r.Got? ==> pos + 3 <= r.end <= |b|
    decreases |b| - pos, 0
  {
    if pos == |b| then Failed(Incomplete)
    else if b[pos] == PLUS || b[pos] == MINUS then
      var (_, e) :- LineAt(b, pos + 1);
      Got((), e)
    else if b[pos] == COLON then
      var (_, e) :- IntegerAt(b, pos + 1);
      Got((), e)
    else if b[pos] == DOLLAR then
      if pos + 1 == |b| then Failed(Incomplete)
      else if b[pos + 1] == MINUS then SkipAt(b, pos + 1, 4)
      else
        var (n, e) :- IntegerAt(b, pos + 1);
        if n < 0 then Failed(BadEncoding) else SkipAt(b, e, n + 2)
    else if b[pos] == STAR then
      var (n, e) :- IntegerAt(b, pos + 1);
      CheckAll(b, e, n)
    else Failed(BadEncoding)
  }

  /** Check `n` frames, none when `n` is negative. */
  function CheckAll(b: seq<byte>, pos: nat, n: int): (r: Read<()>)
    requires pos <= |b|
    ensures r.Got? ==> pos <= r.end <= |b|
    decreases |b| - pos, 1
  {
    if n <= 0 then Got((), pos)
    else
      var (_, e) :- CheckAt(b, pos);
      CheckAll(b, e, n - 1)
  }

  // ---------- the building pass ----------

  const MINUS_ONE: seq<byte> := [45, 49]

  function TextAt(b: seq<byte>, pos: nat): Read<seq<byte>>
    requires pos <= |b|
  {
    var (text, e) :- LineAt(b, pos);
    if ValidUtf8(text) then Got(text, e) else Failed(NotUtf8(text))
  }

  function ParseAt(b: seq<byte>, pos: nat): (r: Read<Frame>)
    requires pos <= |b|
    ensures r.Got? ==> pos + 3 <= r.end <= |b|
    decreases |b| - pos, 0
  {
    if pos == |b| then Failed(Incomplete)
    else if b[pos] == PLUS then
      var (text, e) :- TextAt(b, pos + 1);
      Got(SimpleString(text), e)
    else if b[pos] == MINUS then
      var (text, e) :- TextAt(b, pos + 1);
      Got(Error(text), e)
    else if b[pos] == COLON then
      var (n, e) :- IntegerAt(b, pos + 1);
      Got(Integer(n), e)
    else if b[pos] == DOLLAR then
      if pos + 1 == |b| then Failed(Incomplete)
      else if b[pos + 1] == MINUS then
        var (l, e) :- LineAt(b, pos + 1);
        if l == MINUS_ONE then Got(Null, e) else Failed(BadEncoding)
      else
        var (n, e) :- IntegerAt(b, pos + 1);
        if n < 0 then Failed(BadEncoding)
        else if n + 2 > |b| - e then Failed(Incomplete)
        else Got(BulkString(b[e..e + n]), e + n + 2)
    else if b[pos] == STAR then
      var (n, e) :- IntegerAt(b, pos + 1);
      if n < 0 then Failed(BadEncoding)
      else
        var (items, end) :- ParseAll(b, e, n);
        Got(Array(items), end)
    else Failed(BadEncoding)
  }

  function ParseAll(b: seq<byte>, pos: nat, n: nat): (r: Read<seq<Frame>>)
    requires pos <= |b|
    ensures r.Got? ==> pos <= r.end <= |b| && |r.value| == n
    decreases |b| - pos, 1
  {
    if n == 0 then Got([], pos)
    else
      var (f, e) :- ParseAt(b, pos);
      var (fs, end) :- ParseAll(b, e, n - 1);
      Got([f] + fs, end)
  }
}
