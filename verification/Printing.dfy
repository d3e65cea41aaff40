/** Frames as they are written, and that reading gives them back. */
module Printing {
  import opened Types
  import opened Utf8
  import opened Frames
  import opened Decimals

  const CRLF: seq<byte> := [13, 10]

  // ---------- decimals ----------

  function Digits(n: nat): seq<byte> {
    if n < 10 then [48 + n] else Digits(n / 10) + [48 + n % 10]
  }

  function Decimal(v: int): seq<byte> {
    if v < 0 then [MINUS] + Digits(-v) else Digits(v)
  }

  lemma {:induction false} DigitsRead(n: nat)
    ensures |Digits(n)| > 0 && AllDigits(Digits(n)) && Natural(Digits(n)) == n
  {
    if n >= 10 {
      DigitsRead(n / 10);
      assert Digits(n)[..|Digits(n)| - 1] == Digits(n / 10);
    } else {
      assert Natural([48 + n]) == Natural([48 + n][..0]) * 10 + n;
    }
  }

  lemma {:induction false} DigitsLength(n: nat, k: nat)
    requires k > 0 && n < Pow10(k)
    ensures |Digits(n)| <= k
  {
    if n >= 10 {
      assert k > 1 by { assert Pow10(1) == 10; }
      DigitsLength(n / 10, k - 1);
    }
  }

  /** A 64-bit integer, its sign included, takes at most twenty bytes. */
  lemma DecimalFits(v: int)
    requires InI64(v)
    ensures 0 < |Decimal(v)| <= 20
  {
    SafePow10();
    assert Pow10(19) == 10 * Pow10(18);
    if v < 0 {
      DigitsLength(-v, 19);
      DigitsRead(-v);
    } else {
      DigitsLength(v, 19);
      DigitsRead(v);
    }
  }

  // ---------- what a buffer holds ----------

  predicate HoldsAt(b: seq<byte>, pos: nat, s: seq<byte>) {
    pos + |s| <= |b| && b[pos..pos + |s|] == s
  }

  lemma HoldsParts(b: seq<byte>, pos: nat, s: seq<byte>, t: seq<byte>)
    ensures HoldsAt(b, pos, s + t) <==> HoldsAt(b, pos, s) && HoldsAt(b, pos + |s|, t)
  {
    if HoldsAt(b, pos, s + t) {
      assert b[pos..pos + |s|] == (s + t)[..|s|] == s;
      assert b[pos + |s|..pos + |s| + |t|] == (s + t)[|s|..] == t;
    }
    if HoldsAt(b, pos, s) && HoldsAt(b, pos + |s|, t) {
      assert b[pos..pos + |s + t|] == b[pos..pos + |s|] + b[pos + |s|..pos + |s| + |t|];
    }
  }

  lemma HoldsByte(b: seq<byte>, pos: nat, s: seq<byte>, i: nat)
    requires HoldsAt(b, pos, s) && i < |s|
    ensures b[pos + i] == s[i]
  {
    assert b[pos..pos + |s|][i] == b[pos + i];
  }

  // ---------- lines ----------

  predicate OneLine(text: seq<byte>) {
    forall i :: 0 <= i < |text| ==> text[i] != CR && text[i] != LF
  }

  lemma {:induction false} LineStopIs(b: seq<byte>, i: nat, j: nat)
    requires i <= j && j + 1 < |b| && (forall k :: i <= k < j ==> b[k] != CR && b[k] != LF)
    requires b[j] == CR || b[j] == LF
    ensures LineStop(b, i) == j
    decreases j - i
  {
    if i < j {
      LineStopIs(b, i + 1, j);
    }
  }

  lemma LineReads(b: seq<byte>, pos: nat, text: seq<byte>)
    requires OneLine(text) && HoldsAt(b, pos, text + CRLF)
    ensures LineAt(b, pos) == Got(text, pos + |text| + 2)
  {
    HoldsParts(b, pos, text, CRLF);
    var j := pos + |text|;
    HoldsByte(b, j, CRLF, 0);
    forall k | pos <= k < j
      ensures b[k] != CR && b[k] != LF
    {
      HoldsByte(b, pos, text, k - pos);
    }
    LineStopIs(b, pos, j);
  }

  lemma {:induction false} LinesHaveNoBreak(b: seq<byte>, i: nat, k: nat)
    requires i <= |b| && i <= k < LineStop(b, i)
    ensures b[k] != CR && b[k] != LF
    decreases |b| - i
  {
    if i < k {
      LinesHaveNoBreak(b, i + 1, k);
    }
  }

  // ---------- integers ----------

  lemma SignedRun(b: seq<byte>, pos: nat, sign: seq<byte>, digits: seq<byte>)
    requires sign in {[], [MINUS], [PLUS]} && |digits| > 0 && AllDigits(digits)
    requires HoldsAt(b, pos, sign + digits + [CR]) && pos + |sign| + |digits| + 1 < |b|
    ensures SignLength(b, pos) == |sign| && (b[pos] == MINUS <==> sign == [MINUS])
    ensures var start := pos + |sign|;
            var e := start + |digits|;
            RunEnd(b, start) == e && b[start..e] == digits && b[e] == CR && b[pos..e] == sign + digits
  {
    HoldsParts(b, pos, sign + digits, [CR]);
    HoldsParts(b, pos, sign, digits);
    var start := pos + |sign|;
    HoldsByte(b, start + |digits|, [CR], 0);
    HoldsByte(b, start, digits, 0);
    if |sign| > 0 {
      HoldsByte(b, pos, sign, 0);
    }
    HoldsParts(b, start, digits, [CR]);
    RunHeld(b, start, digits);
  }

  lemma RunHeld(b: seq<byte>, start: nat, digits: seq<byte>)
    requires AllDigits(digits) && HoldsAt(b, start, digits + [CR]) && start + |digits| + 1 < |b|
    ensures RunEnd(b, start) == start + |digits|
  {
    HoldsParts(b, start, digits, [CR]);
    HoldsByte(b, start + |digits|, [CR], 0);
    forall k | start <= k < start + |digits|
      ensures IsDigit(b[k])
    {
      HoldsByte(b, start, digits, k - start);
    }
    RunEndIs(b, start, start + |digits|);
  }

  /** A signed string of digits that CR and one more byte follow: what is read depends on where the digits
      start only when the value is out of range. */
  lemma DecimalReads(b: seq<byte>, pos: nat, sign: seq<byte>, digits: seq<byte>)
    requires sign in {[], [MINUS], [PLUS]} && |digits| > 0 && AllDigits(digits)
    requires HoldsAt(b, pos, sign + digits + [CR]) && pos + |sign| + |digits| + 1 < |b|
    ensures var start := pos + |sign|;
            var v := Signed(sign == [MINUS], digits);
            IntegerAt(b, pos) == match Accumulated(start, v)
                                 case Some(n) => Got(n, start + |digits| + 2)
                                 case None => Failed(NotInteger(sign + digits))
  {
    SignedRun(b, pos, sign, digits);
    var start := pos + |sign|;
    IntegerIs(b, pos, start, start + |digits|, digits);
  }

  lemma IntegerIs(b: seq<byte>, pos: nat, start: nat, e: nat, digits: seq<byte>)
    requires pos < |b| && start == pos + SignLength(b, pos) && start < e && e + 1 < |b|
    requires RunEnd(b, start) == e && b[e] == CR && AllDigits(digits) && digits == b[start..e]
    ensures IntegerAt(b, pos) == match Accumulated(start, Signed(b[pos] == MINUS, digits))
                                 case Some(n) => Got(n, e + 2)
                                 case None => Failed(NotInteger(b[pos..e]))
  {
  }

  /** The value is read exactly if it fits 64 bits, wherever it stands. One that does not fit is noticed
      exactly when its digits start at index 18 or before; after that it is read as the wrapped value. */
  lemma DecimalsAreExact(b: seq<byte>, pos: nat, sign: seq<byte>, digits: seq<byte>)
    requires sign in {[], [MINUS], [PLUS]} && |digits| > 0 && AllDigits(digits)
    requires HoldsAt(b, pos, sign + digits + [CR]) && pos + |sign| + |digits| + 1 < |b|
    ensures var v := Signed(sign == [MINUS], digits);
            var r := IntegerAt(b, pos);
            && (r.Got? && r.value == v <==> InI64(v))
            && (r == Failed(NotInteger(sign + digits)) <==> !InI64(v) && pos + |sign| <= MAX_SAFE_DIGITS)
            && (r.Got? ==> r == Got(Wrap64(v), pos + |sign| + |digits| + 2))
  {
    DecimalReads(b, pos, sign, digits);
    var v := Signed(sign == [MINUS], digits);
    if InI64(v) {
      WrapExact(v);
    }
  }

  /** Past the limit the smallest number that is too large comes back as the smallest integer. */
  lemma OverflowGoesUnnoticed(a: seq<byte>)
    requires |a| > MAX_SAFE_DIGITS
    ensures IntegerAt(a + Digits(TWO_63) + CRLF, |a|) == Got(-TWO_63, |a| + |Digits(TWO_63)| + 2)
  {
    var digits := Digits(TWO_63);
    var b := a + digits + CRLF;
    DigitsRead(TWO_63);
    assert HoldsAt(b, |a|, [] + digits + [CR]);
    assert [] + digits == digits;
    DecimalReads(b, |a|, [], digits);
    WrapIs(TWO_63, -TWO_63, -1);
  }

  lemma SplitDecimal(v: int, sign: seq<byte>, digits: seq<byte>)
    requires sign == (if v < 0 then [MINUS] else []) && digits == Digits(if v < 0 then -v else v)
    ensures |digits| > 0 && AllDigits(digits) && Signed(sign == [MINUS], digits) == v
    ensures sign + digits == Decimal(v)
  {
    DigitsRead(if v < 0 then -v else v);
    assert [] + digits == digits;
  }

  lemma IntegerReads(b: seq<byte>, pos: nat, v: int, text: seq<byte>)
    requires InI64(v) && text == Decimal(v) && HoldsAt(b, pos, text + CRLF)
    ensures IntegerAt(b, pos) == Got(v, pos + |text| + 2)
  {
    var sign := if v < 0 then [MINUS] else [];
    var digits := Digits(if v < 0 then -v else v);
    SplitDecimal(v, sign, digits);
    assert text + CRLF == text + [CR] + [LF];
    HoldsParts(b, pos, text + [CR], [LF]);
    SignedReads(b, pos, sign, digits, v);
  }

  lemma SignedReads(b: seq<byte>, pos: nat, sign: seq<byte>, digits: seq<byte>, v: int)
    requires sign in {[], [MINUS], [PLUS]} && |digits| > 0 && AllDigits(digits) && v == Signed(sign == [MINUS], digits)
    requires HoldsAt(b, pos, sign + digits + [CR]) && pos + |sign| + |digits| + 1 < |b| && InI64(v)
    ensures IntegerAt(b, pos) == Got(v, pos + |sign| + |digits| + 2)
  {
    DecimalReads(b, pos, sign, digits);
    WrapExact(v);
  }

  // ---------- frames ----------

  /** How a frame that is no array is written. */
  function PrintedValue(f: Frame): seq<byte>
    requires !f.Array?
  {
    match f
    case SimpleString(text) => [PLUS] + (text + CRLF)
    case Error(text) => [MINUS] + (text + CRLF)
    case Integer(v) => [COLON] + (Decimal(v) + CRLF)
    case Null => [DOLLAR] + (MINUS_ONE + CRLF)
    case BulkString(data) => [DOLLAR] + ((Decimal(Wrap64(|data|)) + CRLF) + (data + CRLF))
  }

  predicate Flat(items: seq<Frame>) {
    forall i :: 0 <= i < |items| ==> !items[i].Array?
  }

  function PrintedItems(items: seq<Frame>): seq<byte>
    requires Flat(items)
  {
    if |items| == 0 then [] else PrintedValue(items[0]) + PrintedItems(items[1..])
  }

  /** How a frame is written; an array within an array is not. */
  function Printed(f: Frame): Option<seq<byte>> {
    if !f.Array? then Some(PrintedValue(f))
    else if Flat(f.items) then Some([STAR] + ((Decimal(Wrap64(|f.items|)) + CRLF) + PrintedItems(f.items)))
    else None
  }

  /** The values that the type of a frame promises: text on one line, lengths below 2^63. */
  predicate WellFormed(f: Frame) {
    match f
    case SimpleString(text) => OneLine(text) && ValidUtf8(text)
    case Error(text) => OneLine(text) && ValidUtf8(text)
    case BulkString(data) => |data| < TWO_63
    case Array(items) => |items| < TWO_63 && forall i :: 0 <= i < |items| ==> WellFormed(items[i])
    case _ => true
  }

  lemma NullReads(b: seq<byte>, pos: nat)
    requires HoldsAt(b, pos, PrintedValue(Null))
    ensures ParseAt(b, pos) == Got(Null, pos + 5)
  {
    HoldsParts(b, pos, [DOLLAR], MINUS_ONE + CRLF);
    HoldsByte(b, pos, [DOLLAR], 0);
    LineReads(b, pos + 1, MINUS_ONE);
    HoldsParts(b, pos + 1, MINUS_ONE, CRLF);
    HoldsByte(b, pos + 1, MINUS_ONE, 0);
  }

  lemma TextReads(b: seq<byte>, pos: nat, f: Frame)
    requires (f.SimpleString? || f.Error?) && WellFormed(f) && HoldsAt(b, pos, PrintedValue(f))
    ensures ParseAt(b, pos) == Got(f, pos + |PrintedValue(f)|)
  {
    var first := if f.Error? then [MINUS] else [PLUS];
    HoldsParts(b, pos, first, f.text + CRLF);
    HoldsByte(b, pos, first, 0);
    LineReads(b, pos + 1, f.text);
  }

  lemma DecimalStart(v: nat)
    ensures IsDigit(Decimal(v)[0])
  {
    DigitsRead(v);
  }

  lemma BulkBytes(b: seq<byte>, pos: nat, data: Bytes, length: seq<byte>, e: nat)
    requires |data| < TWO_63 && length == Decimal(|data|) && e == pos + 3 + |length|
    requires HoldsAt(b, pos, [DOLLAR] + ((length + CRLF) + (data + CRLF)))
    ensures b[pos] == DOLLAR && IntegerAt(b, pos + 1) == Got(|data|, e)
    ensures HoldsAt(b, e, data + CRLF) && IsDigit(b[pos + 1])
  {
    HoldsParts(b, pos, [DOLLAR], (length + CRLF) + (data + CRLF));
    HoldsByte(b, pos, [DOLLAR], 0);
    HoldsParts(b, pos + 1, length + CRLF, data + CRLF);
    IntegerReads(b, pos + 1, |data|, length);
    DecimalStart(|data|);
    HoldsByte(b, pos + 1, length + CRLF, 0);
  }

  lemma BulkParses(b: seq<byte>, pos: nat, data: Bytes, e: nat)
    requires pos + 1 < |b| && b[pos] == DOLLAR && IsDigit(b[pos + 1]) && IntegerAt(b, pos + 1) == Got(|data|, e)
    requires HoldsAt(b, e, data + CRLF)
    ensures ParseAt(b, pos) == Got(BulkString(data), e + |data| + 2)
  {
    HoldsParts(b, e, data, CRLF);
  }

  lemma BulkReads(b: seq<byte>, pos: nat, data: Bytes, length: seq<byte>, e: nat)
    requires |data| < TWO_63 && length == Decimal(|data|) && e == pos + 3 + |length|
    requires HoldsAt(b, pos, [DOLLAR] + ((length + CRLF) + (data + CRLF)))
    ensures ParseAt(b, pos) == Got(BulkString(data), e + |data| + 2)
  {
    BulkBytes(b, pos, data, length, e);
    BulkParses(b, pos, data, e);
  }

  /** A value that was written reads back at any place of any buffer. */
  lemma ValueReads(b: seq<byte>, pos: nat, f: Frame)
    requires !f.Array? && WellFormed(f) && HoldsAt(b, pos, PrintedValue(f))
    ensures ParseAt(b, pos) == Got(f, pos + |PrintedValue(f)|)
  {
    match f {
      case SimpleString(_) => TextReads(b, pos, f);
      case Error(_) => TextReads(b, pos, f);
      case Null => NullReads(b, pos);
      case BulkString(data) =>
        WrapExact(|data|);
        var length := Decimal(|data|);
        BulkReads(b, pos, data, length, pos + 3 + |length|);
      case Integer(v) =>
        HoldsParts(b, pos, [COLON], Decimal(v) + CRLF);
        HoldsByte(b, pos, [COLON], 0);
        IntegerReads(b, pos + 1, v, Decimal(v));
    }
  }

  lemma PrintedFirst(items: seq<Frame>, v: seq<byte>, tail: seq<Frame>)
    requires |items| > 0 && Flat(items) && tail == items[1..] && v == PrintedValue(items[0])
    ensures PrintedItems(items) == v + PrintedItems(tail)
  {
  }

  lemma ItemsParse(b: seq<byte>, pos: nat, mid: nat, items: seq<Frame>, tail: seq<Frame>, n: nat, end: nat)
    requires |items| == n + 1 && tail == items[1..] && pos <= |b|
    requires ParseAt(b, pos) == Got(items[0], mid) && ParseAll(b, mid, n) == Got(tail, end)
    ensures ParseAll(b, pos, |items|) == Got(items, end)
  {
    assert items == [items[0]] + tail;
  }

  lemma {:induction false} ItemsRead(b: seq<byte>, pos: nat, items: seq<Frame>, p: seq<byte>, end: nat)
    requires Flat(items) && (forall i :: 0 <= i < |items| ==> WellFormed(items[i]))
    requires p == PrintedItems(items) && HoldsAt(b, pos, p) && end == pos + |p|
    ensures ParseAll(b, pos, |items|) == Got(items, end)
    decreases |items|
  {
    hide ParseAt, PrintedValue, WellFormed;
    if |items| > 0 {
      var first, tail := PrintedValue(items[0]), items[1..];
      PrintedFirst(items, first, tail);
      var rest, mid := PrintedItems(tail), pos + |first|;
      HoldsParts(b, pos, first, rest);
      ValueReads(b, pos, items[0]);
      ItemsRead(b, mid, tail, rest, end);
      ItemsParse(b, pos, mid, items, tail, |tail|, end);
    }
  }

  lemma ArrayBytes(b: seq<byte>, pos: nat, n: nat, length: seq<byte>, rest: seq<byte>)
    requires n < TWO_63 && length == Decimal(n) && HoldsAt(b, pos, [STAR] + ((length + CRLF) + rest))
    ensures b[pos] == STAR && IntegerAt(b, pos + 1) == Got(n, pos + 3 + |length|)
    ensures HoldsAt(b, pos + 3 + |length|, rest)
  {
    HoldsParts(b, pos, [STAR], (length + CRLF) + rest);
    HoldsByte(b, pos, [STAR], 0);
    HoldsParts(b, pos + 1, length + CRLF, rest);
    IntegerReads(b, pos + 1, n, length);
  }

  lemma ArrayReads(b: seq<byte>, pos: nat, e: nat, items: seq<Frame>, end: nat)
    requires pos < |b| && b[pos] == STAR && IntegerAt(b, pos + 1) == Got(|items|, e)
    requires ParseAll(b, e, |items|) == Got(items, end)
    ensures ParseAt(b, pos) == Got(Array(items), end)
  {
  }

  lemma PrintedArrayReads(b: seq<byte>, pos: nat, items: seq<Frame>, length: seq<byte>, rest: seq<byte>, e: nat)
    requires |items| < TWO_63 && (forall i :: 0 <= i < |items| ==> WellFormed(items[i])) && Flat(items)
    requires length == Decimal(|items|) && rest == PrintedItems(items) && e == pos + 3 + |length|
    requires HoldsAt(b, pos, [STAR] + ((length + CRLF) + rest))
    ensures ParseAt(b, pos) == Got(Array(items), e + |rest|)
  {
    ArrayBytes(b, pos, |items|, length, rest);
    ItemsRead(b, e, items, rest, e + |rest|);
    ArrayReads(b, pos, e, items, e + |rest|);
  }

  /** A frame that was written reads back at any place of any buffer, and reading takes exactly its
      bytes. */
  lemma PrintedReads(b: seq<byte>, pos: nat, f: Frame, p: seq<byte>)
    requires WellFormed(f) && Printed(f) == Some(p) && HoldsAt(b, pos, p)
    ensures ParseAt(b, pos) == Got(f, pos + |p|)
  {
    if f.Array? {
      WrapExact(|f.items|);
      var length := Decimal(|f.items|);
      PrintedArrayReads(b, pos, f.items, length, PrintedItems(f.items), pos + 3 + |length|);
    } else {
      ValueReads(b, pos, f);
    }
  }

  /** Every frame that can be read is well formed, at every depth. */
  lemma {:induction false} ReadIsWellFormed(b: seq<byte>, pos: nat)
    requires pos <= |b| && ParseAt(b, pos).Got?
    ensures WellFormed(ParseAt(b, pos).value)
    decreases |b| - pos, 0
  {
    if b[pos] == PLUS || b[pos] == MINUS {
      LineIsOneLine(b, pos + 1);
    } else if b[pos] == STAR {
      var r := IntegerAt(b, pos + 1);
      AllReadAreWellFormed(b, r.end, r.value);
    }
  }

  lemma LineIsOneLine(b: seq<byte>, pos: nat)
    requires pos <= |b| && LineAt(b, pos).Got?
    ensures OneLine(LineAt(b, pos).value)
  {
    var text := LineAt(b, pos).value;
    forall i | 0 <= i < |text|
      ensures text[i] != CR && text[i] != LF
    {
      LinesHaveNoBreak(b, pos, pos + i);
    }
  }

  lemma {:induction false} AllReadAreWellFormed(b: seq<byte>, pos: nat, n: nat)
    requires pos <= |b| && ParseAll(b, pos, n).Got?
    ensures forall i :: 0 <= i < n ==> WellFormed(ParseAll(b, pos, n).value[i])
    decreases |b| - pos, 1
  {
    if n > 0 {
      ReadIsWellFormed(b, pos);
      AllReadAreWellFormed(b, ParseAt(b, pos).end, n - 1);
    }
  }

  /** Writing and then reading gives the frame back exactly when it is well formed. */
  lemma RoundTripIff(f: Frame, p: seq<byte>, a: seq<byte>, c: seq<byte>)
    requires Printed(f) == Some(p)
    ensures ParseAt(a + p + c, |a|) == Got(f, |a| + |p|) <==> WellFormed(f)
  {
    var b := a + p + c;
    assert HoldsAt(b, |a|, p);
    if WellFormed(f) {
      PrintedReads(b, |a|, f, p);
    }
    if ParseAt(b, |a|) == Got(f, |a| + |p|) {
      ReadIsWellFormed(b, |a|);
    }
  }
}
