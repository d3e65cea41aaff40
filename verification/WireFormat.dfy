/** The protocol byte by byte: what is read, what is written, and what numbers are. */
module WireFormat {
  import opened Types
  import opened Utf8
  import opened Frames
  import opened Decimals
  import opened Printing

  // ---------- numbers ----------

  predicate Numeral(s: seq<byte>) {
    forall i :: 0 <= i < |s| ==> 48 <= s[i] <= 57
  }

  function Ten(n: nat): nat {
    if n == 0 then 1 else 10 * Ten(n - 1)
  }

  /** The value of a numeral, its first digit counting most. */
  function Value(s: seq<byte>): nat
    requires Numeral(s)
  {
    if |s| == 0 then 0 else (s[0] - 48) * Ten(|s| - 1) + Value(s[1..])
  }

  function SignedValue(negative: bool, s: seq<byte>): int
    requires Numeral(s)
  {
    var n: int := Value(s);
    if negative then -n else n
  }

  lemma Shift(d: nat, n: nat, v: nat, e: nat)
    requires n > 0
    ensures d * Ten(n) + (v * 10 + e) == (d * Ten(n - 1) + v) * 10 + e
  {
  }

  lemma {:induction false} ValueSnoc(s: seq<byte>, init: seq<byte>, d: byte)
    requires s == init + [d] && Numeral(s)
    ensures d >= 48 && Numeral(init) && Value(s) == Value(init) * 10 + (d - 48)
    decreases |init|
  {
    assert forall i :: 0 <= i < |init| ==> init[i] == s[i];
    assert s[|init|] == d;
    if |init| > 0 {
      assert s[1..] == init[1..] + [d];
      ValueSnoc(s[1..], init[1..], d);
      Shift(init[0] - 48, |init|, Value(init[1..]), d - 48);
    }
  }

  lemma {:induction false} ValueIsNatural(s: seq<byte>)
    requires Numeral(s)
    ensures AllDigits(s) && Natural(s) == Value(s)
  {
    if |s| > 0 {
      var init := s[..|s| - 1];
      assert s == init + [s[|s| - 1]];
      ValueSnoc(s, init, s[|s| - 1]);
      ValueIsNatural(init);
    }
  }

  /** A minus and a numeral, or just a numeral, without needless zeros. */
  ghost predicate IsDecimal(s: seq<byte>, v: int) {
    if v < 0 then |s| > 1 && s[0] == 45 && Plain(s[1..], -v) else Plain(s, v)
  }

  ghost predicate Plain(s: seq<byte>, n: nat) {
    |s| > 0 && Numeral(s) && (s[0] == 48 ==> |s| == 1) && Value(s) == n
  }

  lemma {:induction false} DigitsPlain(n: nat)
    ensures Numeral(Digits(n)) && |Digits(n)| > 0 && (Digits(n)[0] == 48 <==> n == 0) && (n < 10 <==> |Digits(n)| == 1)
  {
    if n >= 10 {
      DigitsPlain(n / 10);
    }
  }

  lemma DigitsSnoc(n: nat, v: nat, d: byte)
    requires 48 <= d <= 57 && v > 0 && n == v * 10 + (d - 48)
    ensures Digits(n) == Digits(v) + [d]
  {
  }

  lemma {:induction false} PlainIsDigits(s: seq<byte>)
    requires |s| > 0 && Numeral(s) && (s[0] == 48 ==> |s| == 1)
    ensures s == Digits(Value(s))
  {
    hide Digits, Ten, Value;
    var init, d := s[..|s| - 1], s[|s| - 1];
    assert s == init + [d];
    ValueSnoc(s, init, d);
    if |init| > 0 {
      PlainIsDigits(init);
      DigitsPlain(Value(init));
      DigitsSnoc(Value(s), Value(init), d);
    } else {
      OneDigit(s, d);
    }
  }

  lemma OneDigit(s: seq<byte>, d: byte)
    requires s == [d] && 48 <= d <= 57
    ensures Digits(Value(s)) == s
  {
    assert Ten(0) == 1 && Value(s[1..]) == 0;
  }

  lemma PlainIff(s: seq<byte>, n: nat)
    ensures s == Digits(n) <==> Plain(s, n)
  {
    if s == Digits(n) {
      DigitsPlain(n);
      DigitsRead(n);
      ValueIsNatural(s);
    }
    if Plain(s, n) {
      PlainIsDigits(s);
    }
  }

  /** A number is written as its one decimal form. */
  lemma DecimalIff(s: seq<byte>, v: int)
    ensures s == Decimal(v) <==> IsDecimal(s, v)
  {
    if v < 0 {
      if |s| > 0 {
        assert s == [s[0]] + s[1..];
        PlainIff(s[1..], -v);
      }
      assert Decimal(v)[1..] == Digits(-v);
      DigitsPlain(-v);
    } else {
      PlainIff(s, v);
    }
  }

  /** The digits of a number start at `start`, after a plus or a minus if there is one. */
  ghost predicate StartsAt(b: seq<byte>, pos: nat, start: nat) {
    pos < |b| && start == if b[pos] == 43 || b[pos] == 45 then pos + 1 else pos
  }

  /** From `start` up to `e` there are digits, and then there is none or only the last byte. */
  ghost predicate DigitsUpTo(b: seq<byte>, start: nat, e: nat) {
    start <= e < |b| && Numeral(b[start..e]) && (e + 1 == |b| || !(48 <= b[e] <= 57))
  }

  lemma RunIs(b: seq<byte>, start: nat, e: nat)
    requires DigitsUpTo(b, start, e)
    ensures RunEnd(b, start) == e
  {
    forall k | start <= k < e
      ensures IsDigit(b[k])
    {
      assert b[k] == b[start..e][k - start];
    }
    RunEndIs(b, start, e);
  }

  /** What reading a number comes to, in every case: all bytes of the buffer but the last are digits; no
      digit, or no CR after the digits; too large, which is only noticed when the digits start at index 18
      or before; or the number, with CR and one more byte. */
  lemma NumberIs(b: seq<byte>, pos: nat, start: nat, e: nat)
    requires StartsAt(b, pos, start) && DigitsUpTo(b, start, e)
    ensures var v := SignedValue(b[pos] == 45, b[start..e]);
            IntegerAt(b, pos) == if e + 1 == |b| then Failed(Incomplete)
                                 else if e == start || b[e] != 13 then Failed(NotInteger(b[pos..e + 1]))
                                 else if start > 18 then Got(Wrap64(v), e + 2)
                                 else if -0x8000_0000_0000_0000 <= v < 0x8000_0000_0000_0000 then Got(v, e + 2)
                                 else Failed(NotInteger(b[pos..e]))
  {
    RunIs(b, start, e);
    ValueIsNatural(b[start..e]);
  }

  lemma RunExists(b: seq<byte>, start: nat) returns (e: nat)
    requires start < |b|
    ensures DigitsUpTo(b, start, e)
  {
    e := RunEnd(b, start);
    assert forall i :: 0 <= i < e - start ==> IsDigit(b[start..e][i]);
  }

  /** From `pos` to `end` there is a number that reads as `v`: maybe a sign, at least one digit, CR, and one
      more byte. */
  ghost predicate ReadsNumber(b: seq<byte>, pos: nat, end: nat, v: int) {
    && pos < |b|
    && var start := if b[pos] == 43 || b[pos] == 45 then pos + 1 else pos;
       && start + 3 <= end <= |b| && Numeral(b[start..end - 2]) && b[end - 2] == 13
       && var n := SignedValue(b[pos] == 45, b[start..end - 2]);
          v == (if start > 18 then Wrap64(n) else n) && -0x8000_0000_0000_0000 <= v < 0x8000_0000_0000_0000
  }

  lemma IntegerEnds(b: seq<byte>, pos: nat)
    requires pos <= |b| && IntegerAt(b, pos).Got?
    ensures pos < IntegerAt(b, pos).end <= |b|
  {
  }

  lemma NumberFits(b: seq<byte>, pos: nat, end: nat, v: int)
    requires ReadsNumber(b, pos, end, v)
    ensures InI64(v)
  {
  }

  /** A number is read exactly where there is one. */
  lemma NumberIff(b: seq<byte>, pos: nat, end: nat, v: i64)
    requires pos <= |b|
    ensures IntegerAt(b, pos) == Got(v, end) <==> ReadsNumber(b, pos, end, v)
  {
    if pos < |b| {
      var start := if b[pos] == 43 || b[pos] == 45 then pos + 1 else pos;
      if start < |b| {
        if ReadsNumber(b, pos, end, v) {
          assert DigitsUpTo(b, start, end - 2);
          NumberIs(b, pos, start, end - 2);
        }
        var e := RunExists(b, start);
        NumberIs(b, pos, start, e);
      }
    }
  }

  // ---------- lines ----------

  ghost predicate ReadsLine(b: seq<byte>, pos: nat, end: nat, text: seq<byte>) {
    && pos + 2 <= end <= |b| && text == b[pos..end - 2] && b[end - 2] == 13
    && forall i :: 0 <= i < |text| ==> text[i] != 13 && text[i] != 10
  }

  lemma LineIff(b: seq<byte>, pos: nat, end: nat, text: seq<byte>)
    requires pos <= |b|
    ensures LineAt(b, pos) == Got(text, end) <==> ReadsLine(b, pos, end, text)
  {
    if LineAt(b, pos) == Got(text, end) {
      LineIsOneLine(b, pos);
    }
    if ReadsLine(b, pos, end, text) {
      forall k | pos <= k < end - 2
        ensures b[k] != CR && b[k] != LF
      {
        assert b[k] == text[k - pos];
      }
      LineStopIs(b, pos, end - 2);
    }
  }

  /** A line is refused exactly at an LF before any CR, and is incomplete exactly if no byte but the last
      ends it. */
  lemma LineErrorIff(b: seq<byte>, pos: nat)
    requires pos <= |b|
    ensures LineAt(b, pos) == Failed(BadEncoding)
       <==> exists k :: pos <= k < |b| - 1 && b[k] == 10 && forall i :: pos <= i < k ==> b[i] != 13 && b[i] != 10
    ensures LineAt(b, pos) == Failed(Incomplete) <==> forall k :: pos <= k < |b| - 1 ==> b[k] != 13 && b[k] != 10
    ensures !LineAt(b, pos).Fault?
  {
    var j := LineStop(b, pos);
    forall k | pos <= k < j
      ensures b[k] != 13 && b[k] != 10
    {
      LinesHaveNoBreak(b, pos, k);
    }
    StopIsBreak(b, pos);
  }

  lemma {:induction false} StopIsBreak(b: seq<byte>, i: nat)
    requires i <= |b|
    ensures LineStop(b, i) + 1 < |b| ==> b[LineStop(b, i)] == 13 || b[LineStop(b, i)] == 10
    decreases |b| - i
  {
    if LineStop(b, i) != i {
      StopIsBreak(b, i + 1);
    }
  }

  // ---------- what is read ----------

  predicate Within(pos: nat, mid: nat, end: nat) {
    pos < mid <= end
  }

  /** From `pos` to `end` there is a frame: 43 and 45 start a line of text, 58 a number, 36 a length and so
      many bytes and two more, or a null, and 42 a number of frames. */
  ghost predicate ReadsFrame(b: seq<byte>, pos: nat, end: nat, f: Frame)
    requires pos <= |b|
    decreases |b| - pos, 0
  {
    pos < |b| &&
    match f
    case SimpleString(text) => b[pos] == 43 && ReadsLine(b, pos + 1, end, text) && ValidUtf8(text)
    case Error(text) => b[pos] == 45 && ReadsLine(b, pos + 1, end, text) && ValidUtf8(text)
    case Integer(v) => b[pos] == 58 && ReadsNumber(b, pos + 1, end, v)
    case Null => end == pos + 5 <= |b| && b[pos..pos + 4] == [36, 45, 49, 13]
    case BulkString(data) => b[pos] == 36 && ReadsBulk(b, pos + 1, end, data)
    case Array(items) =>
      && b[pos] == 42
      && exists mid: nat ::
           Within(pos, mid, |b|) && ReadsNumber(b, pos + 1, mid, |items|) && ReadsFrames(b, mid, end, items)
  }

  ghost predicate ReadsBulk(b: seq<byte>, pos: nat, end: nat, data: seq<byte>) {
    && pos < |b| && b[pos] != 45
    && exists mid: nat :: ReadsNumber(b, pos, mid, |data|) && end == mid + |data| + 2 <= |b| && data == b[mid..end - 2]
  }

  /** One frame after the other. */
  ghost predicate ReadsFrames(b: seq<byte>, pos: nat, end: nat, items: seq<Frame>)
    requires pos <= |b|
    decreases |b| - pos, 1
  {
    if |items| == 0 then end == pos
    else
      exists mid: nat ::
        Within(pos, mid, |b|) && ReadsFrame(b, pos, mid, items[0]) && ReadsFrames(b, mid, end, items[1..])
  }

  lemma TextIff(b: seq<byte>, pos: nat, end: nat, f: Frame)
    requires pos < |b| && (f.SimpleString? || f.Error?)
    ensures ParseAt(b, pos) == Got(f, end) <==> ReadsFrame(b, pos, end, f)
  {
    LineIff(b, pos + 1, end, f.text);
  }

  lemma IntegerIff(b: seq<byte>, pos: nat, end: nat, f: Frame)
    requires pos < |b| && f.Integer?
    ensures ParseAt(b, pos) == Got(f, end) <==> ReadsFrame(b, pos, end, f)
  {
    NumberIff(b, pos + 1, end, f.value);
  }

  lemma NullIff(b: seq<byte>, pos: nat, end: nat)
    requires pos < |b|
    ensures ParseAt(b, pos) == Got(Null, end) <==> ReadsFrame(b, pos, end, Null)
  {
    LineIff(b, pos + 1, pos + 5, [45, 49]);
    if ParseAt(b, pos) == Got(Null, end) {
      LineIff(b, pos + 1, end, [45, 49]);
      assert b[pos + 1..end - 2] == [45, 49];
      assert b[pos..pos + 4] == [b[pos]] + b[pos + 1..pos + 3] + [b[pos + 3]];
    }
    if ReadsFrame(b, pos, end, Null) {
      var s := b[pos..pos + 4];
      assert b[pos] == s[0] && b[pos + 1] == s[1] && b[pos + 2] == s[2] && b[pos + 3] == s[3];
      assert b[pos + 1..pos + 3] == [45, 49];
    }
  }

  lemma BulkIff(b: seq<byte>, pos: nat, end: nat, data: Bytes)
    requires pos < |b|
    ensures ParseAt(b, pos) == Got(BulkString(data), end) <==> ReadsFrame(b, pos, end, BulkString(data))
  {
    hide IntegerAt, LineAt, ParseAll, ReadsFrames, ReadsLine, ReadsNumber;
    if ParseAt(b, pos) == Got(BulkString(data), end) {
      var r := IntegerAt(b, pos + 1);
      NumberIff(b, pos + 1, r.end, r.value);
      assert ReadsNumber(b, pos + 1, r.end, |data|);
    }
    if ReadsFrame(b, pos, end, BulkString(data)) {
      var mid: nat :| ReadsNumber(b, pos + 1, mid, |data|) && end == mid + |data| + 2 <= |b| && data == b[mid..end - 2];
      NumberFits(b, pos + 1, mid, |data|);
      NumberIff(b, pos + 1, mid, |data|);
    }
  }

  lemma {:induction false} ArrayIff(b: seq<byte>, pos: nat, end: nat, items: seq<Frame>)
    requires pos < |b|
    ensures ParseAt(b, pos) == Got(Array(items), end) <==> ReadsFrame(b, pos, end, Array(items))
    decreases |b| - pos, 0
  {
    hide IntegerAt, LineAt, ParseAll, ReadsBulk, ReadsFrames, ReadsLine, ReadsNumber;
    if ParseAt(b, pos) == Got(Array(items), end) {
      var r := IntegerAt(b, pos + 1);
      IntegerEnds(b, pos + 1);
      NumberIff(b, pos + 1, r.end, r.value);
      FramesIff(b, r.end, end, items);
      assert ReadsNumber(b, pos + 1, r.end, |items|);
    }
    if ReadsFrame(b, pos, end, Array(items)) {
      var mid: nat :| Within(pos, mid, |b|) && ReadsNumber(b, pos + 1, mid, |items|) && ReadsFrames(b, mid, end, items);
      NumberFits(b, pos + 1, mid, |items|);
      NumberIff(b, pos + 1, mid, |items|);
      FramesIff(b, mid, end, items);
    }
  }

  /** A frame is read exactly where there is one. */
  lemma {:induction false} FrameIff(b: seq<byte>, pos: nat, end: nat, f: Frame)
    requires pos <= |b|
    ensures ParseAt(b, pos) == Got(f, end) <==> ReadsFrame(b, pos, end, f)
    decreases |b| - pos, 1
  {
    if pos < |b| {
      match f {
        case SimpleString(_) => TextIff(b, pos, end, f);
        case Error(_) => TextIff(b, pos, end, f);
        case Integer(_) => IntegerIff(b, pos, end, f);
        case Null => NullIff(b, pos, end);
        case BulkString(data) => BulkIff(b, pos, end, data);
        case Array(items) => ArrayIff(b, pos, end, items);
      }
    }
  }

  lemma {:induction false} FramesIff(b: seq<byte>, pos: nat, end: nat, items: seq<Frame>)
    requires pos <= |b|
    ensures ParseAll(b, pos, |items|) == Got(items, end) <==> ReadsFrames(b, pos, end, items)
    decreases |b| - pos, 2
  {
    hide ParseAt, ReadsFrame;
    if |items| > 0 {
      var f, tail := items[0], items[1..];
      assert items == [f] + tail;
      if ParseAll(b, pos, |items|) == Got(items, end) {
        var mid := ParseAt(b, pos).end;
        assert ParseAt(b, pos).value == ParseAll(b, pos, |items|).value[0] == f;
        assert ParseAll(b, mid, |tail|).value == ParseAll(b, pos, |items|).value[1..] == tail;
        FrameIff(b, pos, mid, f);
        FramesIff(b, mid, end, tail);
        assert ReadsFrame(b, pos, mid, items[0]) && ReadsFrames(b, mid, end, items[1..]);
      }
      if ReadsFrames(b, pos, end, items) {
        var mid: nat :|
          Within(pos, mid, |b|) && ReadsFrame(b, pos, mid, items[0]) && ReadsFrames(b, mid, end, items[1..]);
        FrameIff(b, pos, mid, f);
        FramesIff(b, mid, end, tail);
      }
    }
  }

  // ---------- what passes the check ----------

  /** The same without regard to the text of lines and to what stands for a null, and with any number of
      elements; none are there when it is negative. */
  ghost predicate ChecksFrame(b: seq<byte>, pos: nat, end: nat)
    requires pos <= |b|
    decreases |b| - pos, 0
  {
    pos < |b| &&
    if b[pos] == 43 || b[pos] == 45 then ChecksLine(b, pos + 1, end)
    else if b[pos] == 58 then ChecksNumber(b, pos + 1, end)
    else if b[pos] == 36 then ChecksBulk(b, pos + 1, end)
    else exists mid: nat, n :: ArrayHeader(b, pos, mid, n) && ChecksFrames(b, mid, end, n)
  }

  ghost predicate ChecksLine(b: seq<byte>, pos: nat, end: nat) {
    pos + 2 <= end <= |b| && ReadsLine(b, pos, end, b[pos..end - 2])
  }

  ghost predicate ChecksNumber(b: seq<byte>, pos: nat, end: nat) {
    exists v :: ReadsNumber(b, pos, end, v)
  }

  ghost predicate ArrayHeader(b: seq<byte>, pos: nat, mid: nat, n: int) {
    pos < mid <= |b| && b[pos] == 42 && ReadsNumber(b, pos + 1, mid, n)
  }

  ghost predicate ChecksBulk(b: seq<byte>, pos: nat, end: nat) {
    && pos < |b|
    && if b[pos] == 45 then end == pos + 4 <= |b|
       else exists mid: nat, n :: ReadsNumber(b, pos, mid, n) && 0 <= n && end == mid + n + 2 <= |b|
  }

  ghost predicate ChecksFrames(b: seq<byte>, pos: nat, end: nat, n: int)
    requires pos <= |b|
    decreases |b| - pos, 1
  {
    if n <= 0 then end == pos
    else exists mid: nat :: Within(pos, mid, |b|) && ChecksFrame(b, pos, mid) && ChecksFrames(b, mid, end, n - 1)
  }

  lemma CheckedBulkIff(b: seq<byte>, pos: nat, end: nat)
    requires pos < |b| && b[pos] == 36
    ensures CheckAt(b, pos) == Got((), end) <==> ChecksFrame(b, pos, end)
  {
    hide CheckAll, ChecksFrames, IntegerAt, LineAt, ReadsLine, ReadsNumber;
    if CheckAt(b, pos) == Got((), end) && b[pos + 1] != 45 {
      var r := IntegerAt(b, pos + 1);
      NumberIff(b, pos + 1, r.end, r.value);
      assert ReadsNumber(b, pos + 1, r.end, r.value);
    } else if pos + 1 < |b| && b[pos + 1] != 45 && ChecksBulk(b, pos + 1, end) {
      CheckedBulkReads(b, pos + 1, end);
    }
  }

  lemma CheckedBulkReads(b: seq<byte>, pos: nat, end: nat)
    requires ChecksBulk(b, pos, end) && b[pos] != 45
    ensures IntegerAt(b, pos).Got? && IntegerAt(b, pos).value >= 0
    ensures IntegerAt(b, pos).end + IntegerAt(b, pos).value + 2 == end <= |b|
  {
    hide IntegerAt, ReadsNumber;
    var mid: nat, n :| ReadsNumber(b, pos, mid, n) && 0 <= n && end == mid + n + 2 <= |b|;
    NumberFits(b, pos, mid, n);
    NumberIff(b, pos, mid, n);
  }

  lemma CheckedLineIff(b: seq<byte>, pos: nat, end: nat)
    requires pos < |b| && (b[pos] == 43 || b[pos] == 45)
    ensures CheckAt(b, pos) == Got((), end) <==> ChecksFrame(b, pos, end)
  {
    var r := LineAt(b, pos + 1);
    if r.Got? {
      LineIff(b, pos + 1, end, r.value);
    }
    if ChecksLine(b, pos + 1, end) {
      LineIff(b, pos + 1, end, b[pos + 1..end - 2]);
    }
  }

  lemma NumberHere(b: seq<byte>, pos: nat, end: nat)
    requires pos <= |b| && ChecksNumber(b, pos, end)
    ensures IntegerAt(b, pos).Got? && IntegerAt(b, pos).end == end
  {
    var v :| ReadsNumber(b, pos, end, v);
    NumberIff(b, pos, end, v);
  }

  lemma CheckedIntegerIff(b: seq<byte>, pos: nat, end: nat)
    requires pos < |b| && b[pos] == 58
    ensures CheckAt(b, pos) == Got((), end) <==> ChecksFrame(b, pos, end)
  {
    var r := IntegerAt(b, pos + 1);
    if r.Got? {
      NumberIff(b, pos + 1, end, r.value);
    }
    if ChecksNumber(b, pos + 1, end) {
      NumberHere(b, pos + 1, end);
    }
  }

  /** The check succeeds exactly on this. */
  lemma {:induction false} CheckedIff(b: seq<byte>, pos: nat, end: nat)
    requires pos <= |b|
    ensures CheckAt(b, pos) == Got((), end) <==> ChecksFrame(b, pos, end)
    decreases |b| - pos, 1
  {
    if pos < |b| {
      if b[pos] == 43 || b[pos] == 45 {
        CheckedLineIff(b, pos, end);
      } else if b[pos] == 58 {
        CheckedIntegerIff(b, pos, end);
      } else if b[pos] == 36 {
        CheckedBulkIff(b, pos, end);
      } else if b[pos] == 42 {
        CheckedArrayIff(b, pos, end);
      }
    }
  }

  lemma {:induction false} CheckedArrayIff(b: seq<byte>, pos: nat, end: nat)
    requires pos < |b| && b[pos] == 42
    ensures CheckAt(b, pos) == Got((), end) <==> ChecksFrame(b, pos, end)
    decreases |b| - pos, 0
  {
    hide CheckAll, ChecksBulk, ChecksFrames, IntegerAt, LineAt, ReadsLine, ReadsNumber;
    if CheckAt(b, pos) == Got((), end) {
      var r := IntegerAt(b, pos + 1);
      IntegerEnds(b, pos + 1);
      NumberIff(b, pos + 1, r.end, r.value);
      AllCheckedIff(b, r.end, end, r.value);
      assert ArrayHeader(b, pos, r.end, r.value);
    }
    if ChecksFrame(b, pos, end) {
      var mid: nat, n :| ArrayHeader(b, pos, mid, n) && ChecksFrames(b, mid, end, n);
      NumberFits(b, pos + 1, mid, n);
      NumberIff(b, pos + 1, mid, n);
      AllCheckedIff(b, mid, end, n);
    }
  }

  lemma OnlyUnit(r: Read<()>)
    requires r.Got?
    ensures r == Got((), r.end)
  {
    var Got(u, _) := r;
    match u {
      case () =>
    }
  }

  lemma {:induction false} AllCheckedIff(b: seq<byte>, pos: nat, end: nat, n: int)
    requires pos <= |b|
    ensures CheckAll(b, pos, n) == Got((), end) <==> ChecksFrames(b, pos, end, n)
    decreases |b| - pos, 2
  {
    hide CheckAt, ChecksFrame;
    if n > 0 {
      if CheckAll(b, pos, n) == Got((), end) {
        var mid := CheckAt(b, pos).end;
        OnlyUnit(CheckAt(b, pos));
        CheckedIff(b, pos, mid);
        AllCheckedIff(b, mid, end, n - 1);
        assert Within(pos, mid, |b|) && ChecksFrame(b, pos, mid) && ChecksFrames(b, mid, end, n - 1);
      }
      if ChecksFrames(b, pos, end, n) {
        var mid: nat :| Within(pos, mid, |b|) && ChecksFrame(b, pos, mid) && ChecksFrames(b, mid, end, n - 1);
        CheckedIff(b, pos, mid);
        AllCheckedIff(b, mid, end, n - 1);
      }
    }
  }

  /** A frame starts with one of five bytes. */
  lemma OtherBytesAreRefused(b: seq<byte>, pos: nat)
    requires pos < |b| && b[pos] !in {43, 45, 58, 36, 42}
    ensures CheckAt(b, pos) == Failed(BadEncoding) && ParseAt(b, pos) == Failed(BadEncoding)
  {
  }

  // ---------- what is written ----------

  /** The bytes of a frame that is no array. A length is written as the 64-bit integer that holds it. */
  ghost predicate WritesValue(f: Frame, b: seq<byte>) {
    match f
    case SimpleString(text) => b == [43] + text + [13, 10]
    case Error(text) => b == [45] + text + [13, 10]
    case Integer(v) => exists d :: IsDecimal(d, v) && b == [58] + d + [13, 10]
    case Null => b == [36, 45, 49, 13, 10]
    case BulkString(data) => exists d :: IsDecimal(d, Wrap64(|data|)) && b == [36] + d + [13, 10] + data + [13, 10]
    case Array(_) => false
  }

  ghost predicate WritesItems(items: seq<Frame>, b: seq<byte>) {
    if |items| == 0 then b == []
    else exists p, q :: b == p + q && WritesValue(items[0], p) && WritesItems(items[1..], q)
  }

  ghost predicate WritesFrame(f: Frame, b: seq<byte>) {
    if f.Array? then
      exists d, p :: IsDecimal(d, Wrap64(|f.items|)) && b == [42] + d + [13, 10] + p && WritesItems(f.items, p)
    else WritesValue(f, b)
  }

  lemma ValueWritten(f: Frame, b: seq<byte>)
    requires !f.Array?
    ensures b == PrintedValue(f) <==> WritesValue(f, b)
  {
    match f {
      case SimpleString(text) => assert [43] + text + [13, 10] == [43] + (text + [13, 10]);
      case Error(text) => assert [45] + text + [13, 10] == [45] + (text + [13, 10]);
      case Integer(v) => IntegerWritten(v, b);
      case Null =>
      case BulkString(data) => BulkWritten(data, b);
    }
  }

  lemma IntegerWritten(v: i64, b: seq<byte>)
    ensures b == PrintedValue(Integer(v)) <==> WritesValue(Integer(v), b)
  {
    var d := Decimal(v);
    DecimalIff(d, v);
    assert [58] + d + [13, 10] == [58] + (d + [13, 10]);
    if e :| IsDecimal(e, v) && b == [58] + e + [13, 10] {
      DecimalIff(e, v);
    }
  }

  lemma BulkWritten(data: Bytes, b: seq<byte>)
    ensures b == PrintedValue(BulkString(data)) <==> WritesValue(BulkString(data), b)
  {
    var n := Wrap64(|data|);
    var d := Decimal(n);
    DecimalIff(d, n);
    assert [36] + d + [13, 10] + data + [13, 10] == [36] + ((d + [13, 10]) + (data + [13, 10]));
    if e :| IsDecimal(e, n) && b == [36] + e + [13, 10] + data + [13, 10] {
      DecimalIff(e, n);
    }
  }

  lemma {:induction false} ItemsWritten(items: seq<Frame>, b: seq<byte>)
    ensures Flat(items) && b == PrintedItems(items) <==> WritesItems(items, b)
    decreases |items|
  {
    if |items| > 0 {
      var f, tail := items[0], items[1..];
      if Flat(items) && b == PrintedItems(items) {
        var p, q := PrintedValue(f), PrintedItems(tail);
        ValueWritten(f, p);
        ItemsWritten(tail, q);
        assert b == p + q && WritesValue(items[0], p) && WritesItems(items[1..], q);
      }
      if p, q :| b == p + q && WritesValue(items[0], p) && WritesItems(items[1..], q) {
        ValueWritten(f, p);
        ItemsWritten(tail, q);
        assert items == [f] + tail;
      }
    }
  }

  /** The bytes that a frame is written as are the ones that the protocol has for it. */
  lemma WrittenIff(f: Frame, b: seq<byte>)
    ensures Printed(f) == Some(b) <==> WritesFrame(f, b)
  {
    if f.Array? {
      ArrayWritten(f.items, b);
    } else {
      ValueWritten(f, b);
    }
  }

  lemma ArrayJoins(d: seq<byte>, p: seq<byte>)
    ensures [STAR] + ((d + CRLF) + p) == [42] + d + [13, 10] + p
  {
  }

  lemma ArrayWritten(items: seq<Frame>, b: seq<byte>)
    ensures Printed(Array(items)) == Some(b) <==> WritesFrame(Array(items), b)
  {
    hide Decimal, IsDecimal, PrintedItems, PrintedValue, WritesItems, WritesValue;
    var n := Wrap64(|items|);
    if Flat(items) && Printed(Array(items)) == Some(b) {
      var d, p := Decimal(n), PrintedItems(items);
      DecimalIff(d, n);
      ItemsWritten(items, p);
      ArrayJoins(d, p);
    }
    if d, p :| IsDecimal(d, n) && b == [42] + d + [13, 10] + p && WritesItems(items, p) {
      DecimalIff(d, n);
      ItemsWritten(items, p);
      ArrayJoins(d, p);
    }
  }
}
