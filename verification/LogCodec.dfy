/**
 The on-disk format of log entries: what bincode 1.x writes with its default options.
 Integers are fixed-width little-endian, a byte string is a 64-bit length and its bytes, an
 optional value is a tag byte (0 or 1) and, when the tag is 1, the value.
 */
module LogCodec {
  import opened Types
  import opened Framing

  /** One entry of a data file; a tombstone has no value. */
  datatype Record = Record(tstamp: i64, key: Bytes, value: Option<Bytes>)

  /** One entry of a hint file. */
  datatype Hint = Hint(tstamp: i64, len: nat, pos: nat, key: Bytes)

  /** A hint whose numbers fit the 64 bits they get on disk. */
  type DiskHint = h: Hint | h.len < 0x1_0000_0000_0000_0000 && h.pos < 0x1_0000_0000_0000_0000
    witness Hint(0, 0, 0, [])

  // ---------- fixed-width little-endian integers ----------

  function Pow256(w: nat): (p: nat)
    ensures p > 0
  {
    if w == 0 then 1 else 256 * Pow256(w - 1)
  }

  function LE(n: nat, w: nat): (s: seq<byte>)
    ensures |s| == w
  {
    if w == 0 then [] else [n % 256] + LE(n / 256, w - 1)
  }

  function FromLE(s: seq<byte>): (n: nat)
    ensures n < Pow256(|s|)
  {
    if |s| == 0 then 0 else s[0] + 256 * FromLE(s[1..])
  }

  lemma {:induction false} FromLEOfLE(n: nat, w: nat)
    requires n < Pow256(w)
    ensures FromLE(LE(n, w)) == n
  {
    if w > 0 {
      FromLEOfLE(n / 256, w - 1);
      assert LE(n, w)[1..] == LE(n / 256, w - 1);
    }
  }

  lemma {:induction false} LEOfFromLE(s: seq<byte>)
    ensures LE(FromLE(s), |s|) == s
  {
    if s != [] {
      LEOfFromLE(s[1..]);
      var n := FromLE(s);
      assert n % 256 == s[0] && n / 256 == FromLE(s[1..]);
      assert s == [s[0]] + s[1..];
    }
  }

  lemma Pow256Of8()
    ensures Pow256(8) == TWO_64
  {
    assert Pow256(4) == 0x1_0000_0000 by { assert Pow256(2) == 0x1_0000; }
    assert Pow256(6) == 0x1_0000_0000_0000;
  }

  function U64ToBytes(n: u64): (s: seq<byte>)
    ensures |s| == 8
  {
    LE(n, 8)
  }

  function U64FromBytes(s: seq<byte>): (n: u64)
    requires |s| == 8
  {
    Pow256Of8();
    FromLE(s)
  }

  lemma U64RoundTrip(n: u64)
    ensures U64FromBytes(U64ToBytes(n)) == n
  {
    Pow256Of8();
    FromLEOfLE(n, 8);
  }

  lemma U64Canonical(s: seq<byte>)
    requires |s| == 8
    ensures U64ToBytes(U64FromBytes(s)) == s
  {
    LEOfFromLE(s);
  }

  // A signed integer travels as its two's complement.
  function Unsigned(t: i64): u64 {
    if t < 0 then t + TWO_64 else t
  }

  function Signed(n: u64): i64 {
    if n < TWO_63 then n else n - TWO_64
  }

  // ---------- encoding ----------

  function PrefixedBytes(b: Bytes): (s: seq<byte>)
    ensures |s| == 8 + |b|
  {
    U64ToBytes(|b|) + b
  }

  function EncodeValue(v: Option<Bytes>): seq<byte> {
    match v
    case None => [0]
    case Some(b) => [1] + PrefixedBytes(b)
  }

  function EncodeRecord(r: Record): (s: seq<byte>)
    ensures |s| == Size(r)
  {
    U64ToBytes(Unsigned(r.tstamp)) + PrefixedBytes(r.key) + EncodeValue(r.value)
  }

  /** The number of bytes of a record on disk. */
  function Size(r: Record): (n: nat)
    ensures n >= 17
  {
    16 + |r.key| + (match r.value case None => 1 case Some(b) => 9 + |b|)
  }

  function EncodeHint(h: DiskHint): (s: seq<byte>)
    ensures |s| == 32 + |h.key|
  {
    U64ToBytes(Unsigned(h.tstamp)) + U64ToBytes(h.len) + U64ToBytes(h.pos) + PrefixedBytes(h.key)
  }

  // ---------- decoding ----------

  /** The next 8 bytes at `at`, unless the input ends first. */
  function U64At(s: seq<byte>, at: nat): Option<u64> {
    if at + 8 <= |s| then Some(U64FromBytes(s[at..at + 8])) else None
  }

  /** A length-prefixed byte string at `at`, unless the input ends first. */
  function BytesAt(s: seq<byte>, at: nat): (r: Option<Bytes>)
    ensures r.Some? ==> at + 8 + |r.value| <= |s|
  {
    match U64At(s, at)
    case None => None
    case Some(n) => if at + 8 + n <= |s| then Some(s[at + 8..at + 8 + n]) else None
  }

  function DecodeRecord(s: seq<byte>): (d: Decoded<Record>)
    ensures d.Got? ==> 17 <= d.size <= |s|
  {
    match U64At(s, 0)
    case None => Eof
    case Some(t) =>
      match BytesAt(s, 8)
      case None => Eof
      case Some(key) => DecodeValue(s, Signed(t), key)
  }

  /** The rest of a record, once its time stamp and key have been read. */
  function DecodeValue(s: seq<byte>, tstamp: i64, key: Bytes): (d: Decoded<Record>)
    ensures d.Got? ==> 17 + |key| <= d.size <= |s|
  {
    var at := 16 + |key|;
    if at >= |s| then Eof
    else if s[at] == 0 then Got(Record(tstamp, key, None), at + 1)
    else if s[at] == 1 then
      match BytesAt(s, at + 1)
      case None => Eof
      case Some(v) => Got(Record(tstamp, key, Some(v)), at + 9 + |v|)
    else Corrupt
  }

  function DecodeHint(s: seq<byte>): (d: Decoded<DiskHint>)
    ensures d.Got? ==> 32 <= d.size <= |s|
    ensures !d.Corrupt?
  {
    match (U64At(s, 0), U64At(s, 8), U64At(s, 16))
    case (Some(t), Some(len), Some(pos)) =>
      (match BytesAt(s, 24)
       case None => Eof
       case Some(key) => Got(Hint(Signed(t), len, pos, key), 32 + |key|))
    case _ => Eof
  }

  // ---------- the codec is exact ----------

  lemma U64AtIs(s: seq<byte>, at: nat, n: u64)
    requires at + 8 <= |s| && s[at..at + 8] == U64ToBytes(n)
    ensures U64At(s, at) == Some(n)
  {
    U64RoundTrip(n);
  }

  lemma BytesAtIs(s: seq<byte>, at: nat, b: Bytes)
    requires at + 8 + |b| <= |s| && s[at..at + 8 + |b|] == PrefixedBytes(b)
    ensures BytesAt(s, at) == Some(b)
  {
    var p := PrefixedBytes(b);
    assert s[at..at + 8] == s[at..at + 8 + |b|][..8] == p[..8] == U64ToBytes(|b|);
    U64AtIs(s, at, |b|);
    assert s[at + 8..at + 8 + |b|] == s[at..at + 8 + |b|][8..] == p[8..] == b;
  }

  lemma BytesAtOnly(s: seq<byte>, at: nat)
    requires BytesAt(s, at).Some?
    ensures var b := BytesAt(s, at).value; s[at..at + 8 + |b|] == PrefixedBytes(b)
  {
    var b := BytesAt(s, at).value;
    U64Canonical(s[at..at + 8]);
    assert s[at..at + 8 + |b|] == s[at..at + 8] + s[at + 8..at + 8 + |b|];
  }

  lemma HeaderReads(r: Record, s: seq<byte>)
    requires EncodeRecord(r) <= s
    ensures U64At(s, 0) == Some(Unsigned(r.tstamp)) && BytesAt(s, 8) == Some(r.key)
  {
    var e := EncodeRecord(r);
    assert s[0..8] == e[0..8] == U64ToBytes(Unsigned(r.tstamp));
    U64AtIs(s, 0, Unsigned(r.tstamp));
    assert s[8..16 + |r.key|] == e[8..16 + |r.key|] == PrefixedBytes(r.key);
    BytesAtIs(s, 8, r.key);
  }

  lemma ValueReads(r: Record, s: seq<byte>)
    requires EncodeRecord(r) <= s
    ensures DecodeValue(s, r.tstamp, r.key) == Got(r, Size(r))
  {
    var at := 16 + |r.key|;
    assert EncodeRecord(r)[at..] == EncodeValue(r.value);
    assert s[at..Size(r)] == EncodeRecord(r)[at..];
    if r.value.Some? {
      PresentReads(s, at, r.value.value, Size(r));
    } else {
      assert s[at] == s[at..Size(r)][0];
    }
  }

  lemma PresentReads(s: seq<byte>, at: nat, v: Bytes, end: nat)
    requires at <= end <= |s| && s[at..end] == [1] + PrefixedBytes(v)
    ensures s[at] == 1 && BytesAt(s, at + 1) == Some(v) && end == at + 9 + |v|
  {
    assert s[at] == s[at..end][0];
    assert s[at + 1..at + 9 + |v|] == s[at..end][1..];
    BytesAtIs(s, at + 1, v);
  }

  /** Reading the bytes of a record gives the record back and stops at its last byte, whatever
      follows it. */
  lemma RecordRoundTrip(r: Record, rest: seq<byte>)
    ensures DecodeRecord(EncodeRecord(r) + rest) == Got(r, Size(r))
  {
    var s := EncodeRecord(r) + rest;
    HeaderReads(r, s);
    ValueReads(r, s);
  }

  /** A record that is read was written: reading succeeds exactly on the bytes of a record, so no
      two records share a prefix and a record has one encoding. */
  lemma RecordCanonical(s: seq<byte>, r: Record, n: nat)
    ensures DecodeRecord(s) == Got(r, n) <==> n == Size(r) && EncodeRecord(r) <= s
  {
    if DecodeRecord(s) == Got(r, n) {
      ReadWasWritten(s, r, n);
    }
    if n == Size(r) && EncodeRecord(r) <= s {
      assert s == EncodeRecord(r) + s[n..];
      RecordRoundTrip(r, s[n..]);
    }
  }

  lemma ReadWasWritten(s: seq<byte>, r: Record, n: nat)
    requires DecodeRecord(s) == Got(r, n)
    ensures n == Size(r) <= |s| && EncodeRecord(r) == s[..n]
  {
    var at := 16 + |r.key|;
    assert U64ToBytes(Unsigned(r.tstamp)) == s[0..8] by { U64Canonical(s[0..8]); }
    assert PrefixedBytes(r.key) == s[8..at] by { BytesAtOnly(s, 8); }
    ValueWasWritten(s, r, n);
    assert s[..n] == s[0..8] + s[8..at] + s[at..n];
  }

  lemma ValueWasWritten(s: seq<byte>, r: Record, n: nat)
    requires DecodeValue(s, r.tstamp, r.key) == Got(r, n)
    ensures n == Size(r) <= |s| && EncodeValue(r.value) == s[16 + |r.key|..n]
  {
    var at := 16 + |r.key|;
    if s[at] == 1 {
      BytesAtOnly(s, at + 1);
      assert s[at..n] == [s[at]] + s[at + 1..n];
    }
  }

  /** A record cut short anywhere reads as the end of the file, never as another record and never
      as corruption. */
  lemma RecordTruncated(r: Record, n: nat)
    requires n < Size(r)
    ensures DecodeRecord(EncodeRecord(r)[..n]) == Eof
  {
    var full := EncodeRecord(r);
    var s := full[..n];
    var at := 16 + |r.key|;
    if n >= 8 {
      assert s[0..8] == full[0..8] == U64ToBytes(Unsigned(r.tstamp));
      U64AtIs(s, 0, Unsigned(r.tstamp));
      if n < at {
        assert full[8..at] == PrefixedBytes(r.key);
        assert s[8..] == PrefixedBytes(r.key)[..n - 8];
        LengthTruncated(s, 8, r.key);
      } else {
        assert s[8..at] == full[8..at] == PrefixedBytes(r.key);
        BytesAtIs(s, 8, r.key);
        ValueTruncated(r, n);
      }
    }
  }

  lemma ValueTruncated(r: Record, n: nat)
    requires 16 + |r.key| <= n < Size(r)
    ensures DecodeValue(EncodeRecord(r)[..n], r.tstamp, r.key) == Eof
  {
    var s := EncodeRecord(r)[..n];
    var at := 16 + |r.key|;
    if n > at {
      assert r.value.Some?;
      var v := r.value.value;
      assert EncodeRecord(r)[at..] == [1] + PrefixedBytes(v);
      ValueCut(s, at, [1] + PrefixedBytes(v), v);
    }
  }

  lemma ValueCut(s: seq<byte>, at: nat, e: seq<byte>, v: Bytes)
    requires at < |s| < at + |e| && e == [1] + PrefixedBytes(v) && s[at..] == e[..|s| - at]
    ensures s[at] == 1 && BytesAt(s, at + 1) == None
  {
    assert s[at] == s[at..][0] == e[0];
    assert s[at + 1..] == s[at..][1..] == e[1..|s| - at] == PrefixedBytes(v)[..|s| - at - 1];
    LengthTruncated(s, at + 1, v);
  }

  /** A byte string that is cut short does not read. */
  lemma LengthTruncated(s: seq<byte>, at: nat, b: Bytes)
    requires at <= |s| < at + 8 + |b| && s[at..] <= PrefixedBytes(b)
    ensures BytesAt(s, at) == None
  {
    if at + 8 <= |s| {
      assert s[at..at + 8] == s[at..][..8] == PrefixedBytes(b)[..8] == U64ToBytes(|b|);
      U64AtIs(s, at, |b|);
    }
  }

  lemma HintRoundTrip(h: DiskHint, rest: seq<byte>)
    ensures DecodeHint(EncodeHint(h) + rest) == Got(h, 32 + |h.key|)
  {
    HintFieldsRead(h, EncodeHint(h) + rest);
  }

  lemma HintFieldsRead(h: DiskHint, s: seq<byte>)
    requires EncodeHint(h) <= s
    ensures U64At(s, 0) == Some(Unsigned(h.tstamp)) && U64At(s, 8) == Some(h.len)
    ensures U64At(s, 16) == Some(h.pos) && BytesAt(s, 24) == Some(h.key)
  {
    var e := EncodeHint(h);
    assert s[0..8] == e[0..8] == U64ToBytes(Unsigned(h.tstamp));
    U64AtIs(s, 0, Unsigned(h.tstamp));
    assert s[8..16] == e[8..16] == U64ToBytes(h.len);
    U64AtIs(s, 8, h.len);
    assert s[16..24] == e[16..24] == U64ToBytes(h.pos);
    U64AtIs(s, 16, h.pos);
    assert s[24..32 + |h.key|] == e[24..32 + |h.key|] == PrefixedBytes(h.key);
    BytesAtIs(s, 24, h.key);
  }

  lemma HintTruncated(h: DiskHint, n: nat)
    requires n < 32 + |h.key|
    ensures DecodeHint(EncodeHint(h)[..n]) == Eof
  {
    var e := EncodeHint(h);
    var s := e[..n];
    if n >= 24 {
      assert s[24..] == e[24..][..n - 24] == PrefixedBytes(h.key)[..n - 24];
      LengthTruncated(s, 24, h.key);
    }
  }

  // ---------- both entry types are self-delimiting ----------

  function RecordCode(): Code<Record> {
    Code(EncodeRecord, DecodeRecord)
  }

  function HintCode(): Code<DiskHint> {
    Code(EncodeHint, DecodeHint)
  }

  /** The entries of data files can be read back one after the other. */
  lemma RecordsSelfDelimiting()
    ensures SelfDelimiting(RecordCode())
  {
    forall r: Record, rest: seq<byte>
      ensures DecodeRecord(EncodeRecord(r) + rest) == Got(r, |EncodeRecord(r)|)
    {
      RecordRoundTrip(r, rest);
    }
    forall r: Record, n: nat | n < |EncodeRecord(r)|
      ensures DecodeRecord(EncodeRecord(r)[..n]) == Eof
    {
      RecordTruncated(r, n);
    }
  }

  /** The entries of hint files can be read back one after the other. */
  lemma HintsSelfDelimiting()
    ensures SelfDelimiting(HintCode())
  {
    forall h: DiskHint, rest: seq<byte>
      ensures DecodeHint(EncodeHint(h) + rest) == Got(h, |EncodeHint(h)|)
    {
      HintRoundTrip(h, rest);
    }
    forall h: DiskHint, n: nat | n < |EncodeHint(h)|
      ensures DecodeHint(EncodeHint(h)[..n]) == Eof
    {
      HintTruncated(h, n);
    }
  }
}
