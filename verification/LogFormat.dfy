/** The bytes of log entries, field by field, and which bytes are no entry. */
module LogFormat {
  import opened Types
  import opened Framing
  import opened LogCodec
  import opened LogFile

  function Byte(s: seq<byte>, i: nat): nat
    requires i < |s|
  {
    s[i]
  }

  /** The number in the eight bytes at `at`, the least significant byte first. */
  function Number(s: seq<byte>, at: nat): nat
    requires at + 8 <= |s|
  {
    Byte(s, at) + 0x100 * Byte(s, at + 1) + 0x1_0000 * Byte(s, at + 2) + 0x100_0000 * Byte(s, at + 3)
    + 0x1_0000_0000 * Byte(s, at + 4) + 0x100_0000_0000 * Byte(s, at + 5)
    + 0x1_0000_0000_0000 * Byte(s, at + 6) + 0x100_0000_0000_0000 * Byte(s, at + 7)
  }

  lemma FromLEStep(s: seq<byte>, i: nat, next: nat)
    requires i < |s| && next == i + 1
    ensures FromLE(s[i..]) == s[i] + 256 * FromLE(s[next..])
  {
    assert s[i..][1..] == s[next..];
  }

  lemma FromLEIs(s: seq<byte>)
    requires |s| == 8
    ensures FromLE(s) == Number(s, 0)
  {
    assert s[0..] == s && FromLE(s[8..]) == 0;
    hide FromLE;
    FromLEStep(s, 0, 1);
    FromLEStep(s, 1, 2);
    FromLEStep(s, 2, 3);
    FromLEStep(s, 3, 4);
    FromLEStep(s, 4, 5);
    FromLEStep(s, 5, 6);
    FromLEStep(s, 6, 7);
    FromLEStep(s, 7, 8);
  }

  lemma NumberWritten(s: seq<byte>, at: nat, n: u64)
    requires at + 8 <= |s| && s[at..at + 8] == U64ToBytes(n)
    ensures Number(s, at) == n
  {
    var t := s[at..at + 8];
    FromLEIs(t);
    U64RoundTrip(n);
    assert forall i :: 0 <= i < 8 ==> t[i] == s[at + i];
    assert Number(t, 0) == Number(s, at);
  }

  lemma NumberRead(s: seq<byte>, at: nat)
    requires at + 8 <= |s|
    ensures U64At(s, at) == Some(Number(s, at))
  {
    var t := s[at..at + 8];
    FromLEIs(t);
    assert forall i :: 0 <= i < 8 ==> t[i] == s[at + i];
    assert Number(t, 0) == Number(s, at);
  }

  // ---------- which bytes an entry is ----------

  /** A signed number is on disk as its two's complement. */
  predicate HoldsSigned(s: seq<byte>, at: nat, t: i64) {
    at + 8 <= |s| && Number(s, at) == if t < 0 then t + 0x1_0000_0000_0000_0000 else t
  }

  /** A byte string is on disk as its length and its bytes. */
  predicate HoldsString(s: seq<byte>, at: nat, b: seq<byte>) {
    at + 8 + |b| <= |s| && Number(s, at) == |b| && s[at + 8..at + 8 + |b|] == b
  }

  lemma StringWritten(s: seq<byte>, at: nat, b: Bytes)
    requires at + 8 + |b| <= |s| && s[at..at + 8 + |b|] == PrefixedBytes(b)
    ensures HoldsString(s, at, b)
  {
    var p := s[at..at + 8 + |b|];
    assert s[at..at + 8] == p[..8] == U64ToBytes(|b|);
    NumberWritten(s, at, |b|);
    assert s[at + 8..at + 8 + |b|] == p[8..] == b;
  }

  /** A data file entry is the time stamp, the length of the key, the key, a tag, and for the tag 1 the
      length of the value and the value; the tag is 0 exactly for a tombstone. */
  lemma RecordLayout(r: Record, s: seq<byte>, at: nat)
    requires s == EncodeRecord(r) && at == 16 + |r.key|
    ensures HoldsSigned(s, 0, r.tstamp) && HoldsString(s, 8, r.key) && at < |s|
    ensures match r.value
            case None => s[at] == 0 && |s| == at + 1
            case Some(v) => s[at] == 1 && HoldsString(s, at + 1, v) && |s| == at + 9 + |v|
  {
    assert s[0..8] == U64ToBytes(Unsigned(r.tstamp));
    NumberWritten(s, 0, Unsigned(r.tstamp));
    assert s[8..at] == PrefixedBytes(r.key);
    StringWritten(s, 8, r.key);
    assert s[at..] == EncodeValue(r.value);
    assert s[at] == s[at..][0];
    if r.value.Some? {
      var v := r.value.value;
      assert s[at + 1..at + 9 + |v|] == s[at..][1..] == PrefixedBytes(v);
      StringWritten(s, at + 1, v);
    }
  }

  /** A hint file entry is the time stamp, the length of the record, its position, and the length of the
      key and the key. */
  lemma HintLayout(h: DiskHint, s: seq<byte>)
    requires s == EncodeHint(h)
    ensures HoldsSigned(s, 0, h.tstamp) && Number(s, 8) == h.len && Number(s, 16) == h.pos
    ensures HoldsString(s, 24, h.key) && |s| == 32 + |h.key|
  {
    assert s[0..8] == U64ToBytes(Unsigned(h.tstamp));
    NumberWritten(s, 0, Unsigned(h.tstamp));
    assert s[8..16] == U64ToBytes(h.len);
    NumberWritten(s, 8, h.len);
    assert s[16..24] == U64ToBytes(h.pos);
    NumberWritten(s, 16, h.pos);
    assert s[24..32 + |h.key|] == PrefixedBytes(h.key);
    StringWritten(s, 24, h.key);
  }

  // ---------- which bytes are no entry ----------

  /** Header and key are there, and the tag that follows is none. */
  predicate BadTag(s: seq<byte>) {
    |s| > 16 && 16 + Number(s, 8) < |s| && s[16 + Number(s, 8)] > 1
  }

  /** Reading finds bytes that are no entry exactly at a tag that is neither 0 nor 1. */
  lemma CorruptIff(s: seq<byte>)
    ensures DecodeRecord(s) == Corrupt <==> BadTag(s)
  {
    if |s| >= 16 {
      NumberRead(s, 0);
      NumberRead(s, 8);
    }
  }

  /** The front of an entry, without its last byte at least. */
  ghost predicate CutShort(s: seq<byte>) {
    exists r :: s < EncodeRecord(r)
  }

  function Zeros(n: nat): (z: seq<byte>)
    ensures |z| == n
  {
    seq(n, i => 0)
  }

  lemma SameNumber(s: seq<byte>, z: seq<byte>, at: nat)
    requires at + 8 <= |s|
    ensures U64At(s + z, at) == U64At(s, at)
  {
    assert (s + z)[at..at + 8] == s[at..at + 8];
  }

  lemma SameString(s: seq<byte>, z: seq<byte>, at: nat)
    requires BytesAt(s, at).Some?
    ensures BytesAt(s + z, at) == BytesAt(s, at)
  {
    SameNumber(s, z, at);
    var n := |BytesAt(s, at).value|;
    assert (s + z)[at + 8..at + 8 + n] == s[at + 8..at + 8 + n];
  }

  lemma StringGrows(s: seq<byte>, at: nat) returns (z: seq<byte>)
    requires at <= |s| && BytesAt(s, at) == None
    ensures BytesAt(s + z, at).Some? && |s + z| == at + 8 + |BytesAt(s + z, at).value|
  {
    var y := if |s| < at + 8 then Zeros(at + 8 - |s|) else [];
    var t := s + y;
    var n := U64At(t, at).value;
    z := y + if |t| < at + 8 + n then Zeros(at + 8 + n - |t|) else [];
    assert s + z == t + z[|y|..];
    SameNumber(t, z[|y|..], at);
    if |s| >= at + 8 {
      assert t == s;
    }
  }

  lemma ValueGrows(s: seq<byte>, tstamp: i64, key: Bytes) returns (z: seq<byte>)
    requires 16 + |key| <= |s| && DecodeValue(s, tstamp, key) == Eof
    ensures DecodeValue(s + z, tstamp, key).Got?
  {
    var at := 16 + |key|;
    if |s| == at {
      z := [0];
      assert (s + z)[at] == 0;
    } else {
      z := StringGrows(s, at + 1);
      assert (s + z)[at] == s[at];
    }
  }

  lemma HeaderGrows(s: seq<byte>) returns (z: seq<byte>)
    requires |s| >= 8 && BytesAt(s, 8) == None
    ensures |s + z| >= 16 && BytesAt(s + z, 8).Some? && DecodeRecord(s + z) == Eof
  {
    z := StringGrows(s, 8);
    SameNumber(s, z, 0);
  }

  lemma KeyGrows(s: seq<byte>) returns (z: seq<byte>)
    requires |s| >= 8 && BytesAt(s, 8).Some? && DecodeRecord(s) == Eof
    ensures DecodeRecord(s + z).Got?
  {
    var key := BytesAt(s, 8).value;
    z := ValueGrows(s, Signed(U64At(s, 0).value), key);
    SameNumber(s, z, 0);
    SameString(s, z, 8);
  }

  lemma HeaderMissing(s: seq<byte>, t: seq<byte>, a: seq<byte>)
    requires DecodeRecord(s) == Eof && t == s + a && |t| >= 8 && (|s| < 8 ==> |t| == 8) && (|s| >= 8 ==> a == [])
    ensures DecodeRecord(t) == Eof
  {
    if |s| >= 8 {
      assert t == s;
    }
  }

  /** Whatever reads as the end of the file becomes an entry with some more bytes. */
  lemma EofGrows(s: seq<byte>) returns (z: seq<byte>)
    requires DecodeRecord(s) == Eof
    ensures DecodeRecord(s + z).Got?
  {
    hide BytesAt, DecodeRecord;
    var a := if |s| < 8 then Zeros(8 - |s|) else [];
    var t := s + a;
    if |s| >= 8 {
      assert t == s;
    }
    HeaderMissing(s, t, a);
    var b := [];
    if BytesAt(t, 8) == None {
      b := HeaderGrows(t);
    }
    var u := t + b;
    if b == [] {
      assert u == t;
    }
    var c := KeyGrows(u);
    z := a + b + c;
    assert s + z == u + c;
  }

  /** Reading finds the end of the file exactly in the front of an entry. */
  lemma EofIff(s: seq<byte>)
    ensures DecodeRecord(s) == Eof <==> CutShort(s)
  {
    if DecodeRecord(s) == Eof {
      var z := EofGrows(s);
      var Got(r, n) := DecodeRecord(s + z);
      EofIsFront(s, z, r, n);
    }
    if CutShort(s) {
      var r :| s < EncodeRecord(r);
      RecordTruncated(r, |s|);
      assert EncodeRecord(r)[..|s|] == s;
    }
  }

  lemma EofIsFront(s: seq<byte>, z: seq<byte>, r: Record, n: nat)
    requires DecodeRecord(s) == Eof && DecodeRecord(s + z) == Got(r, n)
    ensures s < EncodeRecord(r)
  {
    RecordCanonical(s + z, r, n);
    if n <= |s| {
      assert EncodeRecord(r) <= s;
      RecordCanonical(s, r, n);
    }
  }

  /** Reading a hint never finds bytes that are no hint, only whole ones and the end of the file. */
  lemma {:induction false} HintsAlwaysRead(file: seq<byte>)
    ensures Readable(HintCode(), file)
    decreases |file|
  {
    if DecodeHint(file).Got? {
      HintsAlwaysRead(file[DecodeHint(file).size..]);
    }
  }

  // ---------- files ----------

  lemma NothingEncoded()
    ensures EncodeAll(RecordCode(), []) == []
  {
  }

  lemma OneMoreInFront(r: Record, rs: seq<Record>)
    ensures FileBytes([r] + rs) == EncodeRecord(r) + FileBytes(rs)
  {
    hide EncodeRecord, EncodeAll;
    EncodeAllConcat(RecordCode(), [r], rs);
    EncodeAllSnoc(RecordCode(), [], r);
    assert [] + [r] == [r];
    NothingEncoded();
  }

  lemma FrontDecodes(r: Record, rest: seq<byte>, file: seq<byte>)
    requires file == EncodeRecord(r) + rest
    ensures DecodeRecord(file) == Got(r, Size(r)) && file[Size(r)..] == rest
  {
    RecordRoundTrip(r, rest);
  }

  /** Every file is its complete entries and then bytes that start with no entry. */
  lemma {:induction false} FileIsEntries(file: seq<byte>) returns (rest: seq<byte>)
    ensures file == FileBytes(Scan(RecordCode(), file)) + rest && !DecodeRecord(rest).Got?
    ensures Readable(RecordCode(), file) <==> DecodeRecord(rest) == Eof
    decreases |file|
  {
    hide DecodeRecord, FileBytes;
    match DecodeRecord(file) {
      case Got(r, n) =>
        rest := FileIsEntries(file[n..]);
        OneEntryOff(file, r, n, file[n..], rest);
      case _ =>
        rest := file;
        NothingEncoded();
    }
  }

  lemma ScanStep(file: seq<byte>, r: Record, n: nat, tail: seq<byte>)
    requires DecodeRecord(file) == Got(r, n) && tail == file[n..]
    ensures Scan(RecordCode(), file) == [r] + Scan(RecordCode(), tail)
  {
    hide DecodeRecord, EncodeRecord;
    DecodedSize(file);
  }

  lemma DecodedSize(s: seq<byte>)
    requires DecodeRecord(s).Got?
    ensures 0 < DecodeRecord(s).size <= |s|
  {
  }

  lemma OneEntryOff(file: seq<byte>, r: Record, n: nat, tail: seq<byte>, rest: seq<byte>)
    requires DecodeRecord(file) == Got(r, n) && tail == file[n..]
    requires tail == FileBytes(Scan(RecordCode(), tail)) + rest
    ensures file == FileBytes(Scan(RecordCode(), file)) + rest
  {
    hide DecodeRecord, EncodeRecord, FileBytes, Scan;
    ReadWasWritten(file, r, n);
    ScanStep(file, r, n, tail);
    OneMoreInFront(r, Scan(RecordCode(), tail));
    assert file == file[..n] + tail;
  }

  lemma EntriesThenNone(rs: seq<Record>, rest: seq<byte>)
    requires !DecodeRecord(rest).Got?
    ensures Scan(RecordCode(), FileBytes(rs) + rest) == rs
    ensures Readable(RecordCode(), FileBytes(rs) + rest) <==> DecodeRecord(rest) == Eof
  {
    RecordsSelfDelimiting();
    ScanSkips(RecordCode(), rs, rest);
    assert rs + [] == rs;
  }

  /** Reading a data file fails exactly if after some whole entries there is a tag that is none. */
  lemma UnreadableIff(file: seq<byte>)
    ensures !Readable(RecordCode(), file) <==> exists rs, rest :: file == FileBytes(rs) + rest && BadTag(rest)
  {
    var rest := FileIsEntries(file);
    CorruptIff(rest);
    if rs, tail :| file == FileBytes(rs) + tail && BadTag(tail) {
      CorruptIff(tail);
      EntriesThenNone(rs, tail);
    }
  }

  /** It succeeds exactly if the file is whole entries and then the front of one, and reads these. */
  lemma ReadsIff(file: seq<byte>, rs: seq<Record>)
    ensures Readable(RecordCode(), file) && Scan(RecordCode(), file) == rs
       <==> exists tail :: file == FileBytes(rs) + tail && CutShort(tail)
  {
    var rest := FileIsEntries(file);
    EofIff(rest);
    if tail :| file == FileBytes(rs) + tail && CutShort(tail) {
      EofIff(tail);
      EntriesThenNone(rs, tail);
    }
  }
}
