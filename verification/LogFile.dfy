/**
 A log file as the sequence of its records: where each record lies, the bytes of the file, and what
 the file reads back as when it is cut.
 */
module LogFile {
  import opened Types
  import opened Framing
  import opened LogCodec

  // ---------- where records lie ----------

  /** The number of bytes taken by a sequence of records. */
  function Total(rs: seq<Record>): (n: nat)
    ensures |rs| > 0 ==> n >= 17
  {
    if |rs| == 0 then 0 else Total(rs[..|rs| - 1]) + Size(rs[|rs| - 1])
  }

  /** The record that starts at byte `pos`. */
  function Find(rs: seq<Record>, pos: nat): (r: Option<Record>)
    ensures r.Some? ==> pos + Size(r.value) <= Total(rs)
  {
    if |rs| == 0 then None
    else
      var init := rs[..|rs| - 1];
      if pos == Total(init) then Some(rs[|rs| - 1]) else Find(init, pos)
  }

  lemma TotalSnoc(rs: seq<Record>, r: Record)
    ensures Total(rs + [r]) == Total(rs) + Size(r)
  {
    assert (rs + [r])[..|rs|] == rs;
  }

  /** Appending adds one findable record and leaves the others where they were. */
  lemma FindSnoc(rs: seq<Record>, r: Record, pos: nat)
    ensures Find(rs + [r], pos) == if pos == Total(rs) then Some(r) else Find(rs, pos)
  {
    assert (rs + [r])[..|rs|] == rs;
  }

  /** What a position holds never changes as the file grows. */
  lemma {:induction false} FindPrefix(rs: seq<Record>, more: seq<Record>, pos: nat)
    requires Find(rs, pos).Some?
    ensures Find(rs + more, pos) == Find(rs, pos)
  {
    if more == [] {
      assert rs + more == rs;
    } else {
      var init := more[..|more| - 1];
      FindPrefix(rs, init, pos);
      FindSnoc(rs + init, more[|more| - 1], pos);
      assert rs + init + [more[|more| - 1]] == rs + more;
    }
  }

  lemma {:induction false} FindInside(rs: seq<Record>, more: seq<Record>, pos: nat)
    requires pos < Total(rs)
    ensures Find(rs + more, pos) == Find(rs, pos) && Total(rs) <= Total(rs + more)
  {
    if more == [] {
      assert rs + more == rs;
    } else {
      var init, r := more[..|more| - 1], more[|more| - 1];
      FindInside(rs, init, pos);
      FindSnoc(rs + init, r, pos);
      TotalSnoc(rs + init, r);
      assert rs + init + [r] == rs + more;
    }
  }

  lemma {:induction false} TotalMonotone(rs: seq<Record>, i: nat, j: nat)
    requires i <= j <= |rs|
    ensures Total(rs[..i]) <= Total(rs[..j])
  {
    if i < j {
      TotalMonotone(rs, i, j - 1);
      assert rs[..j] == rs[..j - 1] + [rs[j - 1]];
      TotalSnoc(rs[..j - 1], rs[j - 1]);
    }
  }

  /** Every findable record is one of the records of the file, at its own offset. */
  lemma {:induction false} FindIndex(rs: seq<Record>, pos: nat) returns (i: nat)
    requires Find(rs, pos).Some?
    ensures i < |rs| && rs[i] == Find(rs, pos).value && Total(rs[..i]) == pos
  {
    var n := |rs| - 1;
    if pos == Total(rs[..n]) {
      i := n;
    } else {
      i := FindIndex(rs[..n], pos);
      assert rs[..n][..i] == rs[..i];
    }
  }

  /** Byte `n` is where some record of the file ends and the next one, if any, starts. */
  ghost predicate Boundary(rs: seq<Record>, n: nat) {
    exists i :: 0 <= i <= |rs| && EndsAt(rs, i, n)
  }

  predicate EndsAt(rs: seq<Record>, i: nat, n: nat)
    requires i <= |rs|
  {
    Total(rs[..i]) == n
  }

  lemma WholeIsBoundary(rs: seq<Record>)
    ensures Boundary(rs, Total(rs)) && Boundary(rs, 0)
  {
    assert rs[..|rs|] == rs && rs[..0] == [];
    assert EndsAt(rs, |rs|, Total(rs)) && EndsAt(rs, 0, 0);
  }

  lemma BoundaryGrows(rs: seq<Record>, more: seq<Record>, n: nat)
    requires Boundary(rs, n)
    ensures Boundary(rs + more, n)
  {
    var i :| 0 <= i <= |rs| && EndsAt(rs, i, n);
    assert (rs + more)[..i] == rs[..i];
    assert EndsAt(rs + more, i, n);
  }

  lemma EndsBefore(rs: seq<Record>, i: nat, j: nat)
    requires i < j <= |rs|
    ensures Total(rs[..i]) + Size(rs[i]) <= Total(rs[..j])
  {
    TotalMonotone(rs, i + 1, j);
    assert rs[..i + 1] == rs[..i] + [rs[i]];
    TotalSnoc(rs[..i], rs[i]);
  }

  lemma AtMostAll(rs: seq<Record>, j: nat)
    requires j <= |rs|
    ensures Total(rs[..j]) <= Total(rs)
  {
    TotalMonotone(rs, j, |rs|);
    assert rs[..|rs|] == rs;
  }

  /** A record that starts before a boundary ends by it. */
  lemma RecordBeforeBoundary(rs: seq<Record>, n: nat, pos: nat)
    requires Boundary(rs, n) && Find(rs, pos).Some? && pos < n
    ensures pos + Size(Find(rs, pos).value) <= n <= Total(rs)
  {
    var j :| 0 <= j <= |rs| && EndsAt(rs, j, n);
    var i := FindIndex(rs, pos);
    AtMostAll(rs, j);
    if j <= i {
      TotalMonotone(rs, j, i);
    } else {
      EndsBefore(rs, i, j);
    }
  }

  // ---------- bytes ----------

  /** The bytes of a data file that holds exactly these records. */
  function FileBytes(rs: seq<Record>): (s: seq<byte>)
    ensures |s| == Total(rs)
  {
    FileLength(rs);
    EncodeAll(RecordCode(), rs)
  }

  lemma {:induction false} FileLength(rs: seq<Record>)
    ensures |EncodeAll(RecordCode(), rs)| == Total(rs)
  {
    if rs != [] {
      FileLength(rs[..|rs| - 1]);
    }
  }

  lemma FileGrows(rs: seq<Record>, r: Record)
    ensures FileBytes(rs + [r]) == FileBytes(rs) + EncodeRecord(r)
  {
    EncodeAllSnoc(RecordCode(), rs, r);
  }

  /** The slice named by a position and a length is exactly the record that lies there. */
  lemma SliceHoldsRecord(rs: seq<Record>, pos: nat)
    requires Find(rs, pos).Some?
    ensures var r := Find(rs, pos).value;
            && pos + Size(r) <= |FileBytes(rs)|
            && FileBytes(rs)[pos..pos + Size(r)] == EncodeRecord(r)
  {
    var i := FindIndex(rs, pos);
    RecordSlice(rs, i, pos, rs[i]);
  }

  lemma RecordSlice(rs: seq<Record>, i: nat, pos: nat, r: Record)
    requires i < |rs| && rs[i] == r && pos == Total(rs[..i])
    ensures pos + Size(r) <= |FileBytes(rs)| && FileBytes(rs)[pos..pos + Size(r)] == EncodeRecord(r)
  {
    FileLength(rs[..i]);
    SliceHoldsEntry(RecordCode(), rs, i);
  }

  /** A data file cut at any byte reads back, without error, as the largest number of its records
      that end by the cut. */
  lemma CutDataFile(rs: seq<Record>, n: nat) returns (k: nat)
    requires n <= |FileBytes(rs)|
    ensures k <= |rs| && Scan(RecordCode(), FileBytes(rs)[..n]) == rs[..k]
    ensures Readable(RecordCode(), FileBytes(rs)[..n])
    ensures Total(rs[..k]) <= n && (k < |rs| ==> n < Total(rs[..k + 1]))
  {
    k := Fit(RecordCode(), rs, n);
    CutReads(rs, n);
    FitByTotal(rs, n);
  }

  lemma CutReads(rs: seq<Record>, n: nat)
    requires n <= |FileBytes(rs)|
    ensures Scan(RecordCode(), FileBytes(rs)[..n]) == rs[..Fit(RecordCode(), rs, n)]
    ensures Readable(RecordCode(), FileBytes(rs)[..n])
  {
    RecordsSelfDelimiting();
    CutFileReads(RecordCode(), rs, n, Record(0, [], None));
  }

  lemma FitByTotal(rs: seq<Record>, n: nat)
    ensures var k := Fit(RecordCode(), rs, n);
            Total(rs[..k]) <= n && (k < |rs| ==> n < Total(rs[..k + 1]))
  {
    var k := Fit(RecordCode(), rs, n);
    FitIsLargest(RecordCode(), rs, n);
    FileLength(rs[..k]);
    if k < |rs| {
      FileLength(rs[..k + 1]);
    }
  }

  lemma DataFileReads(rs: seq<Record>)
    ensures Scan(RecordCode(), FileBytes(rs)) == rs && Readable(RecordCode(), FileBytes(rs))
  {
    RecordsSelfDelimiting();
    WholeFileReads(RecordCode(), rs, Record(0, [], None));
  }

  /** A file of whole records and then bytes that are only the front of one reads as the records. */
  lemma CutRecordIsNotRead(rs: seq<Record>, tail: seq<byte>)
    requires DecodeRecord(tail) == Eof
    ensures Scan(RecordCode(), FileBytes(rs) + tail) == rs && Readable(RecordCode(), FileBytes(rs) + tail)
  {
    RecordsSelfDelimiting();
    ScanSkips(RecordCode(), rs, tail);
    TailIsNotRead(RecordCode(), tail);
    assert rs + [] == rs;
  }

  lemma TailIsNotRead<T>(c: Code<T>, tail: seq<byte>)
    requires c.dec(tail) == Eof
    ensures Scan(c, tail) == [] && Readable(c, tail)
  {
  }

  /** The bytes of a hint file that holds exactly these entries. */
  function HintBytes(hs: seq<DiskHint>): seq<byte> {
    EncodeAll(HintCode(), hs)
  }

  lemma HintFileReads(hs: seq<DiskHint>)
    ensures Scan(HintCode(), HintBytes(hs)) == hs && Readable(HintCode(), HintBytes(hs))
  {
    HintsSelfDelimiting();
    WholeFileReads(HintCode(), hs, Hint(0, 0, 0, []));
  }
}
