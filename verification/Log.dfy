/**
 The directory and the three ways to use a log file in it: appending, reading entries one after the
 other, and reading at a known place through a cached mapping.
 */
module Log {
  import opened Types
  import opened Framing
  import opened LogCodec
  import opened LogFile
  import opened KeyDir
  import opened Store

  datatype Name = DataFile(id: FileId) | HintFile(id: FileId)

  type Files = map<Name, seq<byte>>

  /** Position and length of an entry within its file. */
  datatype LogIndex = LogIndex(len: nat, pos: nat)

  class Directory {
    var files: Files

    constructor (files: Files)
      ensures this.files == files
    {
      this.files := files;
    }

    /** Make a file that is not there yet. */
    method CreateNew(name: Name)
      requires name !in files
      modifies this
      ensures files == old(files)[name := []]
    {
      files := files[name := []];
    }

    /** Remove a file; one that is not there stays away. */
    method Remove(name: Name)
      modifies this
      ensures files == old(files) - {name}
    {
      files := files - {name};
    }
  }

  /** The file holds these records, and maybe the front of one more that was cut short. */
  ghost predicate Held(file: seq<byte>, rs: seq<Record>) {
    Total(rs) <= |file| && file[..Total(rs)] == FileBytes(rs) && DecodeRecord(file[Total(rs)..]) == Eof
  }

  /** The directory holds these records and hints. Only a file with an id below `first` may have been cut
      short within a record; the others hold whole records. */
  ghost predicate Holds(files: Files, d: Disk, first: FileId) {
    && (forall f :: DataFile(f) in files <==> f in d.data)
    && (forall f :: HintFile(f) in files <==> f in d.hint)
    && (forall f :: FileHolds(files, d, first, f))
  }

  ghost predicate FileHolds(files: Files, d: Disk, first: FileId, f: FileId) {
    && (f in d.data && DataFile(f) in files ==>
          if f < first then Held(files[DataFile(f)], d.data[f]) else files[DataFile(f)] == FileBytes(d.data[f]))
    && (f in d.hint && HintFile(f) in files ==> HoldsHints(files[HintFile(f)], d.hint[f]))
  }

  predicate OnDisk(h: Hint) {
    h.len < TWO_64 && h.pos < TWO_64
  }

  ghost predicate HoldsHints(bytes: seq<byte>, hs: seq<Hint>) {
    (forall i :: 0 <= i < |hs| ==> OnDisk(hs[i])) && bytes == HintBytes(hs)
  }

  // ---------- appending ----------

  /** Appends entries to one file and keeps the position of the next byte. */
  class LogWriter {
    const dir: Directory
    const name: Name
    var pos: nat

    ghost predicate Valid()
      reads this, dir
    {
      name in dir.files && pos == |dir.files[name]|
    }

    /** Open a writer at the end of a file. */
    constructor (dir: Directory, name: Name)
      requires name in dir.files
      ensures Valid() && this.dir == dir && this.name == name
    {
      this.dir, this.name := dir, name;
      pos := |dir.files[name]|;
    }

    /** Write one entry at the end of the file and say where it went. */
    method Append<T>(code: Code<T>, entry: T) returns (index: LogIndex)
      requires Valid()
      modifies this, dir
      ensures Valid()
      ensures dir.files == old(dir.files)[name := old(dir.files[name]) + code.enc(entry)]
      ensures index == LogIndex(|code.enc(entry)|, |old(dir.files[name])|)
    {
      var start := pos;
      var encoded := code.enc(entry);
      dir.files := dir.files[name := dir.files[name] + encoded];
      pos := pos + |encoded|;
      index := LogIndex(pos - start, start);
    }
  }

  // ---------- reading from the start ----------

  /** The outcome of asking an iterator for its next entry. */
  datatype Step<+T> = Next(index: LogIndex, entry: T) | End | Broken

  /** Reads the entries of one file in order. */
  class LogIterator {
    const file: seq<byte>
    var pos: nat

    ghost predicate Valid()
      reads this
    {
      pos <= |file|
    }

    constructor (file: seq<byte>)
      ensures Valid() && this.file == file && pos == 0
    {
      this.file := file;
      pos := 0;
    }

    /** The entry at the current position, which is then left just behind that entry. At the end of
        the file, or in an entry that was cut short, there is none. What is still to be scanned
        shrinks by exactly the entry that is returned. */
    method Advance<T>(code: Code<T>) returns (step: Step<T>)
      requires Valid()
      requires forall s :: code.dec(s).Got? ==> 0 < code.dec(s).size <= |s|
      modifies this
      ensures Valid()
      ensures step.Next? ==> Scan(code, file[old(pos)..]) == [step.entry] + Scan(code, file[pos..])
      ensures step.Next? ==> old(pos) < pos && step.index == LogIndex(pos - old(pos), old(pos))
      ensures step.Next? ==> code.dec(file[old(pos)..]) == Got(step.entry, pos - old(pos))
      ensures step.Next? ==> Readable(code, file[old(pos)..]) == Readable(code, file[pos..])
      ensures !step.Next? ==> Scan(code, file[pos..]) == [] && pos == old(pos)
      ensures !step.Next? ==> (step.End? <==> Readable(code, file[pos..]))
    {
      var start := pos;
      match code.dec(file[pos..]) {
        case Got(t, n) =>
          assert file[pos..][n..] == file[pos + n..];
          pos := pos + n;
          step := Next(LogIndex(pos - start, start), t);
        case Eof =>
          step := End;
        case Corrupt =>
          step := Broken;
      }
    }
  }

  // ---------- reading at a place ----------

  /** The length of the mapping that a read at `pos` uses: the old one if it reaches that far, else
      one of the whole file. */
  function Remap(mapped: nat, pos: nat, size: nat): nat {
    if pos >= mapped then size else mapped
  }

  lemma RemapReaches(rs: seq<Record>, mapped: nat, pos: nat, r: Record)
    requires Boundary(rs, mapped) && Find(rs, pos) == Some(r)
    ensures var m := Remap(mapped, pos, Total(rs));
            pos + Size(r) <= m <= Total(rs) && Boundary(rs, m)
  {
    WholeIsBoundary(rs);
    if pos < mapped {
      RecordBeforeBoundary(rs, mapped, pos);
    }
  }

  lemma PrefixSlice(file: seq<byte>, m: nat, pos: nat, len: nat)
    requires pos + len <= m <= |file|
    ensures file[..m][pos..pos + len] == file[pos..pos + len]
  {
  }

  /** A mapping that ends where a record ends is long enough: after the test, the record at `pos` lies
      within the mapping, and the slice of the mapping is the record. */
  lemma MappingSuffices(rs: seq<Record>, mapped: nat, pos: nat, r: Record)
    requires Boundary(rs, mapped) && Find(rs, pos) == Some(r)
    ensures var m := Remap(mapped, pos, Total(rs));
            && pos + Size(r) <= m <= Total(rs) && Boundary(rs, m)
            && FileBytes(rs)[..m][pos..pos + Size(r)] == EncodeRecord(r)
  {
    RemapReaches(rs, mapped, pos, r);
    SliceHoldsRecord(rs, pos);
    PrefixSlice(FileBytes(rs), Remap(mapped, pos, Total(rs)), pos, Size(r));
  }

  /** What a mapping of a file shows: its first records, or all of them and what else a file holds that was
      cut short. */
  ghost predicate FitsView(rs: seq<Record>, view: seq<byte>, cut: bool) {
    || (view <= FileBytes(rs) && Boundary(rs, |view|))
    || (cut && FileBytes(rs) <= view)
  }

  /** A record whose place lies within such a mapping lies within it as a whole. */
  lemma ViewHolds(rs: seq<Record>, view: seq<byte>, pos: nat, r: Record, end: nat, cut: bool)
    requires FitsView(rs, view, cut) && Find(rs, pos) == Some(r) && pos < |view| && end == pos + Size(r)
    ensures end <= |view| && view[pos..end] == EncodeRecord(r)
  {
    SliceHoldsRecord(rs, pos);
    if view <= FileBytes(rs) && Boundary(rs, |view|) {
      RecordBeforeBoundary(rs, |view|, pos);
      SlicesAgree(view, FileBytes(rs), pos, end);
    } else {
      SlicesAgree(FileBytes(rs), view, pos, end);
    }
  }

  lemma SlicesAgree(a: seq<byte>, b: seq<byte>, pos: nat, end: nat)
    requires a <= b && pos <= end <= |a|
    ensures a[pos..end] == b[pos..end]
  {
  }

  /** All of a file is such a mapping. */
  lemma FileIsView(files: Files, d: Disk, first: FileId, f: FileId)
    requires Holds(files, d, first) && f in d.data
    ensures FitsView(d.data[f], files[DataFile(f)], f < first) && Total(d.data[f]) <= |files[DataFile(f)]|
  {
    assert FileHolds(files, d, first, f);
    WholeIsBoundary(d.data[f]);
  }

  /** A bounded cache of mappings: the bytes that each one shows. Files with ids from `first` on were made
      since the directory was opened. */
  class LogDir {
    const capacity: nat
    const first: FileId
    var cache: map<FileId, seq<byte>>

    constructor (capacity: nat, first: FileId)
      requires capacity > 0
      ensures cache == map[] && this.capacity == capacity && this.first == first
    {
      this.capacity, this.first := capacity, first;
      cache := map[];
    }

    /** Every mapping of a file that exists ends where a record of it ends, or covers all of a file that
        was there before. */
    ghost predicate Fits(d: Disk)
      reads this
    {
      forall f :: FileFits(d, f)
    }

    ghost predicate FileFits(d: Disk, f: FileId)
      reads this
    {
      f in cache && f in d.data ==> FitsView(d.data[f], cache[f], f < first)
    }

    /** Mappings fit a directory that has the mapped files as they were, or not at all. */
    lemma StillFits(d: Disk, e: Disk)
      requires Fits(d) && forall f :: f in cache && f in e.data ==> f in d.data && e.data[f] == d.data[f]
      ensures Fits(e)
    {
      forall f: FileId
        ensures FileFits(e, f)
      {
        assert FileFits(d, f);
      }
    }

    /** The bytes of the record at a place. The mapping is made when there is none and made again when
        it does not reach the place; a full cache forgets any of its mappings. */
    method Slice(dir: Directory, ghost d: Disk, f: FileId, pos: nat, len: nat, ghost r: Record)
      returns (bytes: seq<byte>)
      requires Holds(dir.files, d, first) && Fits(d)
      requires f in d.data && Find(d.data[f], pos) == Some(r) && len == Size(r)
      modifies this
      ensures Fits(d) && bytes == EncodeRecord(r)
      ensures cache.Keys <= old(cache.Keys) + {f}
    {
      ghost var rs := d.data[f];
      var file := dir.files[DataFile(f)];
      var mapped := if f in cache then cache[f] else file;
      if pos >= |mapped| {
        mapped := file;
      }
      assert FileFits(d, f);
      FileIsView(dir.files, d, first, f);
      PlaceWithin(rs, pos, r);
      ViewHolds(rs, mapped, pos, r, pos + len, f < first);
      bytes := mapped[pos..pos + len];
      Keep(d, f, mapped);
    }

    /** Keep a mapping; a full cache forgets another. */
    method Keep(ghost d: Disk, f: FileId, mapped: seq<byte>)
      requires Fits(d) && (f in d.data ==> FitsView(d.data[f], mapped, f < first))
      modifies this
      ensures Fits(d) && cache.Keys <= old(cache.Keys) + {f}
    {
      ghost var before := cache;
      assert forall g :: FileFits(d, g);
      if f !in cache && |cache| >= capacity && |cache| > 0 {
        var victim :| victim in cache;
        cache := cache - {victim};
      }
      cache := cache[f := mapped];
      forall g: FileId
        ensures FileFits(d, g)
      {
        assert old(FileFits(d, g));
      }
    }
  }

  lemma PlaceWithin(rs: seq<Record>, pos: nat, r: Record)
    requires Find(rs, pos) == Some(r)
    ensures pos + Size(r) <= Total(rs)
  {
    WholeIsBoundary(rs);
    SliceHoldsRecord(rs, pos);
  }
}
