/**
 Opening and closing a directory, and reading from it: the loops that rebuild the index and the
 statistics from hint files and data files, tied to the replay of the directory.
 */
module Opening {
  import opened Types
  import opened Framing
  import opened LogCodec
  import opened LogFile
  import opened KeyDir
  import opened Store
  import opened Recovery
  import opened FileIds
  import opened Log
  import opened Writer

  /** What the files of a directory read back as: the complete entries at the front of each. */
  ghost predicate ReadsAs(files: Files, d: Disk) {
    && (forall f :: DataFile(f) in files <==> f in d.data)
    && (forall f :: f in d.data ==> d.data[f] == Scan(RecordCode(), files[DataFile(f)]))
    && (forall f :: HintFile(f) in files <==> f in d.hint)
    && (forall f :: f in d.hint ==> d.hint[f] == Scan(HintCode(), files[HintFile(f)]))
  }

  /** The file that is replayed for this id holds no bytes that are no entry. */
  ghost predicate FileReadable(files: Files, f: FileId) {
    if HintFile(f) in files then Readable(HintCode(), files[HintFile(f)])
    else DataFile(f) in files && Readable(RecordCode(), files[DataFile(f)])
  }

  ghost predicate AllReadable(files: Files, d: Disk) {
    forall f :: f in d.data ==> FileReadable(files, f)
  }

  /** A directory written by the engine reads back as what it holds. */
  lemma HeldReads(files: Files, d: Disk, first: FileId)
    requires Holds(files, d, first)
    ensures ReadsAs(files, d) && AllReadable(files, d)
  {
    forall f | f in d.data
      ensures d.data[f] == Scan(RecordCode(), files[DataFile(f)]) && Readable(RecordCode(), files[DataFile(f)])
    {
      assert FileHolds(files, d, first, f);
      if f < first {
        HeldFileReads(files[DataFile(f)], d.data[f]);
      } else {
        DataFileReads(d.data[f]);
      }
    }
    forall f | f in d.hint
      ensures d.hint[f] == Scan(HintCode(), files[HintFile(f)]) && Readable(HintCode(), files[HintFile(f)])
    {
      assert FileHolds(files, d, first, f);
      HintFileReads(d.hint[f]);
    }
  }

  lemma HeldFileReads(file: seq<byte>, rs: seq<Record>)
    requires Held(file, rs)
    ensures Scan(RecordCode(), file) == rs && Readable(RecordCode(), file)
  {
    var n := Total(rs);
    assert file == FileBytes(rs) + file[n..];
    CutRecordIsNotRead(rs, file[n..]);
  }

  // ---------- one entry ----------

  /** Take one log entry into index and statistics, as all the loops below do. */
  method Take(index: Index, stats: Stats, ev: Event) returns (index': Index, stats': Stats)
    ensures Catalog(index', stats') == Apply(Catalog(index, stats), ev)
  {
    var f := ev.entry.fileid;
    var count := StatOf(stats, f);
    stats' := stats[f := if ev.live then count.AddLive() else count.AddDead(ev.entry.len)];
    if ev.key in index {
      var prev := index[ev.key];
      stats' := stats'[prev.fileid := StatOf(stats', prev.fileid).Overwrite(prev.len)];
    }
    index' := if ev.live then index[ev.key := ev.entry] else index - {ev.key};
  }

  lemma ReplaySnoc(c: Catalog, evs: seq<Event>, ev: Event)
    ensures ReplayFrom(c, evs + [ev]) == Apply(ReplayFrom(c, evs), ev)
  {
    assert (evs + [ev])[..|evs|] == evs;
  }

  lemma DataStep(c: Catalog, f: FileId, done: seq<Record>, r: Record)
    ensures ReplayFrom(c, DataEvents(f, done + [r]))
         == Apply(ReplayFrom(c, DataEvents(f, done)), EventOf(f, Total(done), r))
    ensures Total(done + [r]) == Total(done) + Size(r)
  {
    TotalSnoc(done, r);
    assert (done + [r])[..|done|] == done;
    ReplaySnoc(c, DataEvents(f, done), EventOf(f, Total(done), r));
  }

  lemma HintStep(c: Catalog, f: FileId, done: seq<Hint>, h: Hint)
    ensures ReplayFrom(c, HintEvents(f, done + [h])) == Apply(ReplayFrom(c, HintEvents(f, done)), HintEvent(f, h))
  {
    assert (done + [h])[..|done|] == done;
    ReplaySnoc(c, HintEvents(f, done), HintEvent(f, h));
  }

  // ---------- one file ----------

  /** The iterator stands behind the entries `done` and sees the rest of the file. */
  ghost predicate Behind<T>(code: Code<T>, entries: LogIterator, done: seq<T>)
    reads entries
  {
    && entries.Valid()
    && Scan(code, entries.file) == done + Scan(code, entries.file[entries.pos..])
    && Readable(code, entries.file) == Readable(code, entries.file[entries.pos..])
  }

  method Start<T>(code: Code<T>, file: seq<byte>) returns (entries: LogIterator)
    ensures fresh(entries) && entries.file == file && entries.pos == 0 && Behind(code, entries, [])
  {
    entries := new LogIterator(file);
    assert file[0..] == file;
  }

  method NextEntry<T>(code: Code<T>, entries: LogIterator, ghost done: seq<T>) returns (step: Step<T>)
    requires Behind(code, entries, done)
    requires forall s :: code.dec(s).Got? ==> 0 < code.dec(s).size <= |s|
    modifies entries
    ensures step.Next? ==> Behind(code, entries, done + [step.entry])
    ensures step.Next? ==> old(entries.pos) < entries.pos
    ensures step.Next? ==> step.index == LogIndex(entries.pos - old(entries.pos), old(entries.pos))
    ensures step.Next? ==> code.dec(entries.file[old(entries.pos)..]) == Got(step.entry, step.index.len)
    ensures !step.Next? ==> Scan(code, entries.file) == done
    ensures !step.Next? ==> (step.End? <==> Readable(code, entries.file))
  {
    step := entries.Advance(code);
    if step.Next? {
      assert done + ([step.entry] + Scan(code, entries.file[entries.pos..]))
          == (done + [step.entry]) + Scan(code, entries.file[entries.pos..]);
    }
  }

  method NextRecord(entries: LogIterator, ghost done: seq<Record>) returns (step: Step<Record>)
    requires Behind(RecordCode(), entries, done) && entries.pos == Total(done)
    modifies entries
    ensures step.Next? ==> Behind(RecordCode(), entries, done + [step.entry])
    ensures step.Next? ==> step.index == LogIndex(Size(step.entry), Total(done))
    ensures step.Next? ==> old(entries.pos) < entries.pos == Total(done + [step.entry])
    ensures !step.Next? ==> Scan(RecordCode(), entries.file) == done
    ensures !step.Next? ==> (step.End? <==> Readable(RecordCode(), entries.file))
  {
    ghost var rest := entries.file[entries.pos..];
    step := NextEntry(RecordCode(), entries, done);
    if step.Next? {
      RecordSize(rest, step.entry, step.index.len);
      TotalSnoc(done, step.entry);
    }
  }

  lemma RecordSize(s: seq<byte>, r: Record, n: nat)
    requires RecordCode().dec(s) == Got(r, n)
    ensures n == Size(r)
  {
    ReadWasWritten(s, r, n);
  }

  /** Replay a data file. It fails only on bytes that are no entry, not on an entry that is cut short. */
  method PopulateWithDatafile(file: seq<byte>, f: FileId, index: Index, stats: Stats)
    returns (ok: bool, index': Index, stats': Stats)
    ensures ok == Readable(RecordCode(), file)
    ensures var evs := DataEvents(f, Scan(RecordCode(), file));
            ok ==> Catalog(index', stats') == ReplayFrom(Catalog(index, stats), evs)
  {
    index', stats' := index, stats;
    var entries := Start(RecordCode(), file);
    ghost var done: seq<Record> := [];
    while true
      invariant fresh(entries) && entries.file == file
      invariant Behind(RecordCode(), entries, done) && entries.pos == Total(done)
      invariant Catalog(index', stats') == ReplayFrom(Catalog(index, stats), DataEvents(f, done))
      decreases |file| - entries.pos
    {
      var step := NextRecord(entries, done);
      if !step.Next? {
        return step.End?, index', stats';
      }
      index', stats' := Take(index', stats', EventOf(f, step.index.pos, step.entry));
      DataStep(Catalog(index, stats), f, done, step.entry);
      done := done + [step.entry];
    }
  }

  /** Replay a hint file. */
  method PopulateWithHintfile(file: seq<byte>, f: FileId, index: Index, stats: Stats)
    returns (ok: bool, index': Index, stats': Stats)
    ensures ok == Readable(HintCode(), file)
    ensures var evs := HintEvents(f, Scan(HintCode(), file));
            ok ==> Catalog(index', stats') == ReplayFrom(Catalog(index, stats), evs)
  {
    index', stats' := index, stats;
    var entries := Start(HintCode(), file);
    ghost var done: seq<DiskHint> := [];
    while true
      invariant fresh(entries) && entries.file == file && Behind(HintCode(), entries, done)
      invariant Catalog(index', stats') == ReplayFrom(Catalog(index, stats), HintEvents(f, done))
      decreases |file| - entries.pos
    {
      var step := NextEntry(HintCode(), entries, done);
      if !step.Next? {
        return step.End?, index', stats';
      }
      index', stats' := Take(index', stats', HintEvent(f, step.entry));
      HintStep(Catalog(index, stats), f, done, step.entry);
      done := done + [step.entry];
    }
  }

  // ---------- all files ----------

  function DataIds(files: Files): set<FileId> {
    set n | n in files.Keys && n.DataFile? :: n.id
  }

  /** Between two neighbours in the sorted ids there is no file. */
  lemma {:induction false} EventsSkip(d: Disk, m: nat, n: nat)
    requires m <= n && forall f :: m <= f < n ==> f !in d.data
    ensures EventsBelow(d, n) == EventsBelow(d, m)
  {
    if m < n {
      EventsSkip(d, m, n - 1);
    }
  }

  /** The next file in the sorted ids adds its entries to the replay. */
  lemma NextFile(d: Disk, m: nat, f: FileId, n: nat, c: Catalog)
    requires m <= f && n == f + 1 && f in d.data && (forall g :: m <= g < f ==> g !in d.data)
    requires c == Replay(EventsBelow(d, m))
    ensures ReplayFrom(c, FileEvents(d, f)) == Replay(EventsBelow(d, n))
  {
    EventsSkip(d, m, f);
    EventsStep(d, f, n);
    ReplayConcat(EventsBelow(d, f), FileEvents(d, f));
  }

  lemma EventsStep(d: Disk, f: FileId, n: nat)
    requires n == f + 1
    ensures EventsBelow(d, n) == EventsBelow(d, f) + FileEvents(d, f)
  {
  }

  /** Replay one file: its hint file when there is one, else its data file. */
  method PopulateFrom(dir: Directory, ghost d: Disk, f: FileId, index: Index, stats: Stats)
    returns (ok: bool, index': Index, stats': Stats)
    requires ReadsAs(dir.files, d) && f in d.data
    ensures ok ==> Catalog(index', stats') == ReplayFrom(Catalog(index, stats), FileEvents(d, f))
    ensures f !in d.hint ==> ok == Readable(RecordCode(), dir.files[DataFile(f)])
    ensures f in d.hint ==> ok == Readable(HintCode(), dir.files[HintFile(f)])
  {
    if HintFile(f) in dir.files {
      ok, index', stats' := PopulateWithHintfile(dir.files[HintFile(f)], f, index, stats);
    } else {
      ok, index', stats' := PopulateWithDatafile(dir.files[DataFile(f)], f, index, stats);
    }
  }

  /** The ids of the data files of `d`, in ascending order. */
  ghost predicate Lists(ids: seq<FileId>, d: Disk) {
    && (forall f :: f in ids <==> f in d.data)
    && (forall a, b :: 0 <= a < b < |ids| ==> ids[a] < ids[b])
  }

  /** The first id that is free after the first `i` files. */
  function FreeAfter(ids: seq<FileId>, i: nat): FileId
    requires i <= |ids|
  {
    if i == 0 then 0 else ids[i - 1] + 1
  }

  /** Replay the next file of the list. */
  method PopulateNext(dir: Directory, ghost d: Disk, ids: seq<FileId>, i: nat, free: FileId, index: Index, stats: Stats)
    returns (ok: bool, index': Index, stats': Stats, free': FileId)
    requires ReadsAs(dir.files, d) && Lists(ids, d) && i < |ids| && free == FreeAfter(ids, i)
    requires Catalog(index, stats) == Replay(EventsBelow(d, free))
    ensures ok == FileReadable(dir.files, ids[i]) && free' == FreeAfter(ids, i + 1)
    ensures ok ==> Catalog(index', stats') == Replay(EventsBelow(d, free'))
  {
    var f := ids[i];
    assert f in ids;
    ok, index', stats' := PopulateFrom(dir, d, f, index, stats);
    free' := f + 1;
    NoneBetween(ids, i, free, d);
    NextFile(d, free, f, free', Catalog(index, stats));
  }

  /** Read a directory: replay the files in ascending order of their ids, and find the first free id.
      It fails exactly when a file that is replayed holds bytes that are no entry. */
  method RebuildStorage(dir: Directory, ghost d: Disk)
    returns (ok: bool, index: Index, stats: Stats, active: FileId)
    requires ReadsAs(dir.files, d)
    ensures ok == AllReadable(dir.files, d)
    ensures ok ==> Catalog(index, stats) == Rebuild(d) && active == NextId(d.data.Keys)
  {
    hide FileReadable, ReadsAs, Replay, EventsBelow;
    var ids := Ascending(DataIds(dir.files));
    IdsAreListed(dir.files, d, ids);
    index, stats, active, ok := map[], map[], 0, true;
    NothingReplays(d, active, Catalog(index, stats));
    for i := 0 to |ids|
      invariant ok && active == FreeAfter(ids, i)
      invariant Catalog(index, stats) == Replay(EventsBelow(d, active))
      invariant forall j :: 0 <= j < i ==> FileReadable(dir.files, ids[j])
    {
      ok, index, stats, active := PopulateNext(dir, d, ids, i, active, index, stats);
      if !ok {
        OneUnreadable(dir.files, d, ids, i);
        return;
      }
    }
    AllSeen(dir.files, d, ids, active);
  }

  lemma IdsAreListed(files: Files, d: Disk, ids: seq<FileId>)
    requires ReadsAs(files, d) && ids == Ascending(DataIds(files))
    ensures Lists(ids, d)
  {
    assert forall f :: f in DataIds(files) <==> DataFile(f) in files;
  }

  lemma NothingReplays(d: Disk, n: nat, c: Catalog)
    requires n == 0 && c == Catalog(map[], map[])
    ensures Replay(EventsBelow(d, n)) == c
  {
  }

  lemma OneUnreadable(files: Files, d: Disk, ids: seq<FileId>, i: nat)
    requires Lists(ids, d) && i < |ids| && !FileReadable(files, ids[i])
    ensures !AllReadable(files, d)
  {
    assert ids[i] in ids;
  }

  lemma NoneBetween(ids: seq<FileId>, i: nat, free: FileId, d: Disk)
    requires i < |ids| && free == FreeAfter(ids, i) && Lists(ids, d)
    ensures free <= ids[i] && forall g :: free <= g < ids[i] ==> g !in d.data
  {
    forall j | 0 <= j < |ids|
      ensures ids[j] < free || ids[i] <= ids[j]
    {
      if j < i {
        assert ids[j] <= ids[i - 1];
      }
    }
  }

  lemma AllSeen(files: Files, d: Disk, ids: seq<FileId>, free: FileId)
    requires Lists(ids, d) && free == FreeAfter(ids, |ids|)
    requires forall j :: 0 <= j < |ids| ==> FileReadable(files, ids[j])
    ensures free == NextId(d.data.Keys) && AllReadable(files, d)
  {
    forall f | f in d.data
      ensures f < free && FileReadable(files, f)
    {
      var j :| 0 <= j < |ids| && ids[j] == f;
    }
    if |ids| > 0 {
      assert ids[|ids| - 1] in ids;
    }
  }

  // ---------- opening and closing ----------

  /** Open a directory that the engine has written, whether or not files of it were cut short since:
      rebuild its state and start a new active file. */
  method OpenDirectory(dir: Directory, max: nat, cacheSize: nat, ghost d: Disk, ghost first: FileId)
    returns (writer: Writer)
    requires Holds(dir.files, d, first) && d.hint.Keys <= d.data.Keys && cacheSize > 0
    modifies dir
    ensures fresh(writer) && writer.Valid() && writer.dir == dir && writer.max == max
    ensures writer.Model() == Open(d)
  {
    HeldReads(dir.files, d, first);
    var ok, index, stats, active := RebuildStorage(dir, d);
    FirstFree(d, active);
    StillHolds(dir.files, d, first, active);
    CreateHolds(dir.files, d, active, active);
    dir.CreateNew(DataFile(active));
    var ctx := new Context(index);
    var readers := new LogDir(cacheSize, active);
    var log := new LogWriter(dir, DataFile(active));
    writer := new Writer(dir, ctx, readers, log, stats, active, max, Create(d, active));
  }

  /** Whole records are records with nothing cut short behind them. */
  lemma WholeIsHeld(file: seq<byte>, rs: seq<Record>)
    requires file == FileBytes(rs)
    ensures Held(file, rs)
  {
    assert file[Total(rs)..] == [];
    var r := Record(0, [], None);
    RecordTruncated(r, 0);
    assert EncodeRecord(r)[..0] == [];
  }

  /** For the next session all files are files that were there before. */
  lemma StillHolds(files: Files, d: Disk, first: FileId, next: FileId)
    requires Holds(files, d, first) && Above(d, next)
    ensures Holds(files, d, next)
  {
    forall f: FileId
      ensures FileHolds(files, d, next, f)
    {
      assert FileHolds(files, d, first, f);
      if f in d.data && f >= first {
        WholeIsHeld(files[DataFile(f)], d.data[f]);
      }
    }
  }

  /** When the file `f` is cut at byte `n`, the directory holds the records of it that end by then. */
  lemma CutHolds(files: Files, d: Disk, first: FileId, f: FileId, n: nat) returns (k: nat)
    requires Holds(files, d, first) && first <= f && f in d.data && n <= |files[DataFile(f)]| && Above(d, f + 1)
    ensures k <= |d.data[f]| && d.data[f][..k] == Scan(RecordCode(), files[DataFile(f)][..n])
    ensures Holds(files[DataFile(f) := files[DataFile(f)][..n]], Truncated(d, f, k), f + 1)
  {
    hide FileBytes, Scan;
    var rs, file := d.data[f], files[DataFile(f)];
    assert FileHolds(files, d, first, f);
    k := CutDataFile(rs, n);
    CutIsHeld(rs, n, k);
    var cut, e, next := files[DataFile(f) := file[..n]], Truncated(d, f, k), f + 1;
    forall g: FileId
      ensures FileHolds(cut, e, next, g)
    {
      assert FileHolds(files, d, first, g);
      if g != f && g in d.data && g >= first {
        WholeIsHeld(files[DataFile(g)], d.data[g]);
      }
    }
  }

  lemma CutIsHeld(rs: seq<Record>, n: nat, k: nat)
    requires n <= |FileBytes(rs)| && k <= |rs| && Total(rs[..k]) <= n && (k < |rs| ==> n < Total(rs[..k + 1]))
    ensures Held(FileBytes(rs)[..n], rs[..k])
  {
    FileStarts(rs, k);
    var m, file := Total(rs[..k]), FileBytes(rs)[..n];
    if k == |rs| {
      assert rs[..k] == rs && file == FileBytes(rs);
      WholeIsHeld(file, rs);
    } else {
      CutRecord(rs, n, k, m);
      assert file[..m] == FileBytes(rs)[..m];
    }
  }

  /** What is left of the record that was cut is the front of its bytes. */
  lemma CutRecord(rs: seq<Record>, n: nat, k: nat, m: nat)
    requires k < |rs| && m == Total(rs[..k]) <= n < Total(rs[..k + 1]) && n <= |FileBytes(rs)|
    ensures DecodeRecord(FileBytes(rs)[..n][m..]) == Eof
  {
    OneMoreTotal(rs, k);
    RecordSlice(rs, k, m, rs[k]);
    FrontIsNotRead(FileBytes(rs), n, m, m + Size(rs[k]), rs[k]);
  }

  lemma OneMoreTotal(rs: seq<Record>, k: nat)
    requires k < |rs|
    ensures Total(rs[..k + 1]) == Total(rs[..k]) + Size(rs[k])
  {
    assert rs[..k + 1] == rs[..k] + [rs[k]];
    TotalSnoc(rs[..k], rs[k]);
  }

  lemma FrontIsNotRead(file: seq<byte>, n: nat, m: nat, end: nat, r: Record)
    requires m <= n < end <= |file| && end == m + Size(r) && file[m..end] == EncodeRecord(r)
    ensures DecodeRecord(file[..n][m..]) == Eof
  {
    assert file[..n][m..] == file[m..end][..n - m];
    RecordTruncated(r, n - m);
  }

  lemma FileStarts(rs: seq<Record>, k: nat)
    requires k <= |rs|
    ensures Total(rs[..k]) <= |FileBytes(rs)| && FileBytes(rs)[..Total(rs[..k])] == FileBytes(rs[..k])
  {
    var a, b := rs[..k], rs[k..];
    assert rs == a + b;
    FileStartsWith(rs, a, b);
  }

  lemma FileStartsWith(rs: seq<Record>, a: seq<Record>, b: seq<Record>)
    requires rs == a + b
    ensures FileBytes(a) <= FileBytes(rs)
  {
    EncodeAllConcat(RecordCode(), a, b);
  }

  lemma FirstFree(d: Disk, active: FileId)
    requires active == NextId(d.data.Keys) && d.hint.Keys <= d.data.Keys
    ensures active !in d.data && IdsOk(Create(d, active), active)
  {
    assert active !in d.hint.Keys;
  }

  /** Closing removes the active file if nothing was written to it. */
  method CloseWriter(writer: Writer)
    requires writer.Valid()
    modifies writer.dir
    ensures Holds(writer.dir.files, Close(writer.Model()), writer.readers.first)
  {
    CloseHolds(writer.dir.files, writer.Model(), writer.readers.first);
    if writer.written == 0 {
      writer.dir.Remove(DataFile(writer.active));
    }
  }

  lemma CloseHolds(files: Files, s: Store, first: FileId)
    requires Holds(files, s.disk, first) && s.active !in s.disk.hint
    ensures Holds(if s.written == 0 then files - {DataFile(s.active)} else files, Close(s), first)
  {
    var left, d := if s.written == 0 then files - {DataFile(s.active)} else files, Close(s);
    forall g: FileId
      ensures FileHolds(left, d, first, g)
    {
      assert FileHolds(files, s.disk, first, g);
    }
  }

  // ---------- reading ----------

  /** Looks keys up in the shared index and reads their records through its own cache of mappings. */
  class Reader {
    const ctx: Context
    const dir: Directory
    const readers: LogDir

    constructor (ctx: Context, dir: Directory, readers: LogDir)
      ensures this.ctx == ctx && this.dir == dir && this.readers == readers
    {
      this.ctx, this.dir, this.readers := ctx, dir, readers;
    }

    /** The value of a key, if it has one. */
    method Get(key: Bytes, ghost s: Store) returns (value: Option<Bytes>)
      requires Holds(dir.files, s.disk, readers.first) && s.index == ctx.keydir && AllPoint(s.disk, s.index)
      requires readers.Fits(s.disk)
      modifies readers
      ensures value == Machine.Get(s, key) && readers.Fits(s.disk)
      ensures readers.cache.Keys <= old(readers.cache.Keys) + s.disk.data.Keys
    {
      if key !in ctx.keydir {
        return None;
      }
      var e := ctx.keydir[key];
      assert Points(s.disk, key, e);
      ghost var r := Find(Content(s.disk, e.fileid), e.pos).value;
      var bytes := readers.Slice(dir, s.disk, e.fileid, e.pos, e.len, r);
      SliceDecodes(bytes, r);
      value := DecodeRecord(bytes).value.value;
    }
  }

  lemma SliceDecodes(bytes: seq<byte>, r: Record)
    requires bytes == EncodeRecord(r)
    ensures DecodeRecord(bytes) == Got(r, Size(r))
  {
    RecordCanonical(bytes, r, Size(r));
  }
}
