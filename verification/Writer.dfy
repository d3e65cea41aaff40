/**
 The writer: appends entries to the active file, keeps the index and the statistics up to date, and
 merges files. Every method is tied to the step of the state machine that it takes.
 */
module Writer {
  import opened Types
  import opened Framing
  import opened LogCodec
  import opened LogFile
  import opened KeyDir
  import opened Store
  import Machine = Store
  import opened Compaction
  import opened CompactionCopy
  import opened CompactionEffects
  import opened CompactionTheorems
  import opened FileIds
  import opened Log

  /** What writer and readers share. */
  class Context {
    var keydir: Index
    var closed: bool

    constructor (keydir: Index)
      ensures this.keydir == keydir && !closed
    {
      this.keydir := keydir;
      closed := false;
    }

    /** Point a key to an entry and say what it pointed to. */
    method KeydirSet(key: Bytes, entry: Entry) returns (prev: Option<Entry>)
      modifies this`keydir
      ensures keydir == old(keydir)[key := entry]
      ensures prev == if key in old(keydir) then Some(old(keydir)[key]) else None
    {
      prev := if key in keydir then Some(keydir[key]) else None;
      keydir := keydir[key := entry];
    }

    method KeydirRemove(key: Bytes) returns (prev: Option<Entry>)
      modifies this`keydir
      ensures keydir == old(keydir) - {key}
      ensures prev == if key in old(keydir) then Some(old(keydir)[key]) else None
    {
      prev := if key in keydir then Some(keydir[key]) else None;
      keydir := keydir - {key};
    }

    method Close()
      modifies this`closed
      ensures closed
    {
      closed := true;
    }
  }

  lemma AppendHolds(files: Files, d: Disk, first: FileId, f: FileId, r: Record)
    requires Holds(files, d, first) && f in d.data && first <= f
    ensures Holds(files[DataFile(f) := files[DataFile(f)] + EncodeRecord(r)], AppendTo(d, f, r), first)
  {
    var grown, e := files[DataFile(f) := files[DataFile(f)] + EncodeRecord(r)], AppendTo(d, f, r);
    FileGrows(d.data[f], r);
    forall g
      ensures FileHolds(grown, e, first, g)
    {
      assert FileHolds(files, d, first, g);
    }
  }

  lemma CreateHolds(files: Files, d: Disk, first: FileId, f: FileId)
    requires Holds(files, d, first)
    ensures Holds(files[DataFile(f) := []], Create(d, f), first)
  {
    var made, e := files[DataFile(f) := []], Create(d, f);
    forall g
      ensures FileHolds(made, e, first, g)
    {
      assert FileHolds(files, d, first, g);
    }
  }

  lemma HintsGrow(bytes: seq<byte>, hs: seq<Hint>, h: Hint)
    requires HoldsHints(bytes, hs) && OnDisk(h)
    ensures HoldsHints(bytes + EncodeHint(h), hs + [h])
  {
    var stored: seq<DiskHint> := hs;
    EncodeAllSnoc(HintCode(), stored, h);
  }

  lemma OutputHolds(files: Files, d: Disk, first: FileId, f: FileId)
    requires Holds(files, d, first)
    ensures Holds(files[DataFile(f) := []][HintFile(f) := []], NewOutput(d, f), first)
  {
    var made, e := files[DataFile(f) := []][HintFile(f) := []], NewOutput(d, f);
    forall g
      ensures FileHolds(made, e, first, g)
    {
      assert FileHolds(files, d, first, g);
    }
  }

  lemma PlaceHolds(files: Files, first: FileId, c: Copy, key: Bytes, e: Entry, r: Record, rule: HintRule)
    requires Holds(files, c.disk, first) && first <= c.file && c.file in c.disk.data && c.file in c.disk.hint
    requires OnDisk(CopyHint(c, key, e, rule))
    ensures Holds(files[DataFile(c.file) := files[DataFile(c.file)] + EncodeRecord(r)]
                       [HintFile(c.file) := files[HintFile(c.file)] + EncodeHint(CopyHint(c, key, e, rule))],
                  Place(c, key, e, r, rule).disk, first)
  {
    var h := CopyHint(c, key, e, rule);
    var grown := files[DataFile(c.file) := files[DataFile(c.file)] + EncodeRecord(r)];
    var all, p := grown[HintFile(c.file) := files[HintFile(c.file)] + EncodeHint(h)], Place(c, key, e, r, rule).disk;
    AppendHolds(files, c.disk, first, c.file, r);
    assert FileHolds(files, c.disk, first, c.file);
    HintsGrow(files[HintFile(c.file)], c.disk.hint[c.file], h);
    forall g
      ensures FileHolds(all, p, first, g)
    {
      assert FileHolds(grown, AppendTo(c.disk, c.file, r), first, g);
    }
  }

  lemma HintGone(files: Files, d: Disk, first: FileId, f: FileId)
    requires Holds(files, d, first)
    ensures Holds(files - {HintFile(f)}, Removed(d, {f}, {}), first)
  {
    var left, e := files - {HintFile(f)}, Removed(d, {f}, {});
    forall g
      ensures FileHolds(left, e, first, g)
    {
      assert FileHolds(files, d, first, g);
    }
  }

  lemma DataGone(files: Files, d: Disk, first: FileId, f: FileId)
    requires Holds(files, d, first)
    ensures Holds(files - {DataFile(f)}, Removed(d, {}, {f}), first)
  {
    var left, e := files - {DataFile(f)}, Removed(d, {}, {f});
    forall g
      ensures FileHolds(left, e, first, g)
    {
      assert FileHolds(files, d, first, g);
    }
  }

  /** The directory is one that the removals pass through: some of the files are gone, the oldest first,
      each hint file before its data file. */
  ghost predicate AtRemovalPoint(files: Files, d: Disk, ids: seq<FileId>, first: FileId) {
    exists j, hints, gone ::
      RemovalPoint(IdSet(ids), ids, j, hints, gone) && Holds(files, Removed(d, hints, gone), first)
  }

  lemma OneMoreId(ids: seq<FileId>, j: nat, gone: set<FileId>)
    requires j < |ids| && gone == IdSet(ids[..j])
    ensures gone + {ids[j]} == IdSet(ids[..j + 1])
  {
    assert ids[..j + 1] == ids[..j] + [ids[j]];
  }

  /** After the removals of the first `j` files the next hint file makes a removal point. */
  lemma PointsPassed(ids: seq<FileId>, j: nat, gone: set<FileId>)
    requires Sorted(ids) && j < |ids| && gone == IdSet(ids[..j])
    ensures RemovalPoint(IdSet(ids), ids, j, gone + {ids[j]}, gone)
  {
  }

  /** The removals of the first `j` files lead to a removal point. */
  lemma AfterRemovals(ids: seq<FileId>, j: nat, files: Files, d: Disk, gone: set<FileId>, first: FileId)
    requires Sorted(ids) && j <= |ids| && gone == IdSet(ids[..j]) && Holds(files, Removed(d, gone, gone), first)
    ensures AtRemovalPoint(files, d, ids, first)
  {
    assert RemovalPoint(IdSet(ids), ids, j, gone, gone);
  }

  /** The counters of a file with one more record. */
  function Counted(stats: Stats, f: FileId, r: Record): Stat {
    var count := StatOf(stats, f);
    if r.value.Some? then count.AddLive() else count.AddDead(Size(r))
  }

  lemma AppendIs(s: Store, r: Record)
    ensures Append(s, r)
         == Store(AppendTo(s.disk, s.active, r), s.index, s.stats[s.active := Counted(s.stats, s.active, r)],
                  s.active, s.written + Size(r))
    ensures NextEvent(s, r).entry == Entry(s.active, Size(r), Total(Content(s.disk, s.active)), r.tstamp)
  {
  }

  lemma AppendIds(d: Disk, active: FileId, r: Record)
    requires IdsOk(d, active)
    ensures IdsOk(AppendTo(d, active, r), active)
  {
  }

  lemma HintRemoved(d: Disk, gone: set<FileId>, f: FileId)
    ensures Removed(Removed(d, gone, gone), {f}, {}) == Removed(d, gone + {f}, gone)
  {
  }

  lemma DataRemoved(d: Disk, gone: set<FileId>, f: FileId)
    ensures Removed(Removed(d, gone + {f}, gone), {}, {f}) == Removed(d, gone + {f}, gone + {f})
  {
  }

  lemma RepointOne(index: Index, plan: Index, done: set<Bytes>, more: set<Bytes>, key: Bytes)
    requires key in plan && more == done + {key}
    ensures Repointed(index, plan, done)[key := plan[key]] == Repointed(index, plan, more)
  {
  }

  /** Positions and lengths are 64-bit numbers. */
  ghost predicate PositionsFit(index: Index) {
    forall k :: k in index ==> index[k].pos < TWO_64 && index[k].len < TWO_64
  }

  lemma NextIsUnused(d: Disk, active: FileId, next: FileId)
    requires IdsOk(d, active) && next == active + 1
    ensures next !in d.data && next !in d.hint && Above(d, next) && d.hint.Keys <= d.data.Keys
  {
    assert next !in d.hint.Keys;
  }

  lemma AppendFits(readers: LogDir, d: Disk, f: FileId, r: Record)
    requires readers.Fits(d) && f in d.data && readers.first <= f
    ensures readers.Fits(AppendTo(d, f, r))
  {
    var e := AppendTo(d, f, r);
    forall g: FileId
      ensures readers.FileFits(e, g)
    {
      assert readers.FileFits(d, g);
      if g == f && f in readers.cache {
        BoundaryGrows(d.data[f], [r], |readers.cache[f]|);
        FileGrows(d.data[f], r);
      }
    }
  }

  class Writer {
    const dir: Directory
    const ctx: Context
    const readers: LogDir
    const max: nat
    var log: LogWriter
    var stats: Stats
    var active: FileId
    var written: nat
    ghost var disk: Disk

    ghost predicate Valid()
      reads this`log, this`active, this`disk, dir, log, readers
    {
      && log.dir == dir && log.name == DataFile(active)
      && Holds(dir.files, disk, readers.first) && IdsOk(disk, active) && readers.first <= active
      && log.Valid()
      && readers.Fits(disk) && (forall f :: f in readers.cache ==> f <= active)
    }

    /** A writer for a directory that has been read, with a new active file. */
    constructor (dir: Directory, ctx: Context, readers: LogDir, log: LogWriter, stats: Stats, active: FileId,
                 max: nat, ghost disk: Disk)
      requires log.dir == dir && log.name == DataFile(active) && log.Valid()
      requires Holds(dir.files, disk, readers.first) && IdsOk(disk, active)
      requires readers.first <= active && readers.cache == map[]
      ensures Valid() && this.dir == dir && this.ctx == ctx && this.max == max
      ensures Model() == Store(disk, ctx.keydir, stats, active, 0)
    {
      this.dir, this.ctx, this.readers, this.log, this.max := dir, ctx, readers, log, max;
      this.stats, this.active, this.written, this.disk := stats, active, 0, disk;
    }

    /** The state machine's view of the writer. */
    ghost function Model(): Store
      reads this, ctx
    {
      Store(disk, ctx.keydir, stats, active, written)
    }

    /** Go on to a new active file. */
    method NewActiveDatafile(f: FileId)
      requires Holds(dir.files, disk, readers.first) && f !in disk.data && f !in disk.hint
      requires readers.first <= f && Above(disk, f) && disk.hint.Keys <= disk.data.Keys
      requires readers.Fits(disk) && (forall g :: g in readers.cache ==> g < f)
      modifies this, dir
      ensures Valid() && fresh(log)
      ensures Model() == NewActive(old(Model()), f)
    {
      dir.CreateNew(DataFile(f));
      CreateHolds(old(dir.files), disk, readers.first, f);
      readers.StillFits(disk, Create(disk, f));
      disk := Create(disk, f);
      active := f;
      log := new LogWriter(dir, DataFile(f));
      written := 0;
    }

    /** Append a record to the active file. */
    method AppendEntry(r: Record) returns (index: LogIndex)
      requires Valid()
      modifies this`disk, dir, log
      ensures Valid()
      ensures disk == AppendTo(old(disk), active, r)
      ensures index == LogIndex(Size(r), Total(Content(old(disk), active)))
    {
      assert FileHolds(dir.files, disk, readers.first, active);
      index := log.Append(RecordCode(), r);
      AppendHolds(old(dir.files), disk, readers.first, active, r);
      AppendFits(readers, disk, active, r);
      AppendIds(disk, active, r);
      disk := AppendTo(disk, active, r);
    }

    /** Append a record and count it. */
    method AppendCounted(r: Record) returns (entry: Entry)
      requires Valid()
      modifies this`disk, this`written, this`stats, dir, log
      ensures Valid()
      ensures entry == NextEvent(old(Model()), r).entry
      ensures Model() == Append(old(Model()), r)
    {
      AppendIs(Model(), r);
      var index := AppendEntry(r);
      written := written + index.len;
      var count := StatOf(stats, active);
      stats := stats[active := if r.value.Some? then count.AddLive() else count.AddDead(index.len)];
      entry := Entry(active, index.len, index.pos, r.tstamp);
    }

    /** Rotate the active file when it is full. */
    method RotateIfFull()
      requires Valid()
      modifies this, dir
      ensures Valid() && (log == old(log) || fresh(log))
      ensures Model() == Rotate(old(Model()), max)
    {
      if written > max {
        var next := active + 1;
        NextIsUnused(disk, active, next);
        NewActiveDatafile(next);
      }
    }

    /** Append an entry to the active file, count it, and rotate the file when it is full. */
    method Write(r: Record) returns (entry: Entry)
      requires Valid()
      modifies this, dir, log
      ensures Valid() && (log == old(log) || fresh(log))
      ensures entry == NextEvent(old(Model()), r).entry
      ensures Model() == Rotate(Append(old(Model()), r), max)
    {
      entry := AppendCounted(r);
      RotateIfFull();
    }

    /** Count the entry that a key pointed to before as dead. */
    method Overwrite(prev: Option<Entry>)
      modifies this`stats
      ensures stats == match prev
              case None => old(stats)
              case Some(e) => old(stats)[e.fileid := StatOf(old(stats), e.fileid).Overwrite(e.len)]
    {
      if prev.Some? {
        var e := prev.value;
        stats := stats[e.fileid := StatOf(stats, e.fileid).Overwrite(e.len)];
      }
    }

    /** Set the value of a key. */
    method Put(tstamp: i64, key: Bytes, value: Bytes)
      requires Valid()
      modifies this, dir, log, ctx`keydir
      ensures Valid() && (log == old(log) || fresh(log))
      ensures Model() == Machine.Put(old(Model()), tstamp, key, value, max)
    {
      var entry := Write(Record(tstamp, key, Some(value)));
      PointTo(key, entry);
    }

    method PointTo(key: Bytes, entry: Entry)
      modifies this`stats, ctx`keydir
      ensures ctx.keydir == old(ctx.keydir)[key := entry]
      ensures stats == Retire(old(ctx.keydir), old(stats), key)
    {
      var prev := ctx.KeydirSet(key, entry);
      Overwrite(prev);
    }

    /** Delete a key and say whether it was there. */
    method Delete(tstamp: i64, key: Bytes) returns (existed: bool)
      requires Valid()
      modifies this, dir, log, ctx`keydir
      ensures Valid() && (log == old(log) || fresh(log))
      ensures Model() == Machine.Delete(old(Model()), tstamp, key, max).0
      ensures existed == Machine.Delete(old(Model()), tstamp, key, max).1
    {
      var entry := Write(Record(tstamp, key, None));
      existed := PointNowhere(key);
    }

    method PointNowhere(key: Bytes) returns (existed: bool)
      modifies this`stats, ctx`keydir
      ensures ctx.keydir == old(ctx.keydir) - {key}
      ensures stats == Retire(old(ctx.keydir), old(stats), key)
      ensures existed == (key in old(ctx.keydir))
    {
      var prev := ctx.KeydirRemove(key);
      Overwrite(prev);
      existed := prev.Some?;
    }

    // ---------- merging ----------

    /** The copying phase has come this far: the directory, the statistics and the cache fit `c`. */
    ghost predicate Copying(s: Store, c: Copy)
      reads this`disk, this`stats, dir, ctx, readers
    {
      && disk == c.disk && Holds(dir.files, c.disk, readers.first) && stats == c.stats && ctx.keydir == s.index
      && OutputsOk(s, c) && readers.first <= s.active
      && readers.Fits(c.disk) && (forall f :: f in readers.cache ==> f <= s.active)
    }

    /** Copy the bytes of a record to the end of the output file. */
    method CopyRaw(ghost s: Store, ghost c: Copy, key: Bytes, e: Entry, file: FileId, ghost r: Record)
      requires Copying(s, c) && ToCopy(s, c, key, r) && e == s.index[key] && file == c.file
      modifies dir, readers
      ensures dir.files == old(dir.files)[DataFile(file) := old(dir.files[DataFile(file)]) + EncodeRecord(r)]
      ensures readers.Fits(c.disk) && (forall f :: f in readers.cache ==> f <= s.active)
    {
      assert Find(c.disk.data[e.fileid], e.pos) == Some(r);
      var bytes := readers.Slice(dir, c.disk, e.fileid, e.pos, e.len, r);
      dir.files := dir.files[DataFile(file) := dir.files[DataFile(file)] + bytes];
    }

    lemma PlaceFits(s: Store, c: Copy, key: Bytes, r: Record)
      requires OutputsOk(s, c) && key in s.index
      requires readers.Fits(c.disk) && (forall f :: f in readers.cache ==> f <= s.active)
      ensures readers.Fits(Place(c, key, s.index[key], r, AsWritten).disk)
    {
      readers.StillFits(c.disk, Place(c, key, s.index[key], r, AsWritten).disk);
    }

    lemma PlaceGives(files: Files, s: Store, c: Copy, key: Bytes, e: Entry, r: Record, p: Copy)
      requires ToCopy(s, c, key, r) && OutputsOk(s, c) && e == s.index[key] && p == Place(c, key, e, r, AsWritten)
      requires Holds(files, c.disk, readers.first) && readers.first <= s.active
      requires OnDisk(CopyHint(c, key, e, AsWritten))
      requires readers.Fits(c.disk) && (forall f :: f in readers.cache ==> f <= s.active)
      ensures OutputsOk(s, p) && readers.Fits(p.disk)
      ensures p.stats == c.stats[c.file := StatOf(c.stats, c.file).AddLive()]
      ensures Holds(files[DataFile(c.file) := files[DataFile(c.file)] + EncodeRecord(r)]
                         [HintFile(c.file) := files[HintFile(c.file)] + EncodeHint(CopyHint(c, key, e, AsWritten))],
                    p.disk, readers.first)
    {
      PlaceHolds(files, readers.first, c, key, e, r, AsWritten);
      PlaceOutputs(s, c, key, r, AsWritten);
      PlaceFits(s, c, key, r);
    }

    /** Copy one record, count it, and note it in the hint file as the code does: with the length and
        the position that the record had. */
    method PlaceRecord(ghost s: Store, ghost c: Copy, key: Bytes, e: Entry, file: FileId, pos: nat,
                       hints: LogWriter, ghost r: Record) returns (entry: Entry)
      requires Copying(s, c) && ToCopy(s, c, key, r) && e == s.index[key] && file == c.file && pos == c.pos
      requires hints.dir == dir && hints.name == HintFile(file) && hints.Valid()
      requires OnDisk(CopyHint(c, key, e, AsWritten))
      modifies this`disk, this`stats, dir, readers, hints
      ensures Copying(s, Place(c, key, e, r, AsWritten)) && hints.Valid()
      ensures entry == CopyEvent(c, key, e).entry
    {
      hide Holds, OutputsOk, Place;
      ghost var files := dir.files;
      CopyRaw(s, c, key, e, file, r);
      entry := Entry(file, e.len, pos, e.tstamp);
      stats := stats[file := StatOf(stats, file).AddLive()];
      var index := hints.Append(HintCode(), Hint(e.tstamp, e.len, e.pos, key));
      ghost var p := Place(c, key, e, r, AsWritten);
      PlaceGives(files, s, c, key, e, r, p);
      disk := p.disk;
    }

    /** Make an output file and its hint file. */
    method CreateOutput(next: FileId) returns (hints: LogWriter)
      requires Holds(dir.files, disk, readers.first) && next !in disk.data && next !in disk.hint
      modifies this`disk, dir
      ensures disk == NewOutput(old(disk), next) && Holds(dir.files, disk, readers.first)
      ensures fresh(hints) && hints.dir == dir && hints.name == HintFile(next) && hints.Valid()
    {
      dir.CreateNew(DataFile(next));
      dir.CreateNew(HintFile(next));
      OutputHolds(old(dir.files), disk, readers.first, next);
      disk := NewOutput(disk, next);
      hints := new LogWriter(dir, HintFile(next));
    }

    lemma SwitchGives(s: Store, c: Copy, t: Copy, next: FileId)
      requires OutputsOk(s, c) && t == Switch(c, max) && c.pos > max && next == c.file + 1
      ensures OutputsOk(s, t) && t.stats == c.stats && t.file == next && t.pos == 0
      ensures t.disk == NewOutput(c.disk, next) && next !in c.disk.data && next !in c.disk.hint
    {
      SwitchOutputs(s, c, max);
    }

    lemma SwitchFits(s: Store, c: Copy, t: Copy)
      requires OutputsOk(s, c) && t == Switch(c, max)
      requires readers.Fits(c.disk) && (forall f :: f in readers.cache ==> f <= s.active)
      ensures readers.Fits(t.disk)
    {
      readers.StillFits(c.disk, t.disk);
    }

    /** Go on to the next output file when this one is full. */
    method SwitchIfFull(ghost s: Store, ghost c: Copy, ghost t: Copy, file: FileId, pos: nat, hints: LogWriter)
      returns (file': FileId, pos': nat, hints': LogWriter)
      requires Copying(s, c) && file == c.file && pos == c.pos && t == Switch(c, max)
      requires hints.dir == dir && hints.name == HintFile(file) && hints.Valid()
      modifies this`disk, dir
      ensures Copying(s, t) && file' == t.file && pos' == t.pos
      ensures hints'.dir == dir && hints'.name == HintFile(file') && hints'.Valid()
      ensures hints' == hints || fresh(hints')
    {
      file', pos', hints' := file, pos, hints;
      SwitchFits(s, c, t);
      if pos > max {
        file', pos' := file + 1, 0;
        SwitchGives(s, c, t, file');
        hints' := CreateOutput(file');
      }
    }

    lemma StartFits(s: Store, c: Copy)
      requires Running(s, max) && c == StartCopy(s)
      requires readers.Fits(s.disk) && (forall f :: f in readers.cache ==> f <= s.active)
      ensures readers.Fits(c.disk) && OutputsOk(s, c)
    {
      StartOutputs(s, max);
      readers.StillFits(s.disk, c.disk);
    }

    /** Copy the record of one key and go on to the next output file if it filled this one. */
    method CopyOne(ghost s: Store, ghost c: Copy, ghost t: Copy, key: Bytes, plan: Index, file: FileId, pos: nat,
                   hints: LogWriter, ghost r: Record)
      returns (plan': Index, file': FileId, pos': nat, hints': LogWriter)
      requires Copying(s, c) && ToCopy(s, c, key, r) && plan == c.plan && file == c.file && pos == c.pos
      requires hints.dir == dir && hints.name == HintFile(file) && hints.Valid()
      requires OnDisk(CopyHint(c, key, s.index[key], AsWritten))
      requires t == Switch(Place(c, key, s.index[key], r, AsWritten), max)
      modifies this`disk, this`stats, dir, readers, hints
      ensures Copying(s, t) && plan' == t.plan && file' == t.file && pos' == t.pos
      ensures hints'.dir == dir && hints'.name == HintFile(file') && hints'.Valid()
      ensures hints' == hints || fresh(hints')
    {
      var e := ctx.keydir[key];
      ghost var p := Place(c, key, e, r, AsWritten);
      var entry := PlaceRecord(s, c, key, e, file, pos, hints, r);
      plan' := plan[key := entry];
      file', pos', hints' := SwitchIfFull(s, p, t, file, pos + e.len, hints);
    }

    /** Make the first output. */
    method StartCopying(ghost s: Store, ghost c: Copy) returns (file: FileId, hints: LogWriter)
      requires Valid() && s == Model() && Running(s, max) && c == StartCopy(s)
      modifies this`disk, dir
      ensures Copying(s, c) && file == c.file
      ensures hints.dir == dir && hints.name == HintFile(file) && hints.Valid() && fresh(hints)
    {
      StartFits(s, c);
      file := active + 1;
      NextIsUnused(disk, active, file);
      hints := CreateOutput(file);
    }

    /** Copy the records of the given keys, one after the other. */
    method CopyRecords(ghost s: Store, order: seq<Bytes>) returns (plan: Index, file: FileId, ghost c: Copy)
      requires Valid() && s == Model() && Running(s, max)
      requires Distinct(order, s.index) && PositionsFit(s.index)
      modifies this`disk, this`stats, dir, readers
      ensures c == CopyAll(s, order, max, AsWritten) && Copying(s, c) && plan == c.plan && file == c.file
    {
      hide Holds, IdsOk, Running;
      c := StartCopy(s);
      var hints, pos;
      file, hints := StartCopying(s, c);
      plan, pos := map[], 0;
      for i := 0 to |order|
        invariant c == CopyAll(s, order[..i], max, AsWritten)
        invariant Copying(s, c) && plan == c.plan && file == c.file && pos == c.pos
        invariant hints.dir == dir && hints.name == HintFile(file) && hints.Valid() && fresh(hints)
      {
        ghost var r, t := CopyStep(s, order, i, c);
        plan, file, pos, hints := CopyOne(s, c, t, order[i], plan, file, pos, hints, r);
        c := t;
      }
      assert order[..|order|] == order;
    }

    /** What copying the next key does, in terms of its record. */
    lemma CopyStep(s: Store, order: seq<Bytes>, i: nat, c: Copy) returns (r: Record, t: Copy)
      requires Running(s, max) && Distinct(order, s.index) && i < |order|
      requires c == CopyAll(s, order[..i], max, AsWritten) && OutputsOk(s, c)
      ensures ToCopy(s, c, order[i], r)
      ensures t == Switch(Place(c, order[i], s.index[order[i]], r, AsWritten), max)
      ensures t == CopyAll(s, order[..i + 1], max, AsWritten)
    {
      r := NextToCopy(s, order, i, c, max, AsWritten);
      CopyAllStep(s, order, i, i + 1, max, AsWritten, c, r);
      t := CopyAll(s, order[..i + 1], max, AsWritten);
    }

    /** Point the index to the copies, in any order. */
    method Repoint(plan: Index, keys: seq<Bytes>)
      requires (forall k :: k in keys <==> k in plan)
      modifies ctx`keydir
      ensures ctx.keydir == old(ctx.keydir) + plan
    {
      ghost var before, done := ctx.keydir, {};
      for i := 0 to |keys|
        invariant done == set k | k in keys[..i]
        invariant ctx.keydir == Repointed(before, plan, done)
      {
        var key := keys[i];
        assert keys[..i + 1] == keys[..i] + [key];
        RepointOne(before, plan, done, done + {key}, key);
        done := done + {key};
        var prev := ctx.KeydirSet(key, plan[key]);
      }
      assert keys[..|keys|] == keys;
      assert before + plan == Repointed(before, plan, set k | k in keys);
    }

    method RemoveHint(id: FileId)
      requires Holds(dir.files, disk, readers.first)
      modifies this`disk, dir
      ensures Holds(dir.files, disk, readers.first) && disk == Removed(old(disk), {id}, {})
    {
      HintGone(dir.files, disk, readers.first, id);
      dir.Remove(HintFile(id));
      disk := Removed(disk, {id}, {});
    }

    method RemoveData(id: FileId)
      requires Holds(dir.files, disk, readers.first)
      modifies this`disk, dir
      ensures Holds(dir.files, disk, readers.first) && disk == Removed(old(disk), {}, {id})
    {
      DataGone(dir.files, disk, readers.first, id);
      dir.Remove(DataFile(id));
      disk := Removed(disk, {}, {id});
    }

    /** Remove one file that was merged, with its statistics: first its hint file. */
    method RemoveOne(ids: seq<FileId>, i: nat, ghost d: Disk, ghost gone: set<FileId>) returns (ghost between: Files)
      requires Sorted(ids) && i < |ids| && gone == IdSet(ids[..i])
      requires disk == Removed(d, gone, gone) && Holds(dir.files, disk, readers.first)
      modifies this`disk, this`stats, dir
      ensures disk == Removed(d, gone + {ids[i]}, gone + {ids[i]}) && Holds(dir.files, disk, readers.first)
      ensures stats == old(stats) - {ids[i]}
      ensures AtRemovalPoint(between, d, ids, readers.first)
    {
      var id := ids[i];
      stats := stats - {id};
      RemoveHint(id);
      HintRemoved(d, gone, id);
      PointsPassed(ids, i, gone);
      between := dir.files;
      assert AtRemovalPoint(between, d, ids, readers.first);
      RemoveData(id);
      DataRemoved(d, gone, id);
    }

    /** Remove the files that were merged, with their statistics: in ascending order, each hint file
        before its data file. The directories that this passes through are kept for the proofs. */
    method RemoveStale(ids: seq<FileId>, ghost d: Disk) returns (ghost passed: seq<Files>)
      requires Sorted(ids) && d == disk && Holds(dir.files, d, readers.first)
      modifies this`disk, this`stats, dir
      ensures var gone := IdSet(ids);
              && disk == Removed(d, gone, gone) && Holds(dir.files, disk, readers.first)
              && stats == old(stats) - gone
      ensures |passed| == 2 * |ids| && (|ids| > 0 ==> passed[|passed| - 1] == dir.files)
      ensures forall files :: files in passed ==> AtRemovalPoint(files, d, ids, readers.first)
    {
      hide AtRemovalPoint, Holds, Sorted;
      passed := [];
      ghost var gone: set<FileId> := {};
      for i := 0 to |ids|
        invariant gone == IdSet(ids[..i])
        invariant disk == Removed(d, gone, gone) && Holds(dir.files, disk, readers.first) && stats == old(stats) - gone
        invariant |passed| == 2 * i && (i > 0 ==> passed[|passed| - 1] == dir.files)
        invariant forall files :: files in passed ==> AtRemovalPoint(files, d, ids, readers.first)
      {
        ghost var between := RemoveOne(ids, i, d, gone);
        OneMoreId(ids, i, gone);
        gone := gone + {ids[i]};
        AfterRemovals(ids, i + 1, dir.files, d, gone, readers.first);
        passed := passed + [between, dir.files];
      }
      assert ids[..|ids|] == ids;
    }

    lemma MergedFits(s: Store, c: Copy, gone: set<FileId>, next: FileId)
      requires IdsOk(s.disk, s.active) && OutputsOk(s, c) && next == c.file + 1
      requires forall f :: f in gone ==> f <= s.active
      requires readers.Fits(c.disk) && (forall f :: f in readers.cache ==> f <= s.active)
      ensures var d := Removed(c.disk, gone, gone);
              && readers.Fits(d) && (forall f :: f in readers.cache ==> f < next)
              && next !in d.data && next !in d.hint && Above(d, next) && d.hint.Keys <= d.data.Keys
    {
      readers.StillFits(c.disk, Removed(c.disk, gone, gone));
      forall f | f in c.disk.hint
        ensures f in c.disk.data
      {
        assert f <= s.active ==> f in s.disk.hint.Keys;
      }
    }

    /** The second and third phase of a merge: point the index to the copies and remove the files. */
    method SwapFiles(ghost s: Store, ghost c: Copy, ids: seq<FileId>, keys: seq<Bytes>, plan: Index)
      returns (ghost passed: seq<Files>)
      requires Copying(s, c) && plan == c.plan && active == s.active && written == s.written
      requires Sorted(ids) && (forall k :: k in keys <==> k in plan)
      modifies this`disk, this`stats, dir, ctx`keydir
      ensures Holds(dir.files, disk, readers.first) && Model() == BeforeActive(s, c, IdSet(ids))
      ensures forall files :: files in passed ==> AtRemovalPoint(files, c.disk, ids, readers.first)
    {
      Repoint(plan, keys);
      passed := RemoveStale(ids, disk);
    }

    method FinishMerge(ghost s: Store, ghost c: Copy, ids: seq<FileId>, keys: seq<Bytes>, plan: Index, next: FileId)
      returns (ghost passed: seq<Files>)
      requires Copying(s, c) && plan == c.plan && active == s.active && written == s.written && next == c.file + 1
      requires Sorted(ids) && (forall k :: k in keys <==> k in plan)
      requires IdsOk(s.disk, s.active) && forall f :: f in IdSet(ids) ==> f <= s.active
      modifies this, dir, ctx`keydir
      ensures Valid() && fresh(log) && Model() == Finish(s, c, IdSet(ids), next)
      ensures forall files :: files in passed ==> AtRemovalPoint(files, c.disk, ids, readers.first)
    {
      MergedFits(s, c, IdSet(ids), next);
      passed := SwapFiles(s, c, ids, keys, plan);
      NewActiveDatafile(next);
    }

    lemma ReadyToFinish(s: Store, selected: set<FileId>, order: seq<Bytes>, c: Copy)
      requires Running(s, max) && Selects(s, selected, order) && c == CopyAll(s, order, max, AsWritten)
      ensures forall f :: f in selected ==> f <= s.active
      ensures forall k :: k in order <==> k in c.plan
    {
      SelectedAreOld(s, selected, max);
      CopiesAreMade(s, selected, order, c, max, AsWritten);
    }

    lemma MergeIsFinish(s: Store, selected: set<FileId>, order: seq<Bytes>, c: Copy, next: FileId)
      requires c == CopyAll(s, order, max, AsWritten) && next == c.file + 1
      ensures Finish(s, c, selected, next) == Compaction.Merge(s, selected, order, max, AsWritten)
    {
    }

    /** Copy the live records of the selected files to new files, point the index to the copies, remove
        the selected files in ascending order, and start a new active file. `order` and `keys` are the
        orders in which the index and the plan are walked. */
    method MergeFiles(ids: seq<FileId>, order: seq<Bytes>, keys: seq<Bytes>, ghost s: Store,
                      ghost selected: set<FileId>)
      returns (ghost passed: seq<Files>)
      requires Valid() && s == Model() && selected == IdSet(ids) && Sorted(ids)
      requires Running(s, max) && Selects(s, selected, order) && PositionsFit(s.index)
      requires forall k :: k in keys <==> k in order
      modifies this, dir, ctx`keydir, readers
      ensures Valid() && fresh(log)
      ensures Model() == Compaction.Merge(s, selected, order, max, AsWritten)
      ensures forall files :: files in passed ==>
                AtRemovalPoint(files, CopyAll(s, order, max, AsWritten).disk, ids, readers.first)
    {
      ghost var c;
      var plan, file;
      plan, file, c := CopyRecords(s, order);
      var next := file + 1;
      ReadyToFinish(s, selected, order, c);
      MergeIsFinish(s, selected, order, c, next);
      passed := FinishMerge(s, c, ids, keys, plan, next);
    }

    /** The ids of the files to merge, in ascending order. The thresholds pick any of the files that have
        statistics. */
    method FileidsToMerge() returns (ids: seq<FileId>)
      ensures Sorted(ids) && IdSet(ids) <= stats.Keys && ids == Ascending(IdSet(ids))
    {
      var left, picked := stats.Keys, {};
      while left != {}
        invariant left <= stats.Keys && picked <= stats.Keys
        decreases left
      {
        var f :| f in left;
        left := left - {f};
        var passesThreshold: bool := *;
        if passesThreshold {
          picked := picked + {f};
        }
      }
      ids := Ascending(picked);
      assert IdSet(ids) == picked;
    }

    /** The keys whose entries lie in the given files, in the order in which the index is walked. */
    method KeysWithin(ids: seq<FileId>) returns (order: seq<Bytes>)
      ensures forall i, j :: 0 <= i < j < |order| ==> order[i] != order[j]
      ensures forall k :: k in order <==> k in ctx.keydir && ctx.keydir[k].fileid in ids
    {
      var left := ctx.keydir.Keys;
      order := [];
      while left != {}
        invariant left <= ctx.keydir.Keys
        invariant forall i, j :: 0 <= i < j < |order| ==> order[i] != order[j]
        invariant forall k :: k in order <==> k in ctx.keydir && k !in left && ctx.keydir[k].fileid in ids
        decreases left
      {
        var k :| k in left;
        left := left - {k};
        if ctx.keydir[k].fileid in ids {
          order := order + [k];
        }
      }
    }

    /** Whether a merge is triggered: by nothing that the model looks at, but not when a position takes
        more than the 64 bits that it has in the program. */
    method CanMerge() returns (triggered: bool)
      ensures triggered ==> PositionsFit(ctx.keydir)
    {
      triggered := *;
      var left := ctx.keydir.Keys;
      while left != {}
        invariant triggered ==> left <= ctx.keydir.Keys
        invariant triggered ==> forall k :: k in ctx.keydir && k !in left ==>
                    ctx.keydir[k].pos < TWO_64 && ctx.keydir[k].len < TWO_64
        decreases left
      {
        var k :| k in left;
        left := left - {k};
        if triggered && (ctx.keydir[k].pos >= TWO_64 || ctx.keydir[k].len >= TWO_64) {
          triggered := false;
        }
      }
    }

    /** Merge the files that the thresholds pick. */
    method Merge() returns (ghost selected: set<FileId>, ghost order: seq<Bytes>, ghost passed: seq<Files>)
      requires Valid() && Running(Model(), max) && PositionsFit(ctx.keydir)
      modifies this, dir, ctx`keydir, readers
      ensures Valid() && fresh(log) && Selects(old(Model()), selected, order)
      ensures Model() == Compaction.Merge(old(Model()), selected, order, max, AsWritten)
      ensures forall files :: files in passed ==>
                AtRemovalPoint(files, CopyAll(old(Model()), order, max, AsWritten).disk, Ascending(selected),
                               readers.first)
    {
      var ids := FileidsToMerge();
      var keys := KeysWithin(ids);
      selected, order := IdSet(ids), keys;
      passed := MergeFiles(ids, keys, keys, Model(), selected);
    }
  }
}
