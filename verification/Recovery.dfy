/**
 Opening a directory: the index and the statistics are rebuilt by replaying its files, and agree
 with those of the engine that wrote it.
 */
module Recovery {
  import opened Types
  import opened LogCodec
  import opened LogFile
  import opened KeyDir
  import opened Store

  /** One more than the largest id, or zero when there is none. */
  ghost function NextId(ids: set<FileId>): (n: nat)
    ensures forall f :: f in ids ==> f < n
    ensures n > 0 ==> n - 1 in ids
  {
    if ids == {} then 0
    else
      var f :| f in ids;
      assert forall g :: g in ids ==> g == f || g in ids - {f};
      var rest := NextId(ids - {f});
      if f < rest then rest else f + 1
  }

  /** What opening the directory computes. */
  ghost function Rebuild(d: Disk): Catalog {
    Replay(EventsBelow(d, NextId(d.data.Keys)))
  }

  lemma RebuildAt(d: Disk, n: nat)
    requires Above(d, n)
    ensures Rebuild(d) == Replay(EventsBelow(d, n))
  {
    EventsStop(d, NextId(d.data.Keys), n);
  }

  /** Closing removes an active file that nothing was written to. */
  function Close(s: Store): Disk {
    if s.written != 0 then s.disk else s.disk.(data := s.disk.data - {s.active})
  }

  ghost function Open(d: Disk): Store {
    var n := NextId(d.data.Keys);
    Store(Create(d, n), Rebuild(d).index, Rebuild(d).stats, n, 0)
  }

  /** The directory rebuilds to the index of the running engine, pointers included. */
  ghost predicate Recoverable(s: Store) {
    HintsExact(s.disk) && Rebuild(s.disk).index == s.index
  }

  // ---------- the newest entry of a key ----------

  ghost function NewestBelow(d: Disk, n: nat, key: Bytes): Option<Event> {
    Last(EventsBelow(d, n), key)
  }

  lemma NewestStep(d: Disk, n: nat, key: Bytes)
    requires n > 0
    ensures var here := Last(FileEvents(d, n - 1), key);
            NewestBelow(d, n, key) == if here.Some? then here else NewestBelow(d, n - 1, key)
  {
    LastConcat(EventsBelow(d, n - 1), FileEvents(d, n - 1), key);
  }

  /** The rebuilt index has a key exactly when the newest entry of that key is a value, and then
      points to that entry. */
  lemma RebuildIsNewest(d: Disk, n: nat, key: Bytes)
    requires Above(d, n)
    ensures var index := Rebuild(d).index;
            var newest := NewestBelow(d, n, key);
            && (key in index <==> newest.Some? && newest.value.live)
            && (key in index ==> index[key] == newest.value.entry)
  {
    RebuildAt(d, n);
    ReplayIsLast(EventsBelow(d, n), key);
  }

  lemma {:induction false} EventsAreInFile(f: FileId, rs: seq<Record>, ev: Event)
    requires ev in DataEvents(f, rs)
    ensures ev.entry.fileid == f
    ensures Find(rs, ev.entry.pos).Some?
    ensures ev == EventOf(f, ev.entry.pos, Find(rs, ev.entry.pos).value)
  {
    var n := |rs| - 1;
    var init := rs[..n];
    assert rs == init + [rs[n]];
    FindSnoc(init, rs[n], ev.entry.pos);
    if ev in DataEvents(f, init) {
      EventsAreInFile(f, init, ev);
    }
  }

  /** A newest entry comes from a file that exists, and lies in the file that its entry names. */
  lemma {:induction false} NewestIsThere(d: Disk, n: nat, key: Bytes)
    requires HintsExact(d) && NewestBelow(d, n, key).Some?
    ensures var ev := NewestBelow(d, n, key).value;
            && ev.entry.fileid < n && ev.entry.fileid in d.data
            && Last(FileEvents(d, ev.entry.fileid), key) == Some(ev)
            && ev.key == key
            && (ev.live ==> Points(d, key, ev.entry))
  {
    NewestStep(d, n, key);
    var here := Last(FileEvents(d, n - 1), key);
    if here.Some? {
      LastIsThere(FileEvents(d, n - 1), key);
      EventsAreInFile(n - 1, d.data[n - 1], here.value);
    } else {
      NewestIsThere(d, n - 1, key);
    }
  }

  // ---------- exact statistics after a rebuild ----------

  function EntriesOf(evs: seq<Event>, f: FileId): nat {
    if |evs| == 0 then 0
    else EntriesOf(evs[..|evs| - 1], f) + (if evs[|evs| - 1].entry.fileid == f then 1 else 0)
  }

  function BytesOf(evs: seq<Event>, f: FileId): nat {
    if |evs| == 0 then 0
    else
      var e := evs[|evs| - 1].entry;
      BytesOf(evs[..|evs| - 1], f) + (if e.fileid == f then e.len else 0)
  }

  /** Statistics built by replay are exact for what was replayed. */
  lemma {:induction false} ReplayIsExact(evs: seq<Event>, f: FileId)
    ensures ExactAt(Replay(evs), f, EntriesOf(evs, f), BytesOf(evs, f))
  {
    if evs == [] {
      EmptyIsExact(f);
    } else {
      var n := |evs| - 1;
      ReplayIsExact(evs[..n], f);
      ApplyKeepsExact(Replay(evs[..n]), evs[n], f, EntriesOf(evs[..n], f), BytesOf(evs[..n], f));
    }
  }

  lemma {:induction false} OfConcat(a: seq<Event>, b: seq<Event>, f: FileId)
    ensures EntriesOf(a + b, f) == EntriesOf(a, f) + EntriesOf(b, f)
    ensures BytesOf(a + b, f) == BytesOf(a, f) + BytesOf(b, f)
  {
    if b == [] {
      assert a + b == a;
    } else {
      var n := |b| - 1;
      OfConcat(a, b[..n], f);
      assert (a + b)[..|a + b| - 1] == a + b[..n];
    }
  }

  lemma {:induction false} OfDataEvents(g: FileId, rs: seq<Record>, f: FileId)
    ensures EntriesOf(DataEvents(g, rs), f) == if f == g then |rs| else 0
    ensures BytesOf(DataEvents(g, rs), f) == if f == g then Total(rs) else 0
  {
    if rs != [] {
      var init := rs[..|rs| - 1];
      var evs := DataEvents(g, rs);
      OfDataEvents(g, init, f);
      assert evs[..|evs| - 1] == DataEvents(g, init);
    }
  }

  lemma OfFile(d: Disk, g: FileId, f: FileId)
    requires HintsExact(d)
    ensures EntriesOf(FileEvents(d, g), f) == if f == g then |Content(d, f)| else 0
    ensures BytesOf(FileEvents(d, g), f) == if f == g then Total(Content(d, f)) else 0
  {
    OfDataEvents(g, Content(d, g), f);
  }

  lemma OfDiskStep(d: Disk, m: nat, f: FileId)
    requires HintsExact(d)
    ensures EntriesOf(EventsBelow(d, m) + FileEvents(d, m), f)
         == EntriesOf(EventsBelow(d, m), f) + (if f == m then |Content(d, f)| else 0)
    ensures BytesOf(EventsBelow(d, m) + FileEvents(d, m), f)
         == BytesOf(EventsBelow(d, m), f) + (if f == m then Total(Content(d, f)) else 0)
  {
    OfConcat(EventsBelow(d, m), FileEvents(d, m), f);
    OfFile(d, m, f);
  }

  lemma {:induction false} OfDisk(d: Disk, n: nat, f: FileId)
    requires HintsExact(d)
    ensures EntriesOf(EventsBelow(d, n), f) == if f < n then |Content(d, f)| else 0
    ensures BytesOf(EventsBelow(d, n), f) == if f < n then Total(Content(d, f)) else 0
  {
    if n > 0 {
      OfDisk(d, n - 1, f);
      OfDiskStep(d, n - 1, f);
    }
  }

  /** Rebuilt statistics are exact. */
  lemma RebuildIsExact(d: Disk)
    requires HintsExact(d)
    ensures StatsExact(d, Rebuild(d))
  {
    var n := NextId(d.data.Keys);
    forall f
      ensures ExactAt(Rebuild(d), f, |Content(d, f)|, Total(Content(d, f)))
    {
      ReplayIsExact(EventsBelow(d, n), f);
      OfDisk(d, n, f);
    }
  }

  /** Exact statistics are determined by the directory and the index. */
  lemma StatsDetermined(d: Disk, index: Index, a: Stats, b: Stats)
    requires StatsExact(d, Catalog(index, a)) && StatsExact(d, Catalog(index, b))
    ensures a == b
  {
    forall f
      ensures (f in a <==> f in b) && (f in a ==> a[f] == b[f])
    {
      assert ExactAt(Catalog(index, a), f, |Content(d, f)|, Total(Content(d, f)));
      assert ExactAt(Catalog(index, b), f, |Content(d, f)|, Total(Content(d, f)));
    }
  }

  /** Two independent computations of the same state: whenever the directory of a running engine
      rebuilds to its index, it also rebuilds to its statistics. */
  lemma RebuildGivesStats(s: Store, max: nat)
    requires Running(s, max) && Recoverable(s)
    ensures Rebuild(s.disk) == Catalog(s.index, s.stats)
  {
    RebuildIsExact(s.disk);
    StatsDetermined(s.disk, s.index, s.stats, Rebuild(s.disk).stats);
  }

  /** A rebuilt index points to records that are there. */
  lemma RebuildPoints(d: Disk)
    requires HintsExact(d)
    ensures AllPoint(d, Rebuild(d).index)
  {
    var n := NextId(d.data.Keys);
    var index := Rebuild(d).index;
    forall k | k in index
      ensures Points(d, k, index[k])
    {
      RebuildIsNewest(d, n, k);
      NewestIsThere(d, n, k);
    }
  }

  // ---------- writing keeps the directory recoverable ----------

  lemma AppendExtendsReplay(d: Disk, f: FileId, r: Record)
    requires IdsOk(d, f)
    ensures EventsBelow(AppendTo(d, f, r), f + 1)
         == EventsBelow(d, f + 1) + [EventOf(f, Total(Content(d, f)), r)]
  {
    var rs := Content(d, f);
    assert (rs + [r])[..|rs|] == rs;
    EventsAgree(AppendTo(d, f, r), d, f);
  }

  /** A new empty file adds nothing to the replay. */
  lemma CreateKeepsReplay(d: Disk, f: FileId)
    requires Above(d, f) && f !in d.hint
    ensures EventsBelow(Create(d, f), f + 1) == EventsBelow(d, f)
    ensures Above(Create(d, f), f + 1)
  {
    EventsAgree(Create(d, f), d, f);
    assert FileEvents(Create(d, f), f) == [];
  }

  lemma RotateKeepsReplay(s: Store, max: nat)
    requires IdsOk(s.disk, s.active)
    ensures var t := Rotate(s, max);
            && EventsBelow(t.disk, t.active + 1) == EventsBelow(s.disk, s.active + 1)
            && IdsOk(t.disk, t.active) && t.disk.hint == s.disk.hint
  {
    if s.written > max {
      assert s.active + 1 !in s.disk.hint.Keys;
      CreateKeepsReplay(s.disk, s.active + 1);
    }
  }

  /** Writing adds one log entry at the end of the replay, also when the file is rotated. */
  lemma UpdateExtendsReplay(s: Store, r: Record, max: nat)
    requires IdsOk(s.disk, s.active)
    ensures var t := Update(s, r, max);
            && EventsBelow(t.disk, t.active + 1) == EventsBelow(s.disk, s.active + 1) + [NextEvent(s, r)]
            && IdsOk(t.disk, t.active)
  {
    AppendExtendsReplay(s.disk, s.active, r);
    RotateKeepsReplay(Append(s, r), max);
  }

  lemma UpdateKeepsHints(s: Store, r: Record, max: nat)
    requires IdsOk(s.disk, s.active) && HintsExact(s.disk)
    ensures HintsExact(Update(s, r, max).disk)
  {
    assert s.active + 1 !in s.disk.hint.Keys;
  }

  lemma ReplayOneMore(evs: seq<Event>, ev: Event)
    ensures Replay(evs + [ev]) == Apply(Replay(evs), ev)
  {
    assert (evs + [ev])[..|evs|] == evs;
  }

  /** Replaying a directory after a write is replaying it before and applying the written entry. */
  lemma UpdateStepsRebuild(s: Store, r: Record, max: nat)
    requires IdsOk(s.disk, s.active)
    ensures Rebuild(Update(s, r, max).disk) == Apply(Rebuild(s.disk), NextEvent(s, r))
  {
    UpdateExtendsReplay(s, r, max);
    RebuildAt(s.disk, s.active + 1);
    RebuildAt(Update(s, r, max).disk, Update(s, r, max).active + 1);
    ReplayOneMore(EventsBelow(s.disk, s.active + 1), NextEvent(s, r));
  }

  /** A directory that rebuilds to the index still does so after any put or delete, whatever the
      rotation points. */
  lemma UpdateKeepsRecoverable(s: Store, r: Record, max: nat)
    requires Running(s, max) && Recoverable(s)
    ensures Recoverable(Update(s, r, max))
  {
    UpdateKeepsHints(s, r, max);
    UpdateStepsRebuild(s, r, max);
    assert Update(s, r, max).index == Point(s.index, NextEvent(s, r)) by {
      UpdateApplies(s, r, max);
    }
  }

  // ---------- opening ----------

  lemma CloseKeepsReplay(s: Store, max: nat)
    requires Running(s, max)
    ensures var d := Close(s);
            && EventsBelow(d, s.active + 1) == EventsBelow(s.disk, s.active + 1)
            && Above(d, s.active + 1) && d.hint == s.disk.hint && d.hint.Keys <= d.data.Keys
            && (forall f :: Content(d, f) == Content(s.disk, f))
            && (forall f :: f in d.data ==> f in s.disk.data)
  {
    var d := Close(s);
    assert s.written == 0 ==> s.disk.data[s.active] == [];
    forall f | 0 <= f < s.active + 1
      ensures FileEvents(d, f) == FileEvents(s.disk, f)
    {
    }
    EventsAgree(d, s.disk, s.active + 1);
  }

  lemma OpenRebuilds(d: Disk)
    requires HintsExact(d) && d.hint.Keys <= d.data.Keys
    ensures var t := Open(d);
            Rebuild(t.disk) == Rebuild(d) == Catalog(t.index, t.stats)
  {
    var n := NextId(d.data.Keys);
    assert n !in d.hint.Keys;
    CreateKeepsReplay(d, n);
    RebuildAt(Create(d, n), n + 1);
  }

  lemma OpenKeepsFiles(d: Disk, max: nat)
    requires HintsExact(d) && AllBounded(d, max) && d.hint.Keys <= d.data.Keys
    ensures var t := Open(d);
            && HintsExact(t.disk) && AllBounded(t.disk, max) && IdsOk(t.disk, t.active)
            && t.written == Total(Content(t.disk, t.active))
            && t.active !in d.data && Above(d, t.active)
  {
    assert NextId(d.data.Keys) !in d.hint.Keys;
  }

  /** Opening a directory gives a running engine whose directory rebuilds to its index. Its active
      file has an id above all that are there. */
  lemma OpenRuns(d: Disk, max: nat)
    requires HintsExact(d) && AllBounded(d, max) && d.hint.Keys <= d.data.Keys
    ensures Running(Open(d), max) && Recoverable(Open(d))
    ensures Open(d).active !in d.data && Above(d, Open(d).active)
  {
    var t := Open(d);
    OpenKeepsFiles(d, max);
    OpenRebuilds(d);
    assert StatsExact(t.disk, Catalog(t.index, t.stats)) by { RebuildIsExact(t.disk); }
    assert AllPoint(t.disk, t.index) by { RebuildPoints(t.disk); }
  }

  lemma SameContents(a: Disk, b: Disk, index: Index)
    requires forall f :: Content(a, f) == Content(b, f)
    ensures Contents(a, index) == Contents(b, index)
  {
  }

  lemma CloseRebuilds(s: Store, max: nat)
    requires Running(s, max) && Recoverable(s)
    ensures Rebuild(Close(s)) == Catalog(s.index, s.stats)
  {
    RebuildGivesStats(s, max);
    CloseRebuildsSame(s, s.active + 1, max);
  }

  lemma CloseRebuildsSame(s: Store, n: nat, max: nat)
    requires Running(s, max) && n == s.active + 1
    ensures Rebuild(Close(s)) == Rebuild(s.disk)
  {
    CloseKeepsReplay(s, max);
    RebuildAt(Close(s), n);
    RebuildAt(s.disk, n);
  }

  lemma CloseKeepsFiles(s: Store, max: nat)
    requires Running(s, max) && HintsExact(s.disk)
    ensures HintsExact(Close(s)) && AllBounded(Close(s), max)
  {
  }

  /** Closing and opening again restores index and statistics, and with them every value. */
  lemma ReopenRestores(s: Store, max: nat)
    requires Running(s, max) && Recoverable(s)
    ensures var t := Open(Close(s));
            && t.index == s.index && t.stats == s.stats
            && Contents(t.disk, t.index) == Contents(s.disk, s.index)
            && Running(t, max) && Recoverable(t)
  {
    var d := Close(s);
    CloseKeepsReplay(s, max);
    CloseRebuilds(s, max);
    CloseKeepsFiles(s, max);
    OpenRuns(d, max);
    SameContents(Open(d).disk, s.disk, s.index);
  }
}
