/**
 Both conditions of a reopening after a merge are needed: concrete histories where one of them fails.
 */
module Counterexamples {
  import opened Types
  import opened LogCodec
  import opened LogFile
  import opened KeyDir
  import opened Store
  import opened Recovery
  import opened Compaction
  import opened CompactionTheorems
  import opened Runs

  const KEY: Bytes := [107]

  /** A newly opened empty directory. */
  ghost predicate Fresh(s: Store) {
    && s.index == map[] && s.stats == map[] && s.active == 0 && s.written == 0
    && Content(s.disk, 0) == [] && 0 in s.disk.data && s.disk.hint == map[]
  }

  lemma FreshExists(d: Disk, s: Store)
    requires d.data == map[] && d.hint == map[] && s == Open(d)
    ensures Fresh(s)
  {
    EmptyOpens(d, s);
    RebuildAt(d, 0);
  }

  /** A put, and a second record for the same key in the same or in the next file. */
  function TwoRecords(s: Store, second: Option<Bytes>, max: nat): Store {
    Update(Update(s, Record(0, KEY, Some([1])), max), Record(0, KEY, second), max)
  }

  lemma TwoRecordsRun(s: Store, second: Option<Bytes>, max: nat, t: Store)
    requires Running(s, max) && Recoverable(s) && t == TwoRecords(s, second, max)
    ensures Running(t, max) && Recoverable(t)
  {
    var u := Update(s, Record(0, KEY, Some([1])), max);
    UpdateKeepsRunning(s, Record(0, KEY, Some([1])), max);
    UpdateKeepsRecoverable(s, Record(0, KEY, Some([1])), max);
    UpdateKeepsRunning(u, Record(0, KEY, second), max);
    UpdateKeepsRecoverable(u, Record(0, KEY, second), max);
  }

  lemma TwoRecordsFromEmpty(d: Disk, s: Store, second: Option<Bytes>, max: nat, t: Store)
    requires d.data == map[] && d.hint == map[] && s == Open(d) && t == TwoRecords(s, second, max)
    ensures Running(t, max) && Recoverable(t)
  {
    EmptyDirectoryRuns(d, s, max);
    TwoRecordsRun(s, second, max, t);
  }

  // ---------- which files the thresholds pick ----------

  datatype Thresholds = Thresholds(fragmentation: real, deadBytes: nat, smallFile: nat)

  function Fragmentation(c: Stat): real {
    if c.dead == 0 || c.live + c.dead == 0 then 0.0 else c.dead as real / (c.live + c.dead) as real
  }

  function Picked(s: Store, th: Thresholds): set<FileId> {
    set f | f in s.stats &&
      (s.stats[f].deadBytes > th.deadBytes || Fragmentation(s.stats[f]) > th.fragmentation ||
       Total(Content(s.disk, f)) < th.smallFile)
  }

  // ---------- hints with the old positions ----------

  /** The key of a new directory is overwritten in the same file. */
  ghost predicate Overwritten(t: Store) {
    && t.index == map[KEY := Entry(0, 27, 27, 0)] && t.stats == map[0 := Stat(1, 1, 27)] && t.active == 0
    && Content(t.disk, 0) == [Record(0, KEY, Some([1])), Record(0, KEY, Some([2]))]
  }

  lemma OverwrittenStore(s: Store, max: nat, t: Store)
    requires Fresh(s) && max >= 54 && t == TwoRecords(s, Some([2]), max)
    ensures Overwritten(t)
  {
    var r := Record(0, KEY, Some([1]));
    assert Size(r) == 27 && Size(Record(0, KEY, Some([2]))) == 27;
    assert Total([]) == 0 && [] + [r] == [r] && Total([r]) == 27 by { assert [r][..0] == []; }
    var u := Update(s, r, max);
    assert Content(u.disk, 0) == [r] && u.active == 0 && u.written == 27;
    assert u.index == map[KEY := Entry(0, 27, 0, 0)] && u.stats == map[0 := Stat(1, 0, 0)];
    assert NextEvent(u, Record(0, KEY, Some([2]))).entry == Entry(0, 27, 27, 0);
  }

  lemma OverwrittenSelects(t: Store, selected: set<FileId>, order: seq<Bytes>)
    requires Overwritten(t) && selected == {0} && order == [KEY]
    ensures Selects(t, selected, order) && DownwardClosed(t, selected)
  {
  }

  /** The live record moves to the front of the merged file. */
  lemma OverwrittenMerged(t: Store, max: nat, order: seq<Bytes>, u: Store)
    requires Overwritten(t) && max >= 54 && order == [KEY] && u == Merge(t, {0}, order, max, AsWritten)
    ensures u.index == map[KEY := Entry(1, 27, 0, 0)] && Content(u.disk, 1) == [Record(0, KEY, Some([2]))]
  {
    var first, second := Record(0, KEY, Some([1])), Record(0, KEY, Some([2]));
    assert [first, second][..1] == [first] && [first][..0] == [];
    assert Find([first, second], 27) == Some(second);
    assert order[..0] == [] && [] + [second] == [second];
    var c := Place(StartCopy(t), KEY, Entry(0, 27, 27, 0), second, AsWritten);
    assert CopyAll(t, order, max, AsWritten) == c;
  }

  lemma OneRecordReads(d: Disk, f: FileId, r: Record)
    requires Content(d, f) == [r]
    ensures ValueAt(d, Entry(f, Size(r), 0, r.tstamp)) == r.value
    ensures ValueAt(d, Entry(f, Size(r), Size(r), r.tstamp)) == None
  {
    assert [r][..0] == [];
  }

  lemma ReopenedAt(u: Store, v: Store, f: FileId)
    requires v == Open(u.disk)
    ensures Content(v.disk, f) == Content(u.disk, f) && v.index == Rebuild(u.disk).index
  {
  }

  /** As the code writes hints, one overwritten key is enough: in a new directory a key is put twice
      and its file is merged. The live record moves from byte 27 of the old file to byte 0 of the merged
      one, but the hint still says 27; when the directory is opened again, the value is gone. The file is
      picked whenever the threshold for the fragmentation is below one half. */
  lemma HintsPointNowhere(d: Disk, s: Store, max: nat, t: Store, th: Thresholds, selected: set<FileId>,
                          order: seq<Bytes>, u: Store, v: Store)
    requires d.data == map[] && d.hint == map[] && s == Open(d) && max >= 54
    requires t == TwoRecords(s, Some([2]), max) && th.fragmentation < 0.5 && selected == Picked(t, th)
    requires order == [KEY] && u == Merge(t, selected, order, max, AsWritten) && v == Open(u.disk)
    ensures Recoverable(t) && Selects(t, selected, order) && DownwardClosed(t, selected)
    ensures Rebuild(u.disk).index != u.index
    ensures Look(Contents(u.disk, u.index), KEY) == Some([2]) && Look(Contents(v.disk, v.index), KEY) == None
  {
    hide Fresh, Merge, Open, Rebuild, Recoverable, Running, Selects, TwoRecords;
    TwoRecordsFromEmpty(d, s, Some([2]), max, t);
    FreshExists(d, s);
    OverwrittenStore(s, max, t);
    assert selected == {0};
    OverwrittenSelects(t, selected, order);
    OverwrittenMerged(t, max, order, u);
    MergeRebuildsTo(t, selected, order, max, AsWritten);
    assert order[0] == KEY && Rebuild(u.disk).index[KEY] == Entry(1, 27, 27, 0);
    ReopenedAt(u, v, 1);
    OneRecordReads(u.disk, 1, Record(0, KEY, Some([2])));
    OneRecordReads(v.disk, 1, Record(0, KEY, Some([2])));
  }

  // ---------- a gap in the selection ----------

  /** The key of a new directory is deleted in the next file. */
  ghost predicate Gone(t: Store) {
    && t.index == map[] && t.active == 2 && t.disk.data.Keys == {0, 1, 2} && t.disk.hint == map[]
    && t.stats == map[0 := Stat(0, 1, 27), 1 := Stat(0, 1, 18)]
    && Content(t.disk, 0) == [Record(0, KEY, Some([1]))] && Content(t.disk, 1) == [Record(0, KEY, None)]
    && Content(t.disk, 2) == []
  }

  lemma DeletedStore(s: Store, max: nat, t: Store)
    requires Fresh(s) && s.disk.data.Keys == {0} && max < 18 && t == TwoRecords(s, None, max)
    ensures Gone(t)
  {
    var r := Record(0, KEY, Some([1]));
    assert [] + [r] == [r] && [] + [Record(0, KEY, None)] == [Record(0, KEY, None)];
    var u := Update(s, r, max);
    assert Content(u.disk, 0) == [r] && u.active == 1 && u.index == map[KEY := Entry(0, 27, 0, 0)];
    assert Content(u.disk, 1) == [] && u.written == 0 && u.stats == map[0 := Stat(1, 0, 0)];
  }

  /** File 1 is smaller than file 0, and nothing else tells them apart. */
  lemma TombstoneIsPicked(t: Store, th: Thresholds)
    requires Gone(t) && th.fragmentation == 1.0 && th.deadBytes >= 27 && 18 < th.smallFile <= 27
    ensures Picked(t, th) == {1}
  {
    assert [Record(0, KEY, Some([1]))][..0] == [] && [Record(0, KEY, None)][..0] == [];
    assert Total(Content(t.disk, 0)) == 27 && Total(Content(t.disk, 1)) == 18;
  }

  lemma GoneSelects(t: Store, selected: set<FileId>, order: seq<Bytes>)
    requires Gone(t) && selected == {1} && order == []
    ensures Selects(t, selected, order)
  {
  }

  lemma GapMerged(t: Store, max: nat, u: Store)
    requires Gone(t) && u == Merge(t, {1}, [], max, AsIndexed)
    ensures u.index == map[] && u.disk.data.Keys == {0, 2, 3, 4} && u.disk.hint == map[3 := []]
    ensures Content(u.disk, 0) == [Record(0, KEY, Some([1]))]
    ensures Content(u.disk, 2) == Content(u.disk, 3) == Content(u.disk, 4) == []
  {
  }

  lemma NothingMore(d: Disk, n: nat, next: nat)
    requires next == n + 1 && FileEvents(d, n) == []
    ensures EventsBelow(d, next) == EventsBelow(d, n)
  {
  }

  lemma FirstFileOnly(d: Disk, ev: Event)
    requires FileEvents(d, 0) == [ev] && FileEvents(d, 1) == FileEvents(d, 2) == []
    requires FileEvents(d, 3) == FileEvents(d, 4) == []
    ensures EventsBelow(d, 5) == [ev]
  {
    assert EventsBelow(d, 0) == [] && EventsBelow(d, 1) == [ev] by { hide FileEvents; }
    hide EventsBelow, FileEvents;
    NothingMore(d, 1, 2);
    NothingMore(d, 2, 3);
    NothingMore(d, 3, 4);
    NothingMore(d, 4, 5);
  }

  lemma OneValueReplays(ev: Event)
    requires ev.live
    ensures Replay([ev]).index == map[ev.key := ev.entry]
  {
    assert [ev][..0] == [];
  }

  lemma OneRecordEvents(rs: seq<Record>, r: Record)
    requires rs == [r]
    ensures DataEvents(0, rs) == [EventOf(0, 0, r)]
  {
    assert rs[..0] == [];
  }

  lemma ValueIsReplayed(d: Disk)
    requires d.data.Keys == {0, 2, 3, 4} && d.hint == map[3 := []]
    requires Content(d, 0) == [Record(0, KEY, Some([1]))]
    requires Content(d, 2) == Content(d, 3) == Content(d, 4) == []
    ensures Rebuild(d).index == map[KEY := Entry(0, 27, 0, 0)]
  {
    hide EventsBelow, Rebuild, Replay;
    var r := Record(0, KEY, Some([1]));
    OneRecordEvents(Content(d, 0), r);
    FirstFileOnly(d, EventOf(0, 0, r));
    RebuildAt(d, 5);
    OneValueReplays(EventOf(0, 0, r));
  }

  lemma GoneFromEmpty(d: Disk, s: Store, max: nat, t: Store)
    requires d.data == map[] && d.hint == map[] && s == Open(d) && max < 18 && t == TwoRecords(s, None, max)
    ensures Gone(t)
  {
    FreshExists(d, s);
    DeletedStore(s, max, t);
  }

  /** Even with correct hints, merging away the file with a tombstone while an older file with the
      value stays brings the value back when the directory is opened again. A threshold for small files
      that lies between the sizes of the two files picks the one with the tombstone. */
  lemma GapRevivesValue(d: Disk, s: Store, max: nat, t: Store, th: Thresholds, selected: set<FileId>,
                        order: seq<Bytes>, u: Store, v: Store)
    requires d.data == map[] && d.hint == map[] && s == Open(d) && max < 18 && t == TwoRecords(s, None, max)
    requires th.fragmentation == 1.0 && th.deadBytes >= 27 && 18 < th.smallFile <= 27 && selected == Picked(t, th)
    requires order == [] && u == Merge(t, selected, order, max, AsIndexed) && v == Open(u.disk)
    ensures Recoverable(t) && Selects(t, selected, order)
    ensures Contents(u.disk, u.index) == map[] && Contents(v.disk, v.index) == map[KEY := [1]]
  {
    hide Fresh, Gone, Merge, Open, Picked, Rebuild, Recoverable, Running, Selects, TwoRecords;
    TwoRecordsFromEmpty(d, s, None, max, t);
    GoneFromEmpty(d, s, max, t);
    TombstoneIsPicked(t, th);
    GoneSelects(t, selected, order);
    GapMerged(t, max, u);
    ValueIsReplayed(u.disk);
    ReopenedAt(u, v, 0);
    OneRecordReads(v.disk, 0, Record(0, KEY, Some([1])));
  }
}
