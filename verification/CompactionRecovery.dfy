/**
 When a directory can be opened again after a merge, or after a crash in the middle of the removals
 of a merge: exactly when the hints describe the copies and no deleted key comes back.
 */
module CompactionRecovery {
  import opened Types
  import opened LogCodec
  import opened LogFile
  import opened KeyDir
  import opened Store
  import opened Recovery
  import opened Compaction
  import opened CompactionCopy
  import opened CompactionEffects

  // ---------- the two conditions ----------

  /** Every copied record lands at the position that its hint gives. This is always so when hints
      give positions in the output; as the code writes them, it says that the record keeps the
      position it had in its old file. The first output file has id `first`. */
  ghost predicate OffsetsKept(s: Store, order: seq<Bytes>, first: FileId, max: nat, rule: HintRule) {
    rule.AsWritten? ==> KeepOffsets(s.index, order, first, max)
  }

  /** Laid out in this order, every record starts where it started before. */
  ghost predicate KeepOffsets(index: Index, order: seq<Bytes>, first: FileId, max: nat) {
    forall i :: 0 <= i < |order| && order[i] in index ==>
      index[order[i]].pos == SlotOf(index, order, i, first, max).1
  }

  /** The slot of the copy number `i`. */
  function SlotOf(index: Index, order: seq<Bytes>, i: nat, first: FileId, max: nat): (FileId, nat)
    requires i <= |order|
  {
    Slot(index, order[..i], first, max)
  }

  /** The newest entry of this key is a value. */
  ghost predicate Live(d: Disk, n: nat, k: Bytes) {
    NewestBelow(d, n, k).Some? && NewestBelow(d, n, k).value.live
  }

  /** Without the removed files, no deleted key has a value as its newest entry below `first`. */
  ghost predicate NothingRevived(s: Store, removed: set<FileId>, first: FileId) {
    NoneLive(s.index, Removed(s.disk, removed, removed), first)
  }

  ghost predicate NoneLive(index: Index, d: Disk, n: nat) {
    forall k :: k !in index ==> !Live(d, n, k)
  }

  // ---------- hint files of the outputs ----------

  lemma CopyKeyPlans(s: Store, c: Copy, key: Bytes, max: nat, rule: HintRule)
    requires key in s.index && Find(Content(c.disk, s.index[key].fileid), s.index[key].pos).Some?
    ensures CopyKey(s.index, c, key, max, rule).plan
         == c.plan[key := Entry(c.file, s.index[key].len, c.pos, s.index[key].tstamp)]
  {
  }

  lemma LastCopyPlans(s: Store, init: seq<Bytes>, key: Bytes, first: FileId, max: nat, rule: HintRule)
    requires Running(s, max) && Distinct(init, s.index) && key in s.index && key !in init
    requires first == s.active + 1
    ensures CopyAll(s, init + [key], max, rule).plan
         == CopyAll(s, init, max, rule).plan[key := PlacedAt(s.index[key], Slot(s.index, init, first, max))]
  {
    var c := CopyAll(s, init, max, rule);
    CopyAllCopied(s, init, max, rule);
    NextIsThere(s, init, key, c, max);
    CopyKeyPlans(s, c, key, max, rule);
    assert (init + [key])[..|init|] == init;
  }

  function PlacedAt(e: Entry, slot: (FileId, nat)): Entry {
    Entry(slot.0, e.len, slot.1, e.tstamp)
  }

  /** The index entry of a copy is the slot computed from the lengths of the records before it. */
  lemma {:induction false} PlanIsSlot(s: Store, order: seq<Bytes>, i: nat, first: FileId, max: nat, rule: HintRule)
    requires Running(s, max) && i < |order| && Distinct(order, s.index) && first == s.active + 1
    ensures var plan := CopyAll(s, order, max, rule).plan;
            && order[i] in plan
            && plan[order[i]] == PlacedAt(s.index[order[i]], SlotOf(s.index, order, i, first, max))
  {
    var init, key := order[..|order| - 1], order[|order| - 1];
    InitDistinct(order);
    assert order == init + [key] && init[..i] == order[..i];
    LastCopyPlans(s, init, key, first, max, rule);
    if i < |init| {
      PlanIsSlot(s, init, i, first, max, rule);
      assert init[i] == order[i] != key;
    }
  }

  /** Where the hint of a copied key points. */
  function HintedEntry(s: Store, c: Copy, k: Bytes, rule: HintRule): Entry
    requires k in c.plan && k in s.index
  {
    if rule.AsWritten? then c.plan[k].(pos := s.index[k].pos) else c.plan[k]
  }

  ghost predicate HintsPoint(s: Store, c: Copy, rule: HintRule)
    requires c.plan.Keys <= s.index.Keys
  {
    forall k :: k in c.plan ==> HintedEntry(s, c, k, rule) == c.plan[k]
  }

  /** The positions are kept exactly when every hint points to its copy. */
  lemma KeptMeansHintsPoint(s: Store, order: seq<Bytes>, first: FileId, c: Copy, max: nat)
    requires c.plan.Keys == (set k | k in order) && c.plan.Keys <= s.index.Keys
    requires forall i :: 0 <= i < |order| ==>
      c.plan[order[i]].pos == SlotOf(s.index, order, i, first, max).1
    ensures KeepOffsets(s.index, order, first, max) <==> HintsPoint(s, c, AsWritten)
  {
    if KeepOffsets(s.index, order, first, max) {
      forall k | k in c.plan
        ensures HintedEntry(s, c, k, AsWritten) == c.plan[k]
      {
        var i :| 0 <= i < |order| && order[i] == k;
      }
    } else {
      var i :| 0 <= i < |order| && s.index[order[i]].pos != SlotOf(s.index, order, i, first, max).1;
      assert HintedEntry(s, c, order[i], AsWritten) != c.plan[order[i]];
    }
  }

  lemma {:induction false} LastHinted(index: Index, rule: HintRule, evs: seq<Event>, k: Bytes)
    ensures Last(HintView(index, rule, evs), k)
         == match Last(evs, k) case Some(ev) => Some(Hinted(index, rule, ev)) case None => None
  {
    if evs != [] {
      var n := |evs| - 1;
      LastHinted(index, rule, evs[..n], k);
      var view := HintView(index, rule, evs);
      assert view[..|view| - 1] == HintView(index, rule, evs[..n]);
    }
  }

  lemma {:induction false} HintViewSame(index: Index, rule: HintRule, evs: seq<Event>)
    requires forall ev :: ev in evs ==> Hinted(index, rule, ev) == ev
    ensures HintView(index, rule, evs) == evs
  {
    if |evs| > 0 {
      var init, ev := evs[..|evs| - 1], evs[|evs| - 1];
      assert evs == init + [ev];
      HintViewSame(index, rule, init);
      assert Hinted(index, rule, ev) == ev;
    }
  }

  lemma {:induction false} FoundIsEvent(f: FileId, rs: seq<Record>, pos: nat)
    requires Find(rs, pos).Some?
    ensures EventOf(f, pos, Find(rs, pos).value) in DataEvents(f, rs)
  {
    var n := |rs| - 1;
    if pos != Total(rs[..n]) {
      FoundIsEvent(f, rs[..n], pos);
    }
  }

  // ---------- the directory with any of the selected files removed ----------

  /** A merge whose copies are made, the hint files and data files that are gone already, the
      directory that is left, the first id that is new in it and the next free one. */
  datatype RemovalState = RemovalState(s: Store, selected: set<FileId>, c: Copy, rule: HintRule,
                               hints: set<FileId>, files: set<FileId>,
                               left: Disk, first: nat, next: nat) {
    ghost predicate Valid() {
      && left == Removed(c.disk, hints, files) && first == s.active + 1 && next == c.file + 1
      && IdsOk(s.disk, s.active) && HintsExact(s.disk) && Rebuild(s.disk).index == s.index
      && OutputsOk(s, c) && HintsFollow(s, c, rule) && OnlyCopies(s, c) && PlanOk(s, c)
      && PlanCovers(s, selected, c) && files <= selected && hints <= selected
    }
  }

  type Removal = r: RemovalState | r.Valid() ghost witness NoRemoval()

  lemma EmptyRebuilds(d: Disk)
    requires d == Disk(map[0 := []], map[])
    ensures Rebuild(d).index == map[]
  {
    RebuildAt(d, 1);
    assert FileEvents(d, 0) == [] && EventsBelow(d, 0) == [];
  }

  lemma NothingToRemove() returns (r: RemovalState)
    ensures r.Valid()
  {
    var d := Disk(map[0 := []], map[]);
    var s := Store(d, map[], map[], 0, 0);
    EmptyRebuilds(d);
    var c := StartCopy(s);
    assert forall f :: Content(c.disk, f) == [];
    r := RemovalState(s, {}, c, AsIndexed, {}, {}, c.disk, s.active + 1, c.file + 1);
  }

  lemma RemovalExists()
    ensures exists r: RemovalState :: r.Valid()
  {
    var r := NothingToRemove();
  }

  ghost function NoRemoval(): (r: RemovalState)
    ensures r.Valid()
  {
    RemovalExists();
    var r: RemovalState :| r.Valid();
    r
  }

  lemma OutputEvents(r: Removal, f: FileId)
    requires r.first <= f < r.next
    ensures FileEvents(r.left, f) == HintView(r.s.index, r.rule, DataEvents(f, Content(r.c.disk, f)))
  {
    assert f !in r.selected;
  }

  /** The log entry that the hint of a copied key stands for. */
  ghost function CopyOf(r: Removal, k: Bytes): Option<Event> {
    if k in r.c.plan then Some(Event(k, HintedEntry(r.s, r.c, k, r.rule), true)) else None
  }

  ghost predicate Only(evs: seq<Event>, f: FileId, k: Bytes, only: Option<Event>) {
    Last(evs, k) == if only.Some? && only.value.entry.fileid == f then only else None
  }

  /** Where every entry is a planned one, the newest for a key is the planned one or none. */
  lemma PlannedNewest(plan: Index, f: FileId, rs: seq<Record>, k: Bytes)
    requires AllPlanned(plan, DataEvents(f, rs))
    requires k in plan && plan[k].fileid == f ==>
               Find(rs, plan[k].pos).Some? && Find(rs, plan[k].pos).value.key == k
    ensures Last(DataEvents(f, rs), k)
         == (if k in plan && plan[k].fileid == f then Some(Event(k, plan[k], true)) else None)
  {
    var last := Last(DataEvents(f, rs), k);
    if last.Some? {
      LastIsThere(DataEvents(f, rs), k);
      EventsAreInFile(f, rs, last.value);
    } else if k in plan && plan[k].fileid == f {
      FoundIsEvent(f, rs, plan[k].pos);
      LastMissesNone(DataEvents(f, rs), EventOf(f, plan[k].pos, Find(rs, plan[k].pos).value));
    }
  }

  /** The newest entry for a key within one output file: its copy, if the copy is there. */
  lemma OutputNewest(r: Removal, f: FileId, k: Bytes)
    requires r.first <= f < r.next
    ensures Only(FileEvents(r.left, f), f, k, CopyOf(r, k))
  {
    hide DataEvents, FileEvents, HintView, Rebuild;
    OutputEvents(r, f);
    LastHinted(r.s.index, r.rule, DataEvents(f, Content(r.c.disk, f)), k);
    OutputPlanned(r, f, k);
  }

  lemma OutputPlanned(r: Removal, f: FileId, k: Bytes)
    requires r.first <= f
    ensures Last(DataEvents(f, Content(r.c.disk, f)), k)
         == (if k in r.c.plan && r.c.plan[k].fileid == f then Some(Event(k, r.c.plan[k], true)) else None)
  {
    assert AllPlanned(r.c.plan, DataEvents(f, Content(r.c.disk, f)));
    assert k in r.c.plan ==> Points(r.c.disk, k, r.c.plan[k]);
    PlannedNewest(r.c.plan, f, Content(r.c.disk, f), k);
  }

  /** When at most one of the newer files has an entry for the key, that entry is the newest. */
  lemma {:induction false} NewestInOneFile(d: Disk, m: nat, n: nat, k: Bytes, only: Option<Event>)
    requires m <= n
    requires forall f :: m <= f < n ==> Only(FileEvents(d, f), f, k, only)
    ensures NewestBelow(d, n, k)
         == (if only.Some? && m <= only.value.entry.fileid < n then only else NewestBelow(d, m, k))
  {
    if m < n {
      NewestStep(d, n, k);
      assert Only(FileEvents(d, n - 1), n - 1, k, only);
      NewestInOneFile(d, m, n - 1, k, only);
    }
  }

  lemma PlannedFileExists(r: Removal, k: Bytes)
    ensures r.first < r.next
    ensures k in r.c.plan ==> r.first <= r.c.plan[k].fileid < r.next
  {
  }

  lemma EveryOutputNewest(r: Removal, k: Bytes)
    ensures forall f: FileId :: r.first <= f < r.next ==>
              Only(FileEvents(r.left, f), f, k, CopyOf(r, k))
  {
    forall f: FileId | r.first <= f < r.next {
      OutputNewest(r, f, k);
    }
  }

  lemma OutputsNewest(r: Removal, k: Bytes)
    ensures NewestBelow(r.left, r.next, k)
         == (if k in r.c.plan then CopyOf(r, k) else NewestBelow(r.left, r.first, k))
  {
    EveryOutputNewest(r, k);
    PlannedFileExists(r, k);
    NewestInOneFile(r.left, r.first, r.next, k, CopyOf(r, k));
  }

  /** The old files that are left replay as before. */
  lemma OldEvents(r: Removal, f: FileId)
    requires f < r.first
    ensures FileEvents(r.left, f) == if f in r.files then [] else FileEvents(r.s.disk, f)
  {
    if f in r.s.disk.data && f !in r.files {
      assert Content(r.c.disk, f) == Content(r.s.disk, f);
    }
  }

  /** Every file of `a` replays as in `d` or not at all. */
  ghost predicate Sublog(a: Disk, d: Disk, n: nat) {
    forall f :: 0 <= f < n ==> FileEvents(a, f) == FileEvents(d, f) || FileEvents(a, f) == []
  }

  lemma {:induction false} NewestStays(a: Disk, d: Disk, n: nat, k: Bytes)
    requires Sublog(a, d, n) && HintsExact(d)
    requires NewestBelow(d, n, k).Some?
    requires var f := NewestBelow(d, n, k).value.entry.fileid; FileEvents(a, f) == FileEvents(d, f)
    ensures NewestBelow(a, n, k) == NewestBelow(d, n, k)
  {
    NewestStep(a, n, k);
    NewestStep(d, n, k);
    var here := Last(FileEvents(d, n - 1), k);
    if here.Some? {
      LastIsThere(FileEvents(d, n - 1), k);
      EventsAreInFile(n - 1, d.data[n - 1], here.value);
    } else {
      NewestStays(a, d, n - 1, k);
    }
  }

  lemma RemovalIsSublog(r: Removal)
    ensures Sublog(r.left, r.s.disk, r.first)
  {
    forall f: FileId | f < r.first {
      OldEvents(r, f);
    }
  }

  /** A key that keeps its old index entry still has it as its newest entry. */
  lemma UnselectedNewest(r: Removal, k: Bytes)
    requires k in r.s.index && k !in r.c.plan
    ensures NewestBelow(r.left, r.first, k) == Some(Event(k, r.s.index[k], true))
  {
    RebuildIsNewest(r.s.disk, r.first, k);
    NewestIsThere(r.s.disk, r.first, k);
    RemovalIsSublog(r);
    OldEvents(r, r.s.index[k].fileid);
    NewestStays(r.left, r.s.disk, r.first, k);
  }

  /** For the files that the engine had before the merge, only the removed data files matter. */
  lemma OnlyRemovedMatter(r: Removal, d: Disk)
    requires d == Removed(r.s.disk, r.files, r.files)
    ensures EventsBelow(r.left, r.first) == EventsBelow(d, r.first)
  {
    forall f: FileId | f < r.first
      ensures FileEvents(r.left, f) == FileEvents(d, f)
    {
      OldEvents(r, f);
    }
    EventsAgree(r.left, d, r.first);
  }

  lemma LeftIsAbove(r: Removal)
    ensures Above(r.left, r.next)
  {
  }

  // ---------- what the rebuilt index has ----------

  lemma NewestIsRebuilt(d: Disk, n: nat, k: Bytes, e: Entry)
    requires Above(d, n) && NewestBelow(d, n, k) == Some(Event(k, e, true))
    ensures var index := Rebuild(d).index; k in index && index[k] == e
  {
    RebuildIsNewest(d, n, k);
  }

  lemma DeadIsNotRebuilt(d: Disk, n: nat, k: Bytes, m: nat)
    requires Above(d, n) && NewestBelow(d, n, k) == NewestBelow(d, m, k)
    ensures k in Rebuild(d).index <==> Live(d, m, k)
  {
    RebuildIsNewest(d, n, k);
  }

  lemma RebuiltCopy(r: Removal, k: Bytes)
    requires k in r.c.plan
    ensures var index := Rebuild(r.left).index;
            k in index && index[k] == HintedEntry(r.s, r.c, k, r.rule)
  {
    LeftIsAbove(r);
    OutputsNewest(r, k);
    NewestIsRebuilt(r.left, r.next, k, HintedEntry(r.s, r.c, k, r.rule));
  }

  lemma RebuiltUnselected(r: Removal, k: Bytes)
    requires k in r.s.index && k !in r.c.plan
    ensures var index := Rebuild(r.left).index;
            k in index && index[k] == r.s.index[k]
  {
    LeftIsAbove(r);
    OutputsNewest(r, k);
    UnselectedNewest(r, k);
    NewestIsRebuilt(r.left, r.next, k, r.s.index[k]);
  }

  lemma RebuiltDeleted(r: Removal, d: Disk, k: Bytes)
    requires d == Removed(r.s.disk, r.files, r.files) && k !in r.s.index
    ensures k in Rebuild(r.left).index <==> Live(d, r.first, k)
  {
    LeftIsAbove(r);
    OutputsNewest(r, k);
    DeadIsNotRebuilt(r.left, r.next, k, r.first);
    OnlyRemovedMatter(r, d);
  }

  /** Everything that the rebuilt index has, with any of the selected files removed: the hinted
      entries of the copies, the old entries of the keys that were not copied, and what comes back. */
  lemma RebuiltKeys(r: Removal, d: Disk)
    requires d == Removed(r.s.disk, r.files, r.files)
    ensures var index := Rebuild(r.left).index;
            && (forall k :: k in r.c.plan ==> k in index && index[k] == HintedEntry(r.s, r.c, k, r.rule))
            && (forall k :: k in r.s.index && k !in r.c.plan ==> k in index && index[k] == r.s.index[k])
            && (forall k :: k !in r.s.index ==> (k in index <==> Live(d, r.first, k)))
  {
    forall k | k in r.c.plan {
      RebuiltCopy(r, k);
    }
    forall k | k in r.s.index && k !in r.c.plan {
      RebuiltUnselected(r, k);
    }
    forall k | k !in r.s.index {
      RebuiltDeleted(r, d, k);
    }
  }

  /** The rebuilt index is the index of the merge exactly when every hint points to its copy and no
      deleted key comes back. */
  lemma RebuiltIndex(r: Removal, d: Disk)
    requires d == Removed(r.s.disk, r.files, r.files)
    ensures r.c.plan.Keys <= r.s.index.Keys
    ensures Rebuild(r.left).index == r.s.index + r.c.plan
       <==> HintsPoint(r.s, r.c, r.rule) && NoneLive(r.s.index, d, r.first)
  {
    RebuiltKeys(r, d);
    IndexDecided(r.s, r.c, Rebuild(r.left).index, d, r.first, r.rule);
  }

  lemma IndexDecided(s: Store, c: Copy, index: Index, d: Disk, n: nat, rule: HintRule)
    requires c.plan.Keys <= s.index.Keys
    requires forall k :: k in c.plan ==> k in index && index[k] == HintedEntry(s, c, k, rule)
    requires forall k :: k in s.index && k !in c.plan ==> k in index && index[k] == s.index[k]
    requires forall k :: k !in s.index ==> (k in index <==> Live(d, n, k))
    ensures index == s.index + c.plan <==> HintsPoint(s, c, rule) && NoneLive(s.index, d, n)
  {
  }

  // ---------- the theorems ----------

  /** A merge whose copies are made, at any point of the removals. */
  lemma RemovalOf(s: Store, selected: set<FileId>, order: seq<Bytes>, max: nat, rule: HintRule,
                  hints: set<FileId>, files: set<FileId>) returns (r: Removal)
    requires Running(s, max) && Recoverable(s) && Selects(s, selected, order)
    requires files <= selected && hints <= selected
    ensures r.s == s && r.selected == selected && r.c == CopyAll(s, order, max, rule) && r.rule == rule
    ensures r.hints == hints && r.files == files
    ensures r.c.plan.Keys == (set k | k in order)
  {
    var c := CopyAll(s, order, max, rule);
    CopiesAreMade(s, selected, order, c, max, rule);
    var raw := RemovalState(s, selected, c, rule,
                            hints, files, Removed(c.disk, hints, files), s.active + 1, c.file + 1);
    assert raw.Valid();
    r := raw;
  }

  lemma PlanPositions(s: Store, order: seq<Bytes>, first: FileId, c: Copy, max: nat, rule: HintRule)
    requires Running(s, max) && Distinct(order, s.index) && c == CopyAll(s, order, max, rule)
    requires first == s.active + 1
    ensures forall i :: 0 <= i < |order| ==>
              order[i] in c.plan && c.plan[order[i]].pos == SlotOf(s.index, order, i, first, max).1
  {
    forall i | 0 <= i < |order| {
      PlanIsSlot(s, order, i, first, max, rule);
    }
  }

  lemma HintsPointWhenKept(s: Store, order: seq<Bytes>, first: FileId, c: Copy, max: nat, rule: HintRule)
    requires Running(s, max) && Distinct(order, s.index) && c == CopyAll(s, order, max, rule)
    requires first == s.active + 1
    requires c.plan.Keys == (set k | k in order) && c.plan.Keys <= s.index.Keys
    ensures OffsetsKept(s, order, first, max, rule) <==> HintsPoint(s, c, rule)
  {
    PlanPositions(s, order, first, c, max, rule);
    KeptMeansHintsPoint(s, order, first, c, max);
  }

  /** When the removals of a merge stop anywhere, rebuilding what is left gives the index of the merge,
      pointers included, if and only if every copied record was at its position already (or hints give
      the new positions) and no deleted key has lost its tombstone before its older values. */
  lemma StoppedMergeRebuilds(s: Store, selected: set<FileId>, order: seq<Bytes>, first: FileId, c: Copy,
                             max: nat, rule: HintRule, hints: set<FileId>, files: set<FileId>, left: Disk)
    requires Running(s, max) && Recoverable(s) && Selects(s, selected, order)
    requires files <= selected && hints <= selected
    requires first == s.active + 1 && c == CopyAll(s, order, max, rule) && left == Removed(c.disk, hints, files)
    ensures Rebuild(left).index == s.index + c.plan
       <==> OffsetsKept(s, order, first, max, rule) && NothingRevived(s, files, first)
  {
    var r := RemovalOf(s, selected, order, max, rule, hints, files);
    PlanIsOld(r);
    PlacesOfRemoval(r);
    HintsPointWhenKept(s, order, first, c, max, rule);
    StoppedRemovalRebuilds(r, first, left, OffsetsKept(s, order, first, max, rule));
  }

  lemma PlacesOfRemoval(r: Removal)
    ensures r.left == Removed(r.c.disk, r.hints, r.files) && r.first == r.s.active + 1
  {
  }

  lemma PlanIsOld(r: Removal)
    ensures r.c.plan.Keys <= r.s.index.Keys
  {
    RebuiltIndex(r, Removed(r.s.disk, r.files, r.files));
  }

  lemma StoppedRemovalRebuilds(r: Removal, first: FileId, left: Disk, kept: bool)
    requires left == r.left && first == r.first
    requires r.c.plan.Keys <= r.s.index.Keys && (kept <==> HintsPoint(r.s, r.c, r.rule))
    ensures Rebuild(left).index == r.s.index + r.c.plan <==> kept && NothingRevived(r.s, r.files, first)
  {
    RebuiltIndex(r, Removed(r.s.disk, r.files, r.files));
  }
}
