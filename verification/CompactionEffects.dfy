/**
 A merge cannot be seen from outside: at every point of its three phases the engine stands for the
 same map. Its end state satisfies the invariant of a running engine.
 */
module CompactionEffects {
  import opened Types
  import opened LogFile
  import opened KeyDir
  import opened Store
  import opened Compaction
  import opened CompactionCopy

  lemma SameReads(d: Disk, index: Index, d': Disk, index': Index)
    requires index.Keys == index'.Keys
    requires forall k :: k in index ==> ValueAt(d, index[k]) == ValueAt(d', index'[k])
    ensures Contents(d, index) == Contents(d', index')
  {
  }

  /** The keys that have been copied are those that point into the selected files, and nothing but
      old files is selected. */
  ghost predicate PlanCovers(s: Store, selected: set<FileId>, c: Copy) {
    && (forall k :: k in c.plan <==> k in s.index && s.index[k].fileid in selected)
    && (forall f :: f in selected ==> f in s.disk.data && f <= s.active)
    && (forall k :: k in s.index ==> s.index[k].fileid <= s.active)
  }

  /** The copies that a valid selection leads to. */
  lemma CopiesAreMade(s: Store, selected: set<FileId>, order: seq<Bytes>, c: Copy, max: nat, rule: HintRule)
    requires Running(s, max) && Selects(s, selected, order) && c == CopyAll(s, order, max, rule)
    ensures Copied(s, order, c, max, rule) && PlanCovers(s, selected, c)
  {
    CopyAllCopied(s, order, max, rule);
    SelectedAreOld(s, selected, max);
    IndexIsOld(s, max);
  }

  lemma SelectedAreOld(s: Store, selected: set<FileId>, max: nat)
    requires Running(s, max) && selected <= s.stats.Keys
    ensures forall f :: f in selected ==> f in s.disk.data && f <= s.active
  {
    forall f | f in selected
      ensures f in s.disk.data
    {
      assert ExactAt(Catalog(s.index, s.stats), f, |Content(s.disk, f)|, Total(Content(s.disk, f)));
    }
  }

  lemma IndexIsOld(s: Store, max: nat)
    requires Running(s, max)
    ensures forall k :: k in s.index ==> s.index[k].fileid <= s.active
  {
    forall k | k in s.index
      ensures s.index[k].fileid <= s.active
    {
      assert Points(s.disk, k, s.index[k]);
    }
  }

  // ---------- copying ----------

  lemma OldEntriesRead(s: Store, c: Copy, k: Bytes)
    requires IdsOk(s.disk, s.active) && AllPoint(s.disk, s.index)
    requires OutputsOk(s, c) && k in s.index
    ensures Points(c.disk, k, s.index[k]) && ValueAt(c.disk, s.index[k]) == ValueAt(s.disk, s.index[k])
  {
    assert Points(s.disk, k, s.index[k]);
  }

  /** After each copied record the map is unchanged, and every index entry still names a record. */
  lemma CopyingIsInvisible(s: Store, selected: set<FileId>, order: seq<Bytes>, i: nat, max: nat, rule: HintRule)
    requires Running(s, max) && Selects(s, selected, order) && i <= |order|
    ensures var c := CopyAll(s, order[..i], max, rule);
            Contents(c.disk, s.index) == Contents(s.disk, s.index) && AllPoint(c.disk, s.index)
  {
    var c := CopyAll(s, order[..i], max, rule);
    CopyAllCopied(s, order[..i], max, rule);
    forall k | k in s.index
      ensures Points(c.disk, k, s.index[k]) && ValueAt(c.disk, s.index[k]) == ValueAt(s.disk, s.index[k])
    {
      OldEntriesRead(s, c, k);
    }
    SameReads(c.disk, s.index, s.disk, s.index);
  }

  // ---------- pointing the index to the copies ----------

  /** Any index that takes each key to the original or to the copy reads the same. */
  lemma MixedEntry(s: Store, c: Copy, e: Entry, k: Bytes)
    requires IdsOk(s.disk, s.active) && AllPoint(s.disk, s.index)
    requires OutputsOk(s, c) && PlanOk(s, c) && k in s.index
    requires e == s.index[k] || (k in c.plan && e == c.plan[k])
    ensures Points(c.disk, k, e) && ValueAt(c.disk, e) == ValueAt(s.disk, s.index[k])
  {
    OldEntriesRead(s, c, k);
  }

  lemma MixedReads(s: Store, c: Copy, index: Index)
    requires IdsOk(s.disk, s.active) && AllPoint(s.disk, s.index)
    requires OutputsOk(s, c) && PlanOk(s, c)
    requires index.Keys == s.index.Keys
    requires forall k :: k in index ==> index[k] == s.index[k] || (k in c.plan && index[k] == c.plan[k])
    ensures Contents(c.disk, index) == Contents(s.disk, s.index) && AllPoint(c.disk, index)
  {
    forall k | k in index
      ensures Points(c.disk, k, index[k])
      ensures ValueAt(c.disk, index[k]) == ValueAt(s.disk, s.index[k])
    {
      MixedEntry(s, c, index[k], k);
    }
    SameReads(c.disk, index, s.disk, s.index);
  }

  lemma RepointedIsMixed(index: Index, plan: Index, done: set<Bytes>)
    requires plan.Keys <= index.Keys
    ensures var mixed := Repointed(index, plan, done);
            && mixed.Keys == index.Keys
            && forall k :: k in mixed ==> mixed[k] == index[k] || (k in plan && mixed[k] == plan[k])
  {
  }

  /** Pointing any part of the index to the copies, in whatever order, changes nothing. */
  lemma RepointingIsInvisible(s: Store, selected: set<FileId>, order: seq<Bytes>, done: set<Bytes>,
                              max: nat, rule: HintRule)
    requires Running(s, max) && Selects(s, selected, order)
    ensures var c := CopyAll(s, order, max, rule);
            var index := Repointed(s.index, c.plan, done);
            Contents(c.disk, index) == Contents(s.disk, s.index) && AllPoint(c.disk, index)
  {
    var c := CopyAll(s, order, max, rule);
    CopiesAreMade(s, selected, order, c, max, rule);
    RepointedIsMixed(s.index, c.plan, done);
    MixedReads(s, c, Repointed(s.index, c.plan, done));
  }

  // ---------- removing the selected files ----------

  /** Once the whole index is pointed to the copies, no entry refers to a file that will be removed. */
  lemma NothingLeftBehind(s: Store, selected: set<FileId>, c: Copy)
    requires PlanOk(s, c) && PlanCovers(s, selected, c)
    ensures (s.index + c.plan).Keys == s.index.Keys
    ensures forall k :: k in s.index ==> (s.index + c.plan)[k].fileid !in selected
  {
  }

  /** Removing files that no entry refers to changes nothing. */
  lemma RemovalKeepsReads(d: Disk, index: Index, hints: set<FileId>, files: set<FileId>)
    requires AllPoint(d, index) && forall k :: k in index ==> index[k].fileid !in files
    ensures AllPoint(Removed(d, hints, files), index)
    ensures Contents(Removed(d, hints, files), index) == Contents(d, index)
  {
    forall k | k in index
      ensures Content(Removed(d, hints, files), index[k].fileid) == Content(d, index[k].fileid)
    {
    }
    SameReads(Removed(d, hints, files), index, d, index);
  }

  lemma RemovedReads(s: Store, selected: set<FileId>, c: Copy, hints: set<FileId>, files: set<FileId>)
    requires IdsOk(s.disk, s.active) && AllPoint(s.disk, s.index)
    requires OutputsOk(s, c) && PlanOk(s, c) && PlanCovers(s, selected, c)
    requires files <= selected
    ensures var d := Removed(c.disk, hints, files);
            Contents(d, s.index + c.plan) == Contents(s.disk, s.index) && AllPoint(d, s.index + c.plan)
  {
    NothingLeftBehind(s, selected, c);
    MixedReads(s, c, s.index + c.plan);
    RemovalKeepsReads(c.disk, s.index + c.plan, hints, files);
  }

  /** Before the first removal no entry refers to a selected file, and removing any of the selected
      files and hint files changes nothing. */
  lemma RemovingIsInvisible(s: Store, selected: set<FileId>, order: seq<Bytes>,
                            hints: set<FileId>, files: set<FileId>, max: nat, rule: HintRule)
    requires Running(s, max) && Selects(s, selected, order) && files <= selected
    ensures var c := CopyAll(s, order, max, rule);
            var d := Removed(c.disk, hints, files);
            && (forall k :: k in s.index + c.plan ==> (s.index + c.plan)[k].fileid !in selected)
            && Contents(d, s.index + c.plan) == Contents(s.disk, s.index)
            && AllPoint(d, s.index + c.plan)
  {
    var c := CopyAll(s, order, max, rule);
    CopiesAreMade(s, selected, order, c, max, rule);
    NothingLeftBehind(s, selected, c);
    RemovedReads(s, selected, c, hints, files);
  }

  // ---------- the end state ----------

  lemma FinishContent(s: Store, selected: set<FileId>, c: Copy, next: FileId, f: FileId)
    requires next > c.file
    requires OutputsOk(s, c) && PlanCovers(s, selected, c)
    ensures var t := Finish(s, c, selected, next);
            && Content(t.disk, f) == (if f in selected then [] else Content(c.disk, f))
            && (f in t.disk.data <==> (f in c.disk.data && f !in selected) || f == next)
            && (f in t.disk.hint <==> f in c.disk.hint && f !in selected)
            && (f in t.disk.hint ==> t.disk.hint[f] == c.disk.hint[f])
  {
  }

  /** The entries of a file after the merge: as before in an unselected old file, none in a selected
      one, and the planned ones in an output. */
  ghost function IndexLike(s: Store, selected: set<FileId>, c: Copy, f: FileId): Index {
    if f > s.active then c.plan else if f in selected then map[] else s.index
  }

  lemma FinishAtFile(s: Store, selected: set<FileId>, c: Copy, f: FileId)
    requires PlanOk(s, c) && PlanCovers(s, selected, c)
    ensures AtFile(s.index + c.plan, f) == AtFile(IndexLike(s, selected, c, f), f)
  {
    NothingLeftBehind(s, selected, c);
    assert AtFile(map[], f) == map[];
  }

  lemma FinishStatsAt(s: Store, selected: set<FileId>, c: Copy, next: FileId, f: FileId, max: nat)
    requires next > c.file
    requires Running(s, max) && OutputsOk(s, c) && PlanOk(s, c) && CountsOk(s, c) && PlanCovers(s, selected, c)
    ensures var t := Finish(s, c, selected, next);
            ExactAt(Catalog(t.index, t.stats), f, |Content(t.disk, f)|, Total(Content(t.disk, f)))
  {
    FinishContent(s, selected, c, next, f);
    FinishAtFile(s, selected, c, f);
    var like := IndexLike(s, selected, c, f);
    SumAgrees(s.index + c.plan, like, f, Count);
    SumAgrees(s.index + c.plan, like, f, Length);
    if f > s.active {
      assert ExactAt(Catalog(c.plan, c.stats), f, |Content(c.disk, f)|, Total(Content(c.disk, f)));
    } else if f !in selected {
      assert ExactAt(Catalog(s.index, s.stats), f, |Content(s.disk, f)|, Total(Content(s.disk, f)));
    }
  }

  lemma FinishFiles(s: Store, selected: set<FileId>, c: Copy, next: FileId, max: nat)
    requires next > c.file
    requires Running(s, max) && OutputsOk(s, c) && OutputsBounded(s, c, max) && PlanCovers(s, selected, c)
    ensures var t := Finish(s, c, selected, next);
            IdsOk(t.disk, t.active) && AllBounded(t.disk, max) && t.active > c.file > s.active
  {
    var t := Finish(s, c, selected, next);
    forall f: FileId
      ensures f in t.disk.data ==> Bounded(t.disk.data[f], max) && f <= t.active
      ensures f in t.disk.hint ==> f in t.disk.data && f != t.active
    {
      FinishContent(s, selected, c, next, f);
      assert f <= s.active && f in c.disk.hint ==> f in s.disk.hint.Keys;
    }
  }

  lemma NewActiveKeepsReads(s: Store, f: FileId)
    requires f !in s.disk.data && AllPoint(s.disk, s.index)
    ensures var t := NewActive(s, f);
            && t.index == s.index && AllPoint(t.disk, s.index)
            && Contents(t.disk, s.index) == Contents(s.disk, s.index)
  {
    var d := NewActive(s, f).disk;
    assert forall g :: Content(d, g) == Content(s.disk, g);
    SameReads(d, s.index, s.disk, s.index);
  }

  lemma FinishReads(s: Store, selected: set<FileId>, c: Copy, next: FileId)
    requires next > c.file
    requires IdsOk(s.disk, s.active) && AllPoint(s.disk, s.index)
    requires OutputsOk(s, c) && PlanOk(s, c) && PlanCovers(s, selected, c)
    ensures var t := Finish(s, c, selected, next);
            AllPoint(t.disk, t.index) && Contents(t.disk, t.index) == Contents(s.disk, s.index)
  {
    var t := Finish(s, c, selected, next);
    var b := BeforeActive(s, c, selected);
    RemovedReads(s, selected, c, selected, selected);
    NewActiveKeepsReads(b, next);
    assert t == NewActive(b, next);
  }

  lemma FinishRuns(s: Store, selected: set<FileId>, c: Copy, next: FileId, max: nat)
    requires next > c.file
    requires Running(s, max) && OutputsOk(s, c) && OutputsBounded(s, c, max) && PlanOk(s, c)
    requires CountsOk(s, c) && PlanCovers(s, selected, c)
    ensures Running(Finish(s, c, selected, next), max)
  {
    var t := Finish(s, c, selected, next);
    assert IdsOk(t.disk, t.active) && AllBounded(t.disk, max) by { FinishFiles(s, selected, c, next, max); }
    assert AllPoint(t.disk, t.index) by { FinishReads(s, selected, c, next); }
    assert StatsExact(t.disk, Catalog(t.index, t.stats)) by {
      forall f {
        FinishStatsAt(s, selected, c, next, f, max);
      }
    }
  }

  lemma FinishOk(s: Store, selected: set<FileId>, order: seq<Bytes>, c: Copy, next: FileId, max: nat,
                 rule: HintRule, t: Store)
    requires Running(s, max) && Copied(s, order, c, max, rule) && PlanCovers(s, selected, c) && next > c.file
    requires t == Finish(s, c, selected, next)
    ensures Running(t, max)
    ensures Contents(t.disk, t.index) == Contents(s.disk, s.index)
    ensures t.active > s.active
  {
    FinishRuns(s, selected, c, next, max);
    FinishReads(s, selected, c, next);
  }

  /** A merge keeps the invariant of a running engine, the statistics included, and leaves the map as
      it was. */
  lemma MergeKeepsRunning(s: Store, selected: set<FileId>, order: seq<Bytes>, max: nat, rule: HintRule, t: Store)
    requires Running(s, max) && Selects(s, selected, order) && t == Merge(s, selected, order, max, rule)
    ensures Running(t, max)
    ensures Contents(t.disk, t.index) == Contents(s.disk, s.index)
    ensures t.active > s.active
  {
    var c, next := CopiesOf(s, selected, order, max, rule, t);
    FinishOk(s, selected, order, c, next, max, rule, t);
  }

  lemma CopiesOf(s: Store, selected: set<FileId>, order: seq<Bytes>, max: nat, rule: HintRule, t: Store)
    returns (c: Copy, next: FileId)
    requires Running(s, max) && Selects(s, selected, order) && t == Merge(s, selected, order, max, rule)
    ensures c == CopyAll(s, order, max, rule) && next == c.file + 1 && t == Finish(s, c, selected, next)
    ensures Copied(s, order, c, max, rule) && PlanCovers(s, selected, c)
  {
    c := CopyAll(s, order, max, rule);
    next := c.file + 1;
    CopiesAreMade(s, selected, order, c, max, rule);
  }
}
