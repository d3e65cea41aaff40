/**
 Reopening after a merge, and after a crash in the middle of one.
 */
module CompactionTheorems {
  import opened Types
  import opened LogFile
  import opened KeyDir
  import opened Store
  import opened Recovery
  import opened Compaction
  import opened CompactionEffects
  import opened CompactionRecovery

  // ---------- reopening after a merge ----------

  lemma HintedIsPlanned(r: Removal, f: FileId, ev: Event)
    requires HintsPoint(r.s, r.c, r.rule) && r.first <= f && ev in DataEvents(f, Content(r.c.disk, f))
    ensures Hinted(r.s.index, r.rule, ev) == ev
  {
    assert AllPlanned(r.c.plan, DataEvents(f, Content(r.c.disk, f)));
    assert HintedEntry(r.s, r.c, ev.key, r.rule) == r.c.plan[ev.key];
  }

  /** When every hint points to its copy, the hint files say what the data files say. */
  lemma HintsStayExact(r: Removal)
    requires HintsPoint(r.s, r.c, r.rule)
    ensures HintsExact(r.left)
  {
    forall f: FileId | f in r.left.hint && f in r.left.data
      ensures HintEvents(f, r.left.hint[f]) == DataEvents(f, r.left.data[f])
    {
      if f >= r.first {
        var evs := DataEvents(f, Content(r.c.disk, f));
        forall ev | ev in evs {
          HintedIsPlanned(r, f, ev);
        }
        HintViewSame(r.s.index, r.rule, evs);
      } else {
        assert Content(r.c.disk, f) == Content(r.s.disk, f);
      }
    }
  }

  lemma NewFileRebuilds(d: Disk, next: FileId)
    requires Above(d, next) && next !in d.hint
    ensures Rebuild(Create(d, next)) == Rebuild(d)
    ensures HintsExact(d) ==> HintsExact(Create(d, next))
  {
    CreateKeepsReplay(d, next);
    RebuildAt(d, next);
    NextAfter(d, next, next + 1);
  }

  lemma NextAfter(d: Disk, next: FileId, n: nat)
    requires n == next + 1 && Above(Create(d, next), n)
    ensures Rebuild(Create(d, next)) == Replay(EventsBelow(Create(d, next), n))
  {
    RebuildAt(Create(d, next), n);
  }

  lemma MergedIs(r: Removal, t: Store, max: nat, order: seq<Bytes>)
    requires r.selected == r.files == r.hints && r.c == CopyAll(r.s, order, max, r.rule)
    requires t == Merge(r.s, r.selected, order, max, r.rule)
    ensures t.disk == Create(r.left, r.next) && t.index == r.s.index + r.c.plan
  {
    hide CopyAll, HintsExact, HintsFollow, IdsOk, OnlyCopies, OutputsOk, PlanCovers, PlanOk, Rebuild;
  }

  lemma MergedFiles(s: Store, selected: set<FileId>, order: seq<Bytes>, max: nat, rule: HintRule, t: Store)
    returns (r: Removal)
    requires Running(s, max) && Recoverable(s) && Selects(s, selected, order)
    requires t == Merge(s, selected, order, max, rule)
    ensures r.s == s && r.selected == r.files == r.hints == selected && r.rule == rule
    ensures r.c == CopyAll(s, order, max, rule) && r.c.plan.Keys == (set k | k in order)
    ensures t.index == s.index + r.c.plan
    ensures Rebuild(t.disk) == Rebuild(r.left) && (HintsExact(r.left) ==> HintsExact(t.disk))
  {
    r := RemovalOf(s, selected, order, max, rule, selected, selected);
    MergedIs(r, t, max, order);
    LeftIsAbove(r);
    NewFileRebuilds(r.left, r.next);
  }

  /** After a merge the directory rebuilds to the index of the running engine if and only if every
      copied record starts where its hint says and no deleted key loses its tombstone while an older
      value stays. */
  lemma MergeRecoverableIff(s: Store, selected: set<FileId>, order: seq<Bytes>, max: nat, rule: HintRule)
    requires Running(s, max) && Recoverable(s) && Selects(s, selected, order)
    ensures var t, first := Merge(s, selected, order, max, rule), s.active + 1;
            var kept := OffsetsKept(s, order, first, max, rule) && NothingRevived(s, selected, first);
            (Rebuild(t.disk).index == t.index <==> kept) && (Recoverable(t) <==> kept)
  {
    hide Merge, NothingRevived, OffsetsKept, Rebuild, Recoverable, Running, Selects;
    MergedRebuilds(s, selected, order, s.active + 1, max, rule, Merge(s, selected, order, max, rule));
  }

  lemma MergedRebuilds(s: Store, selected: set<FileId>, order: seq<Bytes>, first: FileId, max: nat,
                       rule: HintRule, t: Store)
    requires Running(s, max) && Recoverable(s) && Selects(s, selected, order)
    requires first == s.active + 1 && t == Merge(s, selected, order, max, rule)
    ensures Rebuild(t.disk).index == t.index
       <==> OffsetsKept(s, order, first, max, rule) && NothingRevived(s, selected, first)
    ensures Recoverable(t) <==> OffsetsKept(s, order, first, max, rule) && NothingRevived(s, selected, first)
  {
    var r := MergedFiles(s, selected, order, max, rule, t);
    StoppedMergeRebuilds(s, selected, order, first, r.c, max, rule, selected, selected, r.left);
    HintsPointWhenKept(s, order, first, r.c, max, rule);
    if OffsetsKept(s, order, first, max, rule) {
      HintsStayExact(r);
    }
  }

  /** The entry that a hint gives for a copy, from the old entry of the key and its new one. */
  ghost function HintSays(before: Entry, after: Entry, rule: HintRule): Entry {
    if rule.AsWritten? then after.(pos := before.pos) else after
  }

  lemma CopiedRebuilds(s: Store, c: Copy, rule: HintRule, index: Index, merged: Index, k: Bytes)
    requires k in c.plan && k in s.index && k in index && index[k] == HintedEntry(s, c, k, rule)
    requires merged == s.index + c.plan
    ensures k in merged && index[k] == HintSays(s.index[k], merged[k], rule)
  {
  }

  lemma MergedKeys(s: Store, selected: set<FileId>, order: seq<Bytes>, first: FileId, max: nat, rule: HintRule,
                   t: Store, left: Disk) returns (c: Copy)
    requires Running(s, max) && Recoverable(s) && Selects(s, selected, order) && first == s.active + 1
    requires t == Merge(s, selected, order, max, rule) && left == Removed(s.disk, selected, selected)
    ensures c.plan.Keys == (set k | k in order) && c.plan.Keys <= s.index.Keys && t.index == s.index + c.plan
    ensures var index := Rebuild(t.disk).index;
            && (forall k :: k in c.plan ==> k in index && index[k] == HintedEntry(s, c, k, rule))
            && (forall k :: k in s.index && k !in c.plan ==> k in index && index[k] == s.index[k])
            && (forall k :: k !in s.index ==> (k in index <==> Live(left, first, k)))
  {
    hide CopyAll, HintedEntry, HintsExact, HintsFollow, IdsOk, Live, Merge, OnlyCopies, OutputsOk, PlanCovers, PlanOk,
      Rebuild, Recoverable, Removed, Running, Selects;
    var r := MergedFiles(s, selected, order, max, rule, t);
    PlacesOfRemoval(r);
    PlanIsOld(r);
    RebuiltKeys(r, left);
    c := r.c;
  }

  /** What the directory rebuilds to after a merge, key by key. A copied key has the entry that its hint
      gives, which is the new one, but with the old position under the code's rule; the other keys of the
      index keep their entries; and a deleted key is back if the newest entry that is left is a value. */
  lemma MergeRebuildsTo(s: Store, selected: set<FileId>, order: seq<Bytes>, max: nat, rule: HintRule)
    requires Running(s, max) && Recoverable(s) && Selects(s, selected, order)
    ensures var t := Merge(s, selected, order, max, rule);
            var index, left := Rebuild(t.disk).index, Removed(s.disk, selected, selected);
            && (forall k :: k in order ==>
                  k in s.index && k in t.index && k in index && index[k] == HintSays(s.index[k], t.index[k], rule))
            && (forall k :: k in s.index && k !in order ==> k in index && index[k] == s.index[k])
            && (forall k :: k !in s.index ==> (k in index <==> Live(left, s.active + 1, k)))
  {
    hide HintSays, HintedEntry, Live, Merge, Rebuild, Recoverable, Removed, Running, Selects;
    var t, first := Merge(s, selected, order, max, rule), s.active + 1;
    var c := MergedKeys(s, selected, order, first, max, rule, t, Removed(s.disk, selected, selected));
    var index := Rebuild(t.disk).index;
    forall k | k in order
      ensures k in s.index && k in t.index && k in index && index[k] == HintSays(s.index[k], t.index[k], rule)
    {
      assert k in c.plan;
      CopiedRebuilds(s, c, rule, index, t.index, k);
    }
  }

  // ---------- selections without gaps ----------

  /** With a file, every older file that has entries is selected too. */
  ghost predicate DownwardClosed(s: Store, files: set<FileId>) {
    forall f, g :: f in files && g in s.stats && g < f ==> g in files
  }

  /** `a` is `d` without its oldest files. */
  ghost predicate Suffix(a: Disk, d: Disk, n: nat) {
    forall f :: 0 <= f < n ==> FileEvents(a, f) == FileEvents(d, f) || Silent(a, f)
  }

  ghost predicate Silent(a: Disk, f: FileId) {
    forall g :: 0 <= g <= f ==> FileEvents(a, g) == []
  }

  lemma {:induction false} SilentHasNone(a: Disk, m: nat, n: nat, k: Bytes)
    requires Silent(a, m) && n <= m + 1
    ensures NewestBelow(a, n, k) == None
    decreases n
  {
    if n > 0 {
      NewestStep(a, n, k);
      SilentHasNone(a, m, n - 1, k);
    }
  }

  lemma SameFileNewest(a: Disk, d: Disk, m: nat, n: nat, k: Bytes)
    requires n == m + 1 && FileEvents(a, m) == FileEvents(d, m)
    requires NewestBelow(a, m, k) == NewestBelow(d, m, k) || NewestBelow(a, m, k) == None
    ensures NewestBelow(a, n, k) == NewestBelow(d, n, k) || NewestBelow(a, n, k) == None
  {
    NewestStep(a, n, k);
    NewestStep(d, n, k);
  }

  /** Losing only the oldest files, a key keeps its newest entry or loses all. */
  lemma {:induction false} SuffixNewest(a: Disk, d: Disk, n: nat, k: Bytes)
    requires Suffix(a, d, n)
    ensures NewestBelow(a, n, k) == NewestBelow(d, n, k) || NewestBelow(a, n, k) == None
  {
    if n > 0 {
      var m := n - 1;
      if FileEvents(a, m) == FileEvents(d, m) {
        SuffixNewest(a, d, m, k);
        SameFileNewest(a, d, m, n, k);
      } else {
        SilentHasNone(a, m, n, k);
      }
    }
  }

  lemma RemovedIsSuffix(s: Store, files: set<FileId>, a: Disk, first: FileId, max: nat)
    requires Running(s, max) && HintsExact(s.disk) && DownwardClosed(s, files)
    requires a == Removed(s.disk, files, files)
    ensures Suffix(a, s.disk, first)
  {
    forall f: FileId | f < first
      ensures FileEvents(a, f) == FileEvents(s.disk, f) || Silent(a, f)
    {
      if f in files {
        forall g: FileId | g <= f
          ensures FileEvents(a, g) == []
        {
          if g !in files {
            NoStatsNoEvents(s, g, max);
          }
        }
      }
    }
  }

  lemma NoStatsNoEvents(s: Store, g: FileId, max: nat)
    requires Running(s, max) && HintsExact(s.disk) && g !in s.stats
    ensures Content(s.disk, g) == [] && FileEvents(s.disk, g) == []
  {
    assert ExactAt(Catalog(s.index, s.stats), g, |Content(s.disk, g)|, Total(Content(s.disk, g)));
  }

  /** Removing files from the oldest up never brings a deleted key back. */
  lemma ClosedRevivesNothing(s: Store, files: set<FileId>, first: FileId, max: nat)
    requires Running(s, max) && Recoverable(s) && DownwardClosed(s, files) && first == s.active + 1
    ensures NothingRevived(s, files, first)
  {
    var a := Removed(s.disk, files, files);
    RemovedIsSuffix(s, files, a, first, max);
    forall k | k !in s.index
      ensures !Live(a, first, k)
    {
      SuffixNewest(a, s.disk, first, k);
      RebuildIsNewest(s.disk, first, k);
    }
  }

  // ---------- a crash while the selected files are removed ----------

  /** The ids are removed in ascending order, each hint file before its data file; `j` data files are
      gone, and maybe the hint file of the next one. */
  ghost predicate RemovalPoint(selected: set<FileId>, ids: seq<FileId>, j: nat,
                               hints: set<FileId>, files: set<FileId>) {
    && (forall f :: f in ids <==> f in selected)
    && (forall a, b :: 0 <= a < b < |ids| ==> ids[a] < ids[b])
    && j <= |ids|
    && files == (set f | f in ids[..j])
    && (hints == files || (j < |ids| && hints == files + {ids[j]}))
  }

  lemma RemovalPointIsClosed(s: Store, selected: set<FileId>, ids: seq<FileId>, j: nat,
                             hints: set<FileId>, files: set<FileId>)
    requires DownwardClosed(s, selected) && RemovalPoint(selected, ids, j, hints, files)
    ensures DownwardClosed(s, files) && files <= selected && files <= hints <= selected
  {
    forall f, g | f in files && g in s.stats && g < f
      ensures g in files
    {
      var a :| 0 <= a < j && ids[a] == f;
      assert ids[a] in selected;
      var b :| 0 <= b < |ids| && ids[b] == g;
      assert b < a;
      assert ids[..j][b] == g;
    }
    forall f | f in files
      ensures f in selected
    {
      var a :| 0 <= a < j && ids[a] == f;
      assert ids[a] in ids;
    }
    if j < |ids| {
      assert ids[j] in ids;
    }
  }

  lemma LeftIsWhole(r: Removal, max: nat)
    requires Running(r.s, max) && OutputsBounded(r.s, r.c, max) && r.files <= r.hints
    ensures AllBounded(r.left, max) && r.left.hint.Keys <= r.left.data.Keys
  {
    forall f: FileId
      ensures f in r.left.data ==> Bounded(r.left.data[f], max)
      ensures f in r.left.hint ==> f in r.left.data
    {
      if f < r.first {
        assert Content(r.c.disk, f) == Content(r.s.disk, f);
        assert f in r.s.disk.hint ==> f in r.s.disk.data.Keys;
      }
    }
  }

  /** A crash during the removals of a merge is harmless: for every selection without gaps, with hints
      that give the positions of the copies, what is left on disk opens, after any number of removals,
      as a running engine with the index of the merge, and stands for the map before the merge. */
  lemma CrashSafeCompaction(s: Store, selected: set<FileId>, order: seq<Bytes>, max: nat, rule: HintRule,
                            ids: seq<FileId>, j: nat, hints: set<FileId>, files: set<FileId>)
    requires Running(s, max) && Recoverable(s) && Selects(s, selected, order)
    requires DownwardClosed(s, selected) && OffsetsKept(s, order, s.active + 1, max, rule)
    requires RemovalPoint(selected, ids, j, hints, files)
    ensures var c := CopyAll(s, order, max, rule);
            var t := Open(Removed(c.disk, hints, files));
            && Running(t, max) && Recoverable(t)
            && t.index == s.index + c.plan && Contents(t.disk, t.index) == Contents(s.disk, s.index)
  {
    hide Contents, CopyAll, OffsetsKept, Open, Recoverable, Removed, Running, Selects;
    var c := CopyAll(s, order, max, rule);
    var left := Removed(c.disk, hints, files);
    CrashedOpens(s, selected, order, s.active + 1, max, rule, ids, j, hints, files, c, left, Open(left));
  }

  lemma CrashedOpens(s: Store, selected: set<FileId>, order: seq<Bytes>, first: FileId, max: nat, rule: HintRule,
                     ids: seq<FileId>, j: nat, hints: set<FileId>, files: set<FileId>, c: Copy, left: Disk, t: Store)
    requires Running(s, max) && Recoverable(s) && Selects(s, selected, order) && first == s.active + 1
    requires DownwardClosed(s, selected) && OffsetsKept(s, order, first, max, rule)
    requires RemovalPoint(selected, ids, j, hints, files)
    requires c == CopyAll(s, order, max, rule) && left == Removed(c.disk, hints, files) && t == Open(left)
    ensures Running(t, max) && Recoverable(t)
    ensures t.index == s.index + c.plan && Contents(t.disk, t.index) == Contents(s.disk, s.index)
  {
    RemovalPointIsClosed(s, selected, ids, j, hints, files);
    CrashRebuilds(s, selected, order, first, max, rule, hints, files, left);
    OpenRuns(left, max);
    OpenedReads(s, selected, order, max, rule, hints, files, c, left, t);
  }

  lemma OpenedReads(s: Store, selected: set<FileId>, order: seq<Bytes>, max: nat, rule: HintRule,
                    hints: set<FileId>, files: set<FileId>, c: Copy, left: Disk, t: Store)
    requires Running(s, max) && Selects(s, selected, order) && files <= selected
    requires c == CopyAll(s, order, max, rule) && left == Removed(c.disk, hints, files) && t == Open(left)
    requires Rebuild(left).index == s.index + c.plan
    ensures t.index == s.index + c.plan && Contents(t.disk, t.index) == Contents(s.disk, s.index)
  {
    RemovingIsInvisible(s, selected, order, hints, files, max, rule);
    SameContents(t.disk, left, t.index);
  }

  lemma CrashRebuilds(s: Store, selected: set<FileId>, order: seq<Bytes>, first: FileId, max: nat, rule: HintRule,
                      hints: set<FileId>, files: set<FileId>, left: Disk)
    requires Running(s, max) && Recoverable(s) && Selects(s, selected, order) && first == s.active + 1
    requires OffsetsKept(s, order, first, max, rule)
    requires DownwardClosed(s, files) && files <= hints && hints <= selected
    requires left == Removed(CopyAll(s, order, max, rule).disk, hints, files)
    ensures Rebuild(left).index == s.index + CopyAll(s, order, max, rule).plan
    ensures HintsExact(left) && AllBounded(left, max) && left.hint.Keys <= left.data.Keys
  {
    var r := RemovalOf(s, selected, order, max, rule, hints, files);
    ClosedRevivesNothing(s, files, first, max);
    StoppedMergeRebuilds(s, selected, order, first, r.c, max, rule, hints, files, left);
    HintsPointWhenKept(s, order, first, r.c, max, rule);
    HintsStayExact(r);
    CopiesAreMade(s, selected, order, r.c, max, rule);
    LeftIsWhole(r, max);
  }
}
