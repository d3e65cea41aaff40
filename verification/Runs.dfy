/**
 Whole runs of the engine: every history of puts, deletes, reads, merges and reopenings behaves as a
 plain map, and a file that is cut short gives back an earlier state of it.
 */
module Runs {
  import opened Types
  import opened Framing
  import opened LogCodec
  import opened LogFile
  import opened KeyDir
  import opened Store
  import opened Recovery
  import opened Compaction
  import opened CompactionEffects
  import opened CompactionRecovery
  import opened CompactionTheorems

  datatype Op =
    | PutOp(tstamp: i64, key: Bytes, value: Bytes)
    | DeleteOp(tstamp: i64, key: Bytes)
    | GetOp(key: Bytes)
    | MergeOp(selected: set<FileId>, order: seq<Bytes>)
    | ReopenOp

  datatype Answer = Done | Deleted(existed: bool) | Found(value: Option<Bytes>)

  ghost function Step(s: Store, op: Op, max: nat, rule: HintRule): (Store, Answer) {
    match op
    case PutOp(ts, k, v) => (Put(s, ts, k, v, max), Done)
    case DeleteOp(ts, k) => (Delete(s, ts, k, max).0, Deleted(Delete(s, ts, k, max).1))
    case GetOp(k) => (s, Found(Get(s, k)))
    case MergeOp(selected, order) => (Merge(s, selected, order, max, rule), Done)
    case ReopenOp => (Open(Close(s)), Done)
  }

  /** The same operations on a map. */
  ghost function MapStep(m: map<Bytes, Bytes>, op: Op): (map<Bytes, Bytes>, Answer) {
    match op
    case PutOp(_, k, v) => (m[k := v], Done)
    case DeleteOp(_, k) => (m - {k}, Deleted(k in m))
    case GetOp(k) => (m, Found(if k in m then Some(m[k]) else None))
    case MergeOp(_, _) => (m, Done)
    case ReopenOp => (m, Done)
  }

  ghost function Run(s: Store, ops: seq<Op>, max: nat, rule: HintRule): (Store, seq<Answer>) {
    if |ops| == 0 then (s, [])
    else
      var (t, answers) := Run(s, ops[..|ops| - 1], max, rule);
      var (u, answer) := Step(t, ops[|ops| - 1], max, rule);
      (u, answers + [answer])
  }

  ghost function MapRun(m: map<Bytes, Bytes>, ops: seq<Op>): (map<Bytes, Bytes>, seq<Answer>) {
    if |ops| == 0 then (m, [])
    else
      var (n, answers) := MapRun(m, ops[..|ops| - 1]);
      var (p, answer) := MapStep(n, ops[|ops| - 1]);
      (p, answers + [answer])
  }

  /** A merge takes any selection; reopening needs a directory that rebuilds to the index. */
  ghost predicate Allowed(s: Store, op: Op) {
    match op
    case MergeOp(selected, order) => Selects(s, selected, order)
    case ReopenOp => Recoverable(s)
    case _ => true
  }

  ghost predicate AllAllowed(s: Store, ops: seq<Op>, max: nat, rule: HintRule) {
    |ops| == 0 ||
    (AllAllowed(s, ops[..|ops| - 1], max, rule) && Allowed(Run(s, ops[..|ops| - 1], max, rule).0, ops[|ops| - 1]))
  }

  /** One operation keeps the invariant and does to the map what it should. */
  lemma StepRefinesMap(s: Store, op: Op, max: nat, rule: HintRule, t: Store)
    requires Running(s, max) && Allowed(s, op) && t == Step(s, op, max, rule).0
    ensures Running(t, max)
    ensures Contents(t.disk, t.index) == MapStep(Contents(s.disk, s.index), op).0
    ensures Step(s, op, max, rule).1 == MapStep(Contents(s.disk, s.index), op).1
  {
    match op {
      case PutOp(ts, k, v) =>
        UpdateKeepsRunning(s, Record(ts, k, Some(v)), max);
        UpdateContents(s, Record(ts, k, Some(v)), max);
      case DeleteOp(ts, k) =>
        UpdateKeepsRunning(s, Record(ts, k, None), max);
        UpdateContents(s, Record(ts, k, None), max);
        GetReadsContents(s, k);
      case GetOp(k) =>
        GetReadsContents(s, k);
      case MergeOp(selected, order) =>
        MergeKeepsRunning(s, selected, order, max, rule, t);
      case ReopenOp =>
        ReopenRestores(s, max);
    }
  }

  /** Under every sequence of puts, deletes, reads, merges of any selection and reopenings, the engine
      answers as a plain map does, the Boolean of a delete included, and ends as that map. */
  lemma {:induction false} RunRefinesMap(s: Store, ops: seq<Op>, max: nat, rule: HintRule)
    requires Running(s, max) && AllAllowed(s, ops, max, rule)
    ensures var (t, answers) := Run(s, ops, max, rule);
            var (m, expected) := MapRun(Contents(s.disk, s.index), ops);
            Running(t, max) && Contents(t.disk, t.index) == m && answers == expected
  {
    if |ops| > 0 {
      var init, op := ops[..|ops| - 1], ops[|ops| - 1];
      RunRefinesMap(s, init, max, rule);
      var t := Run(s, init, max, rule).0;
      StepRefinesMap(t, op, max, rule, Step(t, op, max, rule).0);
    }
  }

  // ---------- histories that can be reopened ----------

  /** Any operation, as long as a merge meets the two conditions of a reopening. The first output of
      a merge has id `first`. */
  ghost predicate Benign(s: Store, op: Op, first: FileId, max: nat, rule: HintRule) {
    match op
    case MergeOp(selected, order) =>
      && Selects(s, selected, order)
      && OffsetsKept(s, order, first, max, rule) && NothingRevived(s, selected, first)
    case _ => true
  }

  ghost predicate AllBenign(s: Store, ops: seq<Op>, max: nat, rule: HintRule) {
    |ops| == 0 ||
    (AllBenign(s, ops[..|ops| - 1], max, rule) &&
     NextBenign(Run(s, ops[..|ops| - 1], max, rule).0, ops[|ops| - 1], max, rule))
  }

  ghost predicate NextBenign(s: Store, op: Op, max: nat, rule: HintRule) {
    Benign(s, op, s.active + 1, max, rule)
  }

  /** A merge of a selection without gaps meets them when hints give the positions of the copies. */
  lemma ClosedMergeIsBenign(s: Store, selected: set<FileId>, order: seq<Bytes>, first: FileId, max: nat)
    requires Running(s, max) && Recoverable(s) && Selects(s, selected, order) && DownwardClosed(s, selected)
    requires first == s.active + 1
    ensures Benign(s, MergeOp(selected, order), first, max, AsIndexed)
  {
    ClosedRevivesNothing(s, selected, first, max);
  }

  lemma StepKeepsRecoverable(s: Store, op: Op, first: FileId, max: nat, rule: HintRule, t: Store)
    requires Running(s, max) && Recoverable(s) && first == s.active + 1
    requires Benign(s, op, first, max, rule) && t == Step(s, op, max, rule).0
    ensures Allowed(s, op) && Recoverable(t)
  {
    match op {
      case PutOp(ts, k, v) => UpdateKeepsRecoverable(s, Record(ts, k, Some(v)), max);
      case DeleteOp(ts, k) => UpdateKeepsRecoverable(s, Record(ts, k, None), max);
      case GetOp(k) =>
      case MergeOp(selected, order) => MergeRecoverableIff(s, selected, order, max, rule);
      case ReopenOp => ReopenRestores(s, max);
    }
  }

  lemma BenignStep(s: Store, op: Op, max: nat, rule: HintRule, t: Store)
    requires Running(s, max) && Recoverable(s) && NextBenign(s, op, max, rule) && t == Step(s, op, max, rule).0
    ensures Allowed(s, op)
    ensures Running(t, max) && Recoverable(t) && Rebuild(t.disk) == Catalog(t.index, t.stats)
  {
    var first := s.active + 1;
    StepKeepsRecoverable(s, op, first, max, rule, t);
    StepRefinesMap(s, op, max, rule, t);
    RebuildGivesStats(t, max);
  }

  /** After every history of puts, deletes, rotations, reopenings and benign merges, replaying the hint
      and data files in the order of their ids gives the index and the statistics of the running
      engine, pointers included; so every reopening in the history is allowed. */
  lemma {:induction false} HistoryRebuilds(s: Store, ops: seq<Op>, max: nat, rule: HintRule)
    requires Running(s, max) && Recoverable(s) && AllBenign(s, ops, max, rule)
    ensures var t := Run(s, ops, max, rule).0;
            Running(t, max) && Recoverable(t) && Rebuild(t.disk) == Catalog(t.index, t.stats)
    ensures AllAllowed(s, ops, max, rule)
  {
    if |ops| > 0 {
      var init, op := ops[..|ops| - 1], ops[|ops| - 1];
      HistoryRebuilds(s, init, max, rule);
      var t := Run(s, init, max, rule).0;
      BenignStep(t, op, max, rule, Step(t, op, max, rule).0);
    } else {
      RebuildGivesStats(s, max);
    }
  }

  lemma EmptyIsWhole(d: Disk, max: nat)
    requires d.data == map[] && d.hint == map[]
    ensures HintsExact(d) && AllBounded(d, max) && d.hint.Keys <= d.data.Keys
  {
  }

  lemma EmptyOpens(d: Disk, s: Store)
    requires d.data == map[] && d.hint == map[] && s == Open(d)
    ensures s.index == map[] && s.active == 0 && s.written == 0
  {
    RebuildAt(d, 0);
  }

  /** An empty directory is a place to start. */
  lemma EmptyDirectoryRuns(d: Disk, s: Store, max: nat)
    requires d.data == map[] && d.hint == map[] && s == Open(d)
    ensures Running(s, max) && Recoverable(s)
  {
    EmptyIsWhole(d, max);
    OpenRuns(d, max);
  }

  // ---------- a cut in the newest file ----------

  ghost function Updates(s: Store, rs: seq<Record>, max: nat): Store {
    if |rs| == 0 then s else Update(Updates(s, rs[..|rs| - 1], max), rs[|rs| - 1], max)
  }

  lemma {:induction false} UpdatesKeep(s: Store, rs: seq<Record>, max: nat)
    requires Running(s, max) && Recoverable(s)
    ensures Running(Updates(s, rs, max), max) && Recoverable(Updates(s, rs, max))
  {
    if |rs| > 0 {
      var init := rs[..|rs| - 1];
      UpdatesKeep(s, init, max);
      UpdateKeepsRunning(Updates(s, init, max), rs[|rs| - 1], max);
      UpdateKeepsRecoverable(Updates(s, init, max), rs[|rs| - 1], max);
    }
  }

  /** Cutting away a record that was just written leaves nothing of the write. */
  lemma CutUndoesWrite(s: Store, r: Record, max: nat, k: nat, t: Store)
    requires Running(s, max) && t == Update(s, r, max) && k < |Content(t.disk, t.active)|
    ensures t.active == s.active && k <= |Content(s.disk, s.active)|
    ensures |Content(t.disk, t.active)| == |Content(s.disk, s.active)| + 1
    ensures Truncated(t.disk, t.active, k) == Truncated(s.disk, s.active, k)
  {
    hide Running, Retire, Total;
    var rs := Content(s.disk, s.active);
    assert (rs + [r])[..k] == rs[..k];
  }

  lemma CutLast(s: Store, rs: seq<Record>, max: nat, k: nat, t: Store, before: Store)
    requires Running(s, max) && Recoverable(s) && |rs| > 0
    requires before == Updates(s, rs[..|rs| - 1], max) && t == Updates(s, rs, max) && k < |Content(t.disk, t.active)|
    ensures k <= |Content(before.disk, before.active)| == |Content(t.disk, t.active)| - 1
    ensures Truncated(t.disk, t.active, k) == Truncated(before.disk, before.active, k)
  {
    UpdatesKeep(s, rs[..|rs| - 1], max);
    CutUndoesWrite(before, rs[|rs| - 1], max, k, t);
  }

  lemma NothingCut(s: Store, max: nat)
    requires Running(s, max) && Recoverable(s)
    ensures var left := Truncated(s.disk, s.active, |Content(s.disk, s.active)|);
            Rebuild(left) == Catalog(s.index, s.stats) && Contents(left, s.index) == Contents(s.disk, s.index)
  {
    var rs := Content(s.disk, s.active);
    assert rs[..|rs|] == rs;
    assert s.disk.data[s.active := rs] == s.disk.data;
    RebuildGivesStats(s, max);
  }

  lemma WholeTail(s: Store, rs: seq<Record>, max: nat, t: Store, left: Disk)
    requires Running(s, max) && Recoverable(s) && t == Updates(s, rs, max)
    requires left == Truncated(t.disk, t.active, |Content(t.disk, t.active)|)
    ensures var u := Updates(s, rs[..|rs|], max);
            Rebuild(left) == Catalog(u.index, u.stats) && Contents(left, u.index) == Contents(u.disk, u.index)
  {
    hide Contents, Rebuild, Recoverable, Running, Truncated, Updates;
    UpdatesKeep(s, rs, max);
    assert rs[..|rs|] == rs;
    NothingCut(t, max);
  }

  lemma NothingWritten(s: Store, rs: seq<Record>, max: nat, t: Store)
    requires Running(s, max) && s.written == 0 && t == Updates(s, rs, max)
    ensures |rs| == 0 ==> |Content(t.disk, t.active)| == 0
  {
  }

  /** Losing records at the end of the newest file gives the state before the operations that wrote
      them: with `lost` records missing, that of all but the last `lost` operations since the engine
      was opened or last merged. */
  lemma {:induction false} LostTail(s: Store, rs: seq<Record>, max: nat, k: nat, t: Store, left: Disk)
    returns (i: nat)
    requires Running(s, max) && Recoverable(s) && s.written == 0
    requires t == Updates(s, rs, max) && k <= |Content(t.disk, t.active)|
    requires left == Truncated(t.disk, t.active, k)
    ensures i <= |rs| && |rs| - i == |Content(t.disk, t.active)| - k
    ensures var u := Updates(s, rs[..i], max);
            Rebuild(left) == Catalog(u.index, u.stats) && Contents(left, u.index) == Contents(u.disk, u.index)
    decreases |rs|
  {
    hide Contents, Rebuild, Recoverable, Running, Truncated, Updates;
    if k == |Content(t.disk, t.active)| {
      i := |rs|;
      WholeTail(s, rs, max, t, left);
    } else {
      NothingWritten(s, rs, max, t);
      var init := rs[..|rs| - 1];
      var before := Updates(s, init, max);
      CutLast(s, rs, max, k, t, before);
      i := LostTail(s, init, max, k, before, left);
      assert init[..i] == rs[..i];
    }
  }

  /** Cutting the newest data file at any byte and reading back what is left gives the index, the
      statistics and the map after a prefix of the operations since the engine was opened or last
      merged; the operations that are lost are those whose records do not end by the cut. */
  lemma TornTail(s: Store, rs: seq<Record>, max: nat, n: nat, t: Store, content: seq<Record>, left: Disk)
    returns (i: nat, k: nat)
    requires Running(s, max) && Recoverable(s) && s.written == 0 && t == Updates(s, rs, max)
    requires content == Content(t.disk, t.active) && n <= |FileBytes(content)|
    requires left == t.disk.(data := t.disk.data[t.active := Scan(RecordCode(), FileBytes(content)[..n])])
    ensures Readable(RecordCode(), FileBytes(content)[..n])
    ensures i <= |rs| && k <= |content| && |rs| - i == |content| - k
    ensures Total(content[..k]) <= n && (k < |content| ==> n < Total(content[..k + 1]))
    ensures var u := Updates(s, rs[..i], max);
            Rebuild(left) == Catalog(u.index, u.stats) && Contents(left, u.index) == Contents(u.disk, u.index)
  {
    k := CutDataFile(content, n);
    i := LostTail(s, rs, max, k, t, left);
  }

  // ---------- what the invariant says ----------

  /** The counters of a file that has any are its live keys, its other entries and their bytes; the
      counter that a later overwrite decrements is at least one. */
  lemma StatisticsSay(s: Store, max: nat, f: FileId)
    requires Running(s, max)
    ensures f in s.stats <==> Content(s.disk, f) != []
    ensures f in s.stats ==>
      && s.stats[f].live == |set k | k in s.index && s.index[k].fileid == f|
      && s.stats[f].live + s.stats[f].dead == |Content(s.disk, f)|
      && s.stats[f].deadBytes == Total(Content(s.disk, f)) - Sum(s.index, f, Length)
    ensures forall k :: k in s.index && s.index[k].fileid == f ==> f in s.stats && s.stats[f].live >= 1
  {
    hide AllPoint, Total;
    assert ExactAt(Catalog(s.index, s.stats), f, |Content(s.disk, f)|, Total(Content(s.disk, f)));
    SumIsCardinality(s.index, f);
    assert AtFile(s.index, f).Keys == set k | k in s.index && s.index[k].fileid == f;
    forall k | k in s.index && s.index[k].fileid == f
      ensures f in s.stats && s.stats[f].live >= 1
    {
      SumRemove(s.index, k, f, Count);
    }
  }

  /** Every data file, active or merged, is at most the limit and one record long. */
  lemma FilesAreBounded(s: Store, max: nat, f: FileId)
    requires Running(s, max) && Content(s.disk, f) != []
    ensures var rs := Content(s.disk, f);
            |FileBytes(rs)| <= max + Size(rs[|rs| - 1])
    ensures s.written == |FileBytes(Content(s.disk, s.active))|
  {
  }

  /** Within a session, every file that an operation creates has an id above all ids that were ever
      used; so an id that is gone never comes back. */
  lemma NewIdsAreFresh(s: Store, op: Op, max: nat, rule: HintRule, t: Store)
    requires Running(s, max) && Allowed(s, op) && !op.ReopenOp? && t == Step(s, op, max, rule).0
    ensures s.active <= t.active
    ensures forall f :: f in t.disk.data && f !in s.disk.data ==> s.active < f <= t.active
    ensures forall f :: f in t.disk.hint && f !in s.disk.hint ==> s.active < f <= t.active
  {
    match op {
      case PutOp(ts, k, v) =>
      case DeleteOp(ts, k) =>
      case GetOp(k) =>
      case MergeOp(selected, order) =>
        MergedIdsAreFresh(s, selected, order, max, rule, t);
    }
  }

  lemma MergedIdsAreFresh(s: Store, selected: set<FileId>, order: seq<Bytes>, max: nat, rule: HintRule, t: Store)
    requires Running(s, max) && Selects(s, selected, order) && t == Merge(s, selected, order, max, rule)
    ensures s.active < t.active
    ensures forall f :: f in t.disk.data && f !in s.disk.data ==> s.active < f <= t.active
    ensures forall f :: f in t.disk.hint && f !in s.disk.hint ==> s.active < f <= t.active
  {
    var c, next := CopiesOf(s, selected, order, max, rule, t);
  }

  ghost predicate NoReopening(ops: seq<Op>) {
    forall i :: 0 <= i < |ops| ==> !ops[i].ReopenOp?
  }

  /** The state after the first `i` operations. */
  ghost function After(s: Store, ops: seq<Op>, i: nat, max: nat, rule: HintRule): Store
    requires i <= |ops|
  {
    Run(s, ops[..i], max, rule).0
  }

  lemma AfterRuns(s: Store, ops: seq<Op>, i: nat, max: nat, rule: HintRule)
    requires Running(s, max) && AllAllowed(s, ops, max, rule) && i <= |ops|
    ensures Running(After(s, ops, i, max, rule), max)
  {
    FirstAllowed(s, ops, i, max, rule);
    RunRefinesMap(s, ops[..i], max, rule);
  }

  lemma {:induction false} FirstAllowed(s: Store, ops: seq<Op>, i: nat, max: nat, rule: HintRule)
    requires AllAllowed(s, ops, max, rule) && i <= |ops|
    ensures AllAllowed(s, ops[..i], max, rule)
  {
    if i < |ops| {
      FirstAllowed(s, ops[..|ops| - 1], i, max, rule);
      assert ops[..|ops| - 1][..i] == ops[..i];
    } else {
      assert ops[..i] == ops;
    }
  }

  lemma OneMoreOp(s: Store, ops: seq<Op>, i: nat, next: nat, max: nat, rule: HintRule)
    requires i < |ops| && next == i + 1
    ensures After(s, ops, next, max, rule) == Step(After(s, ops, i, max, rule), ops[i], max, rule).0
  {
    assert ops[..next][..i] == ops[..i];
  }

  /** Every id above that was not there before is above the old active id. */
  ghost predicate NewerIds(s: Store, t: Store) {
    && s.active <= t.active
    && (forall f :: f in t.disk.data && f !in s.disk.data ==> s.active < f)
    && (forall f :: f in t.disk.hint && f !in s.disk.hint ==> s.active < f)
  }

  lemma {:induction false} SessionIdsGrow(s: Store, ops: seq<Op>, i: nat, j: nat, max: nat, rule: HintRule)
    requires Running(s, max) && AllAllowed(s, ops, max, rule) && NoReopening(ops) && i <= j <= |ops|
    ensures NewerIds(After(s, ops, i, max, rule), After(s, ops, j, max, rule))
    decreases j - i
  {
    if i < j {
      var k := j - 1;
      var u, t := After(s, ops, k, max, rule), After(s, ops, j, max, rule);
      SessionIdsGrow(s, ops, i, k, max, rule);
      AfterRuns(s, ops, k, max, rule);
      OneMoreOp(s, ops, k, j, max, rule);
      FirstAllowed(s, ops, j, max, rule);
      assert ops[..j][..k] == ops[..k];
      NewIdsAreFresh(u, ops[k], max, rule, t);
    }
  }

  /** The file is there after the first `i` operations. */
  ghost predicate There(s: Store, ops: seq<Op>, i: nat, f: FileId, max: nat, rule: HintRule)
    requires i <= |ops|
  {
    f in After(s, ops, i, max, rule).disk.data
  }

  /** A file is created by operation number `i`. */
  ghost predicate CreatesAt(s: Store, ops: seq<Op>, i: nat, f: FileId, max: nat, rule: HintRule)
    requires i < |ops|
  {
    !There(s, ops, i, f, max, rule) && There(s, ops, i + 1, f, max, rule)
  }

  /** Over a whole session, whatever its operations, an id that is gone never comes back. */
  lemma NeverAgain(s: Store, ops: seq<Op>, i: nat, j: nat, k: nat, f: FileId, max: nat, rule: HintRule)
    requires Running(s, max) && AllAllowed(s, ops, max, rule) && NoReopening(ops) && i <= j <= k <= |ops|
    requires There(s, ops, i, f, max, rule) && !There(s, ops, j, f, max, rule)
    ensures !There(s, ops, k, f, max, rule)
  {
    AfterRuns(s, ops, i, max, rule);
    SessionIdsGrow(s, ops, i, j, max, rule);
    SessionIdsGrow(s, ops, j, k, max, rule);
  }

  /** No id is created twice. */
  lemma NoIdTwice(s: Store, ops: seq<Op>, i: nat, j: nat, f: FileId, max: nat, rule: HintRule)
    requires Running(s, max) && AllAllowed(s, ops, max, rule) && NoReopening(ops) && i < j < |ops|
    requires CreatesAt(s, ops, i, f, max, rule)
    ensures !CreatesAt(s, ops, j, f, max, rule)
  {
    hide There;
    var first, second := i + 1, j + 1;
    StaysGone(s, ops, first, j, second, f, max, rule);
  }

  lemma StaysGone(s: Store, ops: seq<Op>, i: nat, j: nat, k: nat, f: FileId, max: nat, rule: HintRule)
    requires Running(s, max) && AllAllowed(s, ops, max, rule) && NoReopening(ops) && i <= j <= k <= |ops|
    ensures There(s, ops, i, f, max, rule) && There(s, ops, k, f, max, rule) ==> There(s, ops, j, f, max, rule)
  {
    if There(s, ops, i, f, max, rule) && !There(s, ops, j, f, max, rule) {
      NeverAgain(s, ops, i, j, k, f, max, rule);
    }
  }
}
