/**
 Histories with crashes. A crash may cut the newest file at any byte, or stop a merge anywhere in its
 removals; the directory is then opened and used again.
 */
module Crashes {
  import opened Types
  import opened Framing
  import opened LogCodec
  import opened LogFile
  import opened KeyDir
  import opened Store
  import opened Recovery
  import opened Compaction
  import opened CompactionRecovery
  import opened CompactionTheorems
  import opened Runs

  /** What can happen to an engine: an operation, a crash that leaves `n` bytes of the newest file, or a
      crash within the removals of a merge. */
  datatype Happening =
    | Does(op: Op)
    | Cuts(n: nat)
    | StopsMerge(selected: set<FileId>, order: seq<Bytes>, ids: seq<FileId>, j: nat, hints: set<FileId>,
                 files: set<FileId>)

  /** The newest file with its first `n` bytes, as reading finds it. */
  ghost function CutAt(d: Disk, f: FileId, n: nat): Disk {
    var bytes := FileBytes(Content(d, f));
    d.(data := d.data[f := Scan(RecordCode(), bytes[..if n <= |bytes| then n else |bytes|])])
  }

  /** What is on disk when a merge stops in its removals. */
  ghost function StoppedMerge(s: Store, order: seq<Bytes>, max: nat, rule: HintRule, hints: set<FileId>,
                              files: set<FileId>): Disk {
    Removed(CopyAll(s, order, max, rule).disk, hints, files)
  }

  /** What happens to the engine, and its answer. After a crash it is opened. */
  ghost function Happen(s: Store, h: Happening, max: nat, rule: HintRule): (Store, Answer) {
    match h
    case Does(op) => Step(s, op, max, rule)
    case Cuts(n) => (Open(CutAt(s.disk, s.active, n)), Done)
    case StopsMerge(_, order, _, _, hints, files) => (Open(StoppedMerge(s, order, max, rule, hints, files)), Done)
  }

  /** A merge, stopped or not, meets the conditions of a reopening. */
  ghost predicate Possible(s: Store, h: Happening, first: FileId, max: nat, rule: HintRule) {
    match h
    case Does(op) => Benign(s, op, first, max, rule)
    case Cuts(_) => true
    case StopsMerge(selected, order, ids, j, hints, files) =>
      && Selects(s, selected, order) && DownwardClosed(s, selected) && OffsetsKept(s, order, first, max, rule)
      && RemovalPoint(selected, ids, j, hints, files)
  }

  // ---------- what a crash can take away ----------

  /** A map with a history: the map when the newest file was started, and the records that were written to
      that file since. */
  datatype Past = Past(kept: map<Bytes, Bytes>, since: seq<Record>)

  function MapAfter(m: map<Bytes, Bytes>, rs: seq<Record>): map<Bytes, Bytes> {
    if |rs| == 0 then m
    else
      var r := rs[|rs| - 1];
      Written(MapAfter(m, rs[..|rs| - 1]), r.key, r.value)
  }

  function MapNow(p: Past): map<Bytes, Bytes> {
    MapAfter(p.kept, p.since)
  }

  /** How many of the records end within the first `n` bytes of their file. */
  function WholeRecords(rs: seq<Record>, n: nat): (k: nat)
    ensures k <= |rs| && Total(rs[..k]) <= n && (k < |rs| ==> n < Total(rs[..k + 1]))
  {
    assert rs[..|rs|] == rs;
    if Total(rs) <= n then |rs|
    else
      var init := rs[..|rs| - 1];
      var k := WholeRecords(init, n);
      assert rs[..k] == init[..k] && (k < |init| ==> rs[..k + 1] == init[..k + 1]);
      k
  }

  /** One more record. When the file has grown past the limit, a new file is started. */
  function Noted(p: Past, r: Record, max: nat): Past {
    var since := p.since + [r];
    if Total(since) > max then Past(MapAfter(p.kept, since), []) else Past(p.kept, since)
  }

  /** The same happenings to a map with a history. A crash that leaves `n` bytes of the newest file loses
      the records of that file that do not end by then, and nothing else is ever lost. */
  function PastNext(p: Past, h: Happening, max: nat): Past {
    match h
    case Does(PutOp(ts, k, v)) => Noted(p, Record(ts, k, Some(v)), max)
    case Does(DeleteOp(ts, k)) => Noted(p, Record(ts, k, None), max)
    case Does(GetOp(_)) => p
    case Does(_) => Past(MapNow(p), [])
    case Cuts(n) => Past(MapAfter(p.kept, p.since[..WholeRecords(p.since, n)]), [])
    case StopsMerge(_, _, _, _, _, _) => Past(MapNow(p), [])
  }

  ghost function PastAnswer(p: Past, h: Happening): Answer {
    match h
    case Does(op) => MapStep(MapNow(p), op).1
    case _ => Done
  }

  ghost function MapOf(s: Store): map<Bytes, Bytes> {
    Contents(s.disk, s.index)
  }

  /** The engine stands for the map with this history: it comes from the state `base`, in which the newest
      file was started, by the writes to that file. */
  ghost predicate Since(base: Store, s: Store, p: Past, max: nat) {
    && Running(base, max) && Recoverable(base) && base.written == 0 && MapOf(base) == p.kept
    && s == Updates(base, p.since, max) && Content(s.disk, s.active) == p.since
  }

  ghost predicate Stands(s: Store, p: Past, max: nat) {
    exists base :: Since(base, s, p, max)
  }

  lemma {:induction false} UpdatesMap(s: Store, rs: seq<Record>, max: nat)
    requires Running(s, max) && Recoverable(s)
    ensures MapOf(Updates(s, rs, max)) == MapAfter(MapOf(s), rs)
  {
    if |rs| > 0 {
      var init := rs[..|rs| - 1];
      UpdatesMap(s, init, max);
      UpdatesKeep(s, init, max);
      UpdateContents(Updates(s, init, max), rs[|rs| - 1], max);
    }
  }

  lemma SinceRuns(base: Store, s: Store, p: Past, max: nat)
    requires Since(base, s, p, max)
    ensures Running(s, max) && Recoverable(s) && MapOf(s) == MapNow(p)
  {
    hide MapAfter, MapOf, Recoverable, Running, Updates;
    UpdatesKeep(base, p.since, max);
    UpdatesMap(base, p.since, max);
  }

  lemma StandsRuns(s: Store, p: Past, max: nat)
    requires Stands(s, p, max)
    ensures Running(s, max) && Recoverable(s) && MapOf(s) == MapNow(p)
    ensures Content(s.disk, s.active) == p.since && Total(p.since) <= max
  {
    var base :| Since(base, s, p, max);
    SinceRuns(base, s, p, max);
  }

  /** A new file has no history yet. */
  lemma NewFileStands(s: Store, p: Past, max: nat)
    requires Running(s, max) && Recoverable(s) && s.written == 0 && p == Past(MapOf(s), [])
    ensures Stands(s, p, max)
  {
    NothingWritten(s, [], max, s);
    assert Since(s, s, p, max);
  }

  // ---------- writes ----------

  lemma UpdatesSnoc(base: Store, rs: seq<Record>, r: Record, max: nat)
    ensures Updates(base, rs + [r], max) == Update(Updates(base, rs, max), r, max)
    ensures MapAfter(MapOf(base), rs + [r]) == Written(MapAfter(MapOf(base), rs), r.key, r.value)
  {
    assert (rs + [r])[..|rs|] == rs;
  }

  /** A write that fills the file starts a new one, and only then. */
  lemma WriteOrRotate(s: Store, r: Record, max: nat, since: seq<Record>, t: Store)
    requires Running(s, max) && t == Update(s, r, max) && since == Content(s.disk, s.active) + [r]
    ensures if Total(since) > max then t.written == 0 else Content(t.disk, t.active) == since
  {
    TotalSnoc(Content(s.disk, s.active), r);
  }

  lemma WriteStands(s: Store, p: Past, r: Record, max: nat, t: Store)
    requires Stands(s, p, max) && t == Update(s, r, max)
    ensures Stands(t, Noted(p, r, max), max)
  {
    hide Content, MapAfter, MapOf, Recoverable, Running, Total, Update, Updates;
    var base :| Since(base, s, p, max);
    var since := p.since + [r];
    SinceRuns(base, s, p, max);
    UpdatesSnoc(base, p.since, r, max);
    UpdatesKeep(base, since, max);
    UpdatesMap(base, since, max);
    WriteOrRotate(s, r, max, since, t);
    if Total(since) > max {
      NewFileStands(t, Noted(p, r, max), max);
    } else {
      assert Since(base, t, Noted(p, r, max), max);
    }
  }

  // ---------- a crash that cuts the newest file ----------

  lemma CutIsWhole(s: Store, max: nat, k: nat, left: Disk)
    requires Running(s, max) && HintsExact(s.disk) && k <= |Content(s.disk, s.active)|
    requires left == Truncated(s.disk, s.active, k)
    ensures HintsExact(left) && AllBounded(left, max) && left.hint.Keys <= left.data.Keys
  {
    var rs := Content(s.disk, s.active);
    if k > 0 {
      assert rs[..k][..k - 1] == rs[..k - 1];
      TotalMonotone(rs, k - 1, |rs|);
      assert rs[..|rs|] == rs;
    }
    forall f | f in left.hint
      ensures f in left.data
    {
      assert f in s.disk.hint.Keys;
    }
  }

  lemma WholeIsCut(rs: seq<Record>, n: nat, m: nat, k: nat)
    requires m == if n <= Total(rs) then n else Total(rs)
    requires k <= |rs| && Total(rs[..k]) <= m && (k < |rs| ==> m < Total(rs[..k + 1]))
    ensures k == WholeRecords(rs, n)
  {
    assert rs[..|rs|] == rs;
    if n <= Total(rs) {
      CutIsUnique(rs, n, k, WholeRecords(rs, n));
    } else {
      CutIsUnique(rs, m, k, |rs|);
    }
  }

  lemma CutReads(base: Store, p: Past, n: nat, s: Store, left: Disk, max: nat) returns (k: nat)
    requires Since(base, s, p, max) && left == CutAt(s.disk, s.active, n)
    ensures k == WholeRecords(p.since, n) && left == Truncated(s.disk, s.active, k)
    ensures var u := Updates(base, p.since[..k], max);
            Rebuild(left).index == u.index && Contents(left, u.index) == MapOf(u)
  {
    hide Contents, FileBytes, Rebuild, Recoverable, Running, Scan, Total, Truncated, Updates;
    var bytes := FileBytes(p.since);
    var m := if n <= |bytes| then n else |bytes|;
    var i;
    i, k := TornTail(base, p.since, max, m, s, p.since, left);
    CutDisk(s, p.since, m, k, left);
    WholeIsCut(p.since, n, m, k);
  }

  /** After the newest file is cut the engine runs on. It has every write to the older files, and of the
      newest file exactly the writes whose records end by the cut. */
  lemma CutRunsOn(s: Store, p: Past, n: nat, max: nat, t: Store)
    requires Stands(s, p, max) && t == Open(CutAt(s.disk, s.active, n))
    ensures Running(t, max) && Recoverable(t) && t.written == 0
    ensures MapOf(t) == MapAfter(p.kept, p.since[..WholeRecords(p.since, n)])
  {
    hide Contents, CutAt, MapAfter, MapOf, Open, Rebuild, Running, Scan, Truncated, Updates;
    var base :| Since(base, s, p, max);
    SinceRuns(base, s, p, max);
    var left := CutAt(s.disk, s.active, n);
    var k := CutReads(base, p, n, s, left, max);
    CutIsWhole(s, max, k, left);
    OpenRuns(left, max);
    OpenReads(left);
    UpdatesMap(base, p.since[..k], max);
  }

  lemma CutDisk(s: Store, content: seq<Record>, n: nat, k: nat, left: Disk)
    requires content == Content(s.disk, s.active) && n <= |FileBytes(content)| && k <= |content|
    requires Total(content[..k]) <= n && (k < |content| ==> n < Total(content[..k + 1]))
    requires left == s.disk.(data := s.disk.data[s.active := Scan(RecordCode(), FileBytes(content)[..n])])
    ensures left == Truncated(s.disk, s.active, k)
  {
    var j := CutDataFile(content, n);
    CutIsUnique(content, n, j, k);
  }

  lemma CutIsUnique(rs: seq<Record>, n: nat, j: nat, k: nat)
    requires j <= |rs| && Total(rs[..j]) <= n && (j < |rs| ==> n < Total(rs[..j + 1]))
    requires k <= |rs| && Total(rs[..k]) <= n && (k < |rs| ==> n < Total(rs[..k + 1]))
    ensures j == k
  {
    if j < k {
      TotalMonotone(rs, j + 1, k);
    } else if k < j {
      TotalMonotone(rs, k + 1, j);
    }
  }

  /** Opening a directory shows the map of its rebuilt index. */
  lemma OpenReads(d: Disk)
    ensures Open(d).written == 0 && Open(d).index == Rebuild(d).index
    ensures MapOf(Open(d)) == Contents(d, Rebuild(d).index)
  {
    assert forall f :: Content(Open(d).disk, f) == Content(d, f);
    SameContents(Open(d).disk, d, Rebuild(d).index);
  }

  // ---------- one happening ----------

  lemma FreshFileStands(s: Store, p: Past, op: Op, first: FileId, max: nat, rule: HintRule, t: Store)
    requires Stands(s, p, max) && first == s.active + 1 && Benign(s, op, first, max, rule)
    requires (op.MergeOp? || op.ReopenOp?) && t == Step(s, op, max, rule).0
    ensures Stands(t, Past(MapNow(p), []), max)
  {
    StandsRuns(s, p, max);
    StepKeepsRecoverable(s, op, first, max, rule, t);
    StepRefinesMap(s, op, max, rule, t);
    NewFileStands(t, Past(MapNow(p), []), max);
  }

  lemma OperationStands(s: Store, p: Past, op: Op, first: FileId, max: nat, rule: HintRule, t: Store)
    requires Stands(s, p, max) && first == s.active + 1 && Benign(s, op, first, max, rule)
    requires t == Step(s, op, max, rule).0
    ensures Stands(t, PastNext(p, Does(op), max), max)
  {
    hide Benign, MapNow, Noted, Stands;
    match op {
      case PutOp(ts, k, v) => WriteStands(s, p, Record(ts, k, Some(v)), max, t);
      case DeleteOp(ts, k) => WriteStands(s, p, Record(ts, k, None), max, t);
      case GetOp(_) =>
      case MergeOp(_, _) => FreshFileStands(s, p, op, first, max, rule, t);
      case ReopenOp => FreshFileStands(s, p, op, first, max, rule, t);
    }
  }

  lemma OperationAnswers(s: Store, p: Past, op: Op, first: FileId, max: nat, rule: HintRule)
    requires Stands(s, p, max) && first == s.active + 1 && Benign(s, op, first, max, rule)
    ensures Step(s, op, max, rule).1 == MapStep(MapNow(p), op).1
  {
    hide MapStep, Step;
    StandsRuns(s, p, max);
    StepKeepsRecoverable(s, op, first, max, rule, Step(s, op, max, rule).0);
    StepRefinesMap(s, op, max, rule, Step(s, op, max, rule).0);
  }

  lemma CutStands(s: Store, p: Past, n: nat, max: nat, t: Store)
    requires Stands(s, p, max) && t == Open(CutAt(s.disk, s.active, n))
    ensures Stands(t, PastNext(p, Cuts(n), max), max)
  {
    hide CutAt, MapAfter, MapOf, Open, Recoverable, Running, Stands;
    CutRunsOn(s, p, n, max, t);
    NewFileStands(t, PastNext(p, Cuts(n), max), max);
  }

  lemma StoppedMergeStands(s: Store, p: Past, h: Happening, first: FileId, max: nat, rule: HintRule, t: Store)
    requires Stands(s, p, max) && h.StopsMerge? && first == s.active + 1
    requires Possible(s, h, first, max, rule) && t == Happen(s, h, max, rule).0
    ensures Stands(t, Past(MapNow(p), []), max)
  {
    hide Contents, CopyAll, DownwardClosed, MapNow, OffsetsKept, Open, Recoverable, RemovalPoint, Removed, Running,
      Selects, Stands;
    var StopsMerge(selected, order, ids, j, hints, files) := h;
    StandsRuns(s, p, max);
    OpenReads(StoppedMerge(s, order, max, rule, hints, files));
    CrashSafeCompaction(s, selected, order, max, rule, ids, j, hints, files);
    NewFileStands(t, Past(MapNow(p), []), max);
  }

  ghost predicate NextPossible(s: Store, h: Happening, max: nat, rule: HintRule) {
    Possible(s, h, s.active + 1, max, rule)
  }

  /** Whatever happens, the engine stands for the map with the history that the happening says, and an
      operation is answered from that map. */
  lemma HappeningStands(s: Store, p: Past, h: Happening, max: nat, rule: HintRule)
    requires Stands(s, p, max) && NextPossible(s, h, max, rule)
    ensures Stands(Happen(s, h, max, rule).0, PastNext(p, h, max), max)
    ensures Happen(s, h, max, rule).1 == PastAnswer(p, h)
  {
    hide Benign, DownwardClosed, MapNow, MapStep, OffsetsKept, Open, RemovalPoint, Selects, Stands, Step;
    var t, first := Happen(s, h, max, rule).0, s.active + 1;
    match h {
      case Does(op) =>
        OperationStands(s, p, op, first, max, rule, t);
        OperationAnswers(s, p, op, first, max, rule);
      case Cuts(n) => CutStands(s, p, n, max, t);
      case StopsMerge(_, _, _, _, _, _) => StoppedMergeStands(s, p, h, first, max, rule, t);
    }
  }

  // ---------- whole histories ----------

  ghost function Lived(s: Store, hs: seq<Happening>, max: nat, rule: HintRule): (Store, seq<Answer>) {
    if |hs| == 0 then (s, [])
    else
      var (t, answers) := Lived(s, hs[..|hs| - 1], max, rule);
      var (u, answer) := Happen(t, hs[|hs| - 1], max, rule);
      (u, answers + [answer])
  }

  ghost function Remembered(p: Past, hs: seq<Happening>, max: nat): (Past, seq<Answer>) {
    if |hs| == 0 then (p, [])
    else
      var (q, answers) := Remembered(p, hs[..|hs| - 1], max);
      (PastNext(q, hs[|hs| - 1], max), answers + [PastAnswer(q, hs[|hs| - 1])])
  }

  ghost predicate AllPossible(s: Store, hs: seq<Happening>, max: nat, rule: HintRule) {
    |hs| == 0 ||
    (AllPossible(s, hs[..|hs| - 1], max, rule) &&
     NextPossible(Lived(s, hs[..|hs| - 1], max, rule).0, hs[|hs| - 1], max, rule))
  }

  lemma {:induction false} HistoryStands(s: Store, p: Past, hs: seq<Happening>, max: nat, rule: HintRule)
    requires Stands(s, p, max) && AllPossible(s, hs, max, rule)
    ensures Stands(Lived(s, hs, max, rule).0, Remembered(p, hs, max).0, max)
    ensures Lived(s, hs, max, rule).1 == Remembered(p, hs, max).1
  {
    hide Happen, NextPossible, PastAnswer, PastNext, Stands;
    if |hs| > 0 {
      var init, h := hs[..|hs| - 1], hs[|hs| - 1];
      HistoryStands(s, p, init, max, rule);
      HappeningStands(Lived(s, init, max, rule).0, Remembered(p, init, max).0, h, max, rule);
    }
  }

  /** Over every history of operations, of crashes that cut the newest file at any byte and of crashes
      within the removals of a merge, each followed by opening what is left, the engine runs on and answers
      as a map from which a cut takes the last writes to the newest file, exactly those whose records do
      not end by the cut, and nothing else takes anything. The newest file holds just the writes that a cut
      may take, at most `max` bytes, and what is on disk always rebuilds to the index and the statistics in
      memory. */
  lemma CrashesLoseOnlyTheTail(s: Store, hs: seq<Happening>, max: nat, rule: HintRule)
    requires Running(s, max) && Recoverable(s) && s.written == 0 && AllPossible(s, hs, max, rule)
    ensures var (t, answers) := Lived(s, hs, max, rule);
            var (q, expected) := Remembered(Past(MapOf(s), []), hs, max);
            && Running(t, max) && Rebuild(t.disk) == Catalog(t.index, t.stats)
            && answers == expected && MapOf(t) == MapNow(q)
            && Content(t.disk, t.active) == q.since && Total(q.since) <= max
  {
    hide AllPossible, Content, Lived, MapNow, MapOf, Rebuild, Recoverable, Remembered, Running, Stands, Total;
    var p := Past(MapOf(s), []);
    NewFileStands(s, p, max);
    HistoryStands(s, p, hs, max, rule);
    var t := Lived(s, hs, max, rule).0;
    StandsRuns(t, Remembered(p, hs, max).0, max);
    RebuildGivesStats(t, max);
  }

  /** An empty directory opens to the start of such a history. */
  lemma EmptyDirectoryLives(d: Disk, s: Store, max: nat)
    requires d.data == map[] && d.hint == map[] && s == Open(d)
    ensures Running(s, max) && Recoverable(s) && s.written == 0 && MapOf(s) == map[]
  {
    hide Running, Recoverable, Rebuild;
    EmptyDirectoryRuns(d, s, max);
    EmptyOpens(d, s);
  }
}
