/**
 Compaction. The live records of the selected files are copied to new files, the index is pointed
 to the copies, and then the selected files are removed.

 The selection, the order in which keys are copied and the order in which the index is pointed to
 the copies are arbitrary.
 */
module Compaction {
  import opened Types
  import opened LogCodec
  import opened LogFile
  import opened KeyDir
  import opened Store

  /** What the hint for a copied record says about its position: the code writes where the record
      was copied from, the index gets where it was copied to. */
  datatype HintRule = AsWritten | AsIndexed

  /** The copying phase: the directory so far, the statistics, the index entries of the copies made,
      the output file and the position in it. */
  datatype Copy = Copy(disk: Disk, stats: Stats, plan: Index, file: FileId, pos: nat)

  /** Start an output file together with its hint file. */
  function NewOutput(d: Disk, f: FileId): Disk {
    Disk(d.data[f := []], d.hint[f := []])
  }

  function StartCopy(s: Store): Copy {
    Copy(NewOutput(s.disk, s.active + 1), s.stats, map[], s.active + 1, 0)
  }

  /** The log entry of a copy: the record of `key` at the end of the output file. */
  function CopyEvent(c: Copy, key: Bytes, e: Entry): Event {
    Event(key, Entry(c.file, e.len, c.pos, e.tstamp), true)
  }

  function CopyHint(c: Copy, key: Bytes, e: Entry, rule: HintRule): Hint {
    Hint(e.tstamp, e.len, if rule.AsWritten? then e.pos else c.pos, key)
  }

  /** Copy the record `r` that `key` points to, count it, and note it in the hint file. */
  function Place(c: Copy, key: Bytes, e: Entry, r: Record, rule: HintRule): Copy {
    var hints := if c.file in c.disk.hint then c.disk.hint[c.file] else [];
    Copy(Disk(AppendTo(c.disk, c.file, r).data, c.disk.hint[c.file := hints + [CopyHint(c, key, e, rule)]]),
         CountEntry(c.stats, CopyEvent(c, key, e)),
         c.plan[key := CopyEvent(c, key, e).entry],
         c.file, c.pos + e.len)
  }

  /** Go on to the next output file when this one has grown past the limit. */
  function Switch(c: Copy, max: nat): Copy {
    if c.pos > max then c.(disk := NewOutput(c.disk, c.file + 1), file := c.file + 1, pos := 0) else c
  }

  function CopyKey(index: Index, c: Copy, key: Bytes, max: nat, rule: HintRule): Copy {
    if key !in index then c
    else
      match Find(Content(c.disk, index[key].fileid), index[key].pos)
      case None => c
      case Some(r) => Switch(Place(c, key, index[key], r, rule), max)
  }

  /** Keys of the index, each at most once. */
  ghost predicate Distinct(order: seq<Bytes>, index: Index) {
    && (forall k :: k in order ==> k in index)
    && (forall i, j :: 0 <= i < j < |order| ==> order[i] != order[j])
  }

  function CopyAll(s: Store, order: seq<Bytes>, max: nat, rule: HintRule): Copy {
    if |order| == 0 then StartCopy(s)
    else
      var n := |order| - 1;
      CopyKey(s.index, CopyAll(s, order[..n], max, rule), order[n], max, rule)
  }

  /** The index while it is being pointed to the copies: the keys in `done` are, the others are not. */
  function Repointed(index: Index, plan: Index, done: set<Bytes>): Index {
    index + (map k | k in plan && k in done :: plan[k])
  }

  /** The directory while the selected files are removed, hint files before data files. */
  function Removed(d: Disk, hints: set<FileId>, files: set<FileId>): Disk {
    Disk(d.data - files, d.hint - hints)
  }

  /** The state when the selected files are gone and a new active file is still to be made. */
  function BeforeActive(s: Store, c: Copy, selected: set<FileId>): Store {
    Store(Removed(c.disk, selected, selected), s.index + c.plan, c.stats - selected, s.active, s.written)
  }

  function Finish(s: Store, c: Copy, selected: set<FileId>, next: FileId): Store {
    NewActive(BeforeActive(s, c, selected), next)
  }

  function Merge(s: Store, selected: set<FileId>, order: seq<Bytes>, max: nat, rule: HintRule): Store {
    var c := CopyAll(s, order, max, rule);
    Finish(s, c, selected, c.file + 1)
  }

  /** The selection is among the files with statistics, and the copied keys are those that point
      into it, each once. */
  ghost predicate Selects(s: Store, selected: set<FileId>, order: seq<Bytes>) {
    && selected <= s.stats.Keys
    && (forall i, j :: 0 <= i < j < |order| ==> order[i] != order[j])
    && (forall k :: k in order <==> k in s.index && s.index[k].fileid in selected)
  }

  /** The output file and the position in it of the next copy, computed from lengths alone. */
  function Slot(index: Index, order: seq<Bytes>, first: FileId, max: nat): (FileId, nat) {
    if |order| == 0 then (first, 0)
    else
      var n := |order| - 1;
      var (f, p) := Slot(index, order[..n], first, max);
      var q := p + (if order[n] in index then index[order[n]].len else 0);
      if q > max then (f + 1, 0) else (f, q)
  }

  // ---------- the copying phase ----------

  /** What the hint file says for the entries of a data file. */
  function HintView(index: Index, rule: HintRule, evs: seq<Event>): seq<Event> {
    if |evs| == 0 then []
    else HintView(index, rule, evs[..|evs| - 1]) + [Hinted(index, rule, evs[|evs| - 1])]
  }

  function Hinted(index: Index, rule: HintRule, ev: Event): Event {
    if rule.AsWritten? && ev.key in index then ev.(entry := ev.entry.(pos := index[ev.key].pos)) else ev
  }

  /** The files that were there before are untouched; the outputs follow them without a gap, and the
      position is the end of the last of them. */
  ghost predicate OutputsOk(s: Store, c: Copy) {
    && c.file > s.active
    && (forall f :: 0 <= f <= s.active ==>
         (f in c.disk.data <==> f in s.disk.data) && Content(c.disk, f) == Content(s.disk, f))
    && (forall f :: 0 <= f <= s.active ==>
         (f in c.disk.hint <==> f in s.disk.hint) && (f in c.disk.hint ==> c.disk.hint[f] == s.disk.hint[f]))
    && (forall f :: f > s.active ==>
         (f in c.disk.data <==> f <= c.file) && (f in c.disk.hint <==> f <= c.file))
    && c.pos == Total(Content(c.disk, c.file))
  }

  ghost predicate OutputsBounded(s: Store, c: Copy, max: nat) {
    forall f :: f > s.active ==> Bounded(Content(c.disk, f), max)
  }

  /** Every planned entry points to a copy of the record that the index points to. */
  ghost predicate PlanOk(s: Store, c: Copy) {
    forall k :: k in c.plan ==>
      && k in s.index && c.plan[k].fileid > s.active
      && Points(c.disk, k, c.plan[k])
      && ValueAt(c.disk, c.plan[k]) == ValueAt(s.disk, s.index[k])
  }

  /** These log entries are all values, each at the place planned for its key. */
  ghost predicate AllPlanned(plan: Index, evs: seq<Event>) {
    forall ev :: ev in evs ==> ev.live && ev.key in plan && plan[ev.key] == ev.entry
  }

  /** The outputs hold nothing but the planned copies. */
  ghost predicate OnlyCopies(s: Store, c: Copy) {
    forall f :: f > s.active ==> AllPlanned(c.plan, DataEvents(f, Content(c.disk, f)))
  }

  /** The hint files of the outputs describe their data files by the given rule. */
  ghost predicate HintsFollow(s: Store, c: Copy, rule: HintRule) {
    forall f :: f > s.active && f in c.disk.hint ==>
      HintEvents(f, c.disk.hint[f]) == HintView(s.index, rule, DataEvents(f, Content(c.disk, f)))
  }

  /** The statistics of the old files are unchanged, those of the outputs are exact for the plan. */
  ghost predicate CountsOk(s: Store, c: Copy) {
    && (forall f :: 0 <= f <= s.active ==> (f in c.stats <==> f in s.stats) && StatOf(c.stats, f) == StatOf(s.stats, f))
    && (forall f :: f > s.active ==>
         ExactAt(Catalog(c.plan, c.stats), f, |Content(c.disk, f)|, Total(Content(c.disk, f))))
  }

  ghost predicate Copied(s: Store, order: seq<Bytes>, c: Copy, max: nat, rule: HintRule) {
    && c.plan.Keys == (set k | k in order)
    && (c.file, c.pos) == Slot(s.index, order, s.active + 1, max)
    && c.pos <= max
    && OutputsOk(s, c) && OutputsBounded(s, c, max) && PlanOk(s, c) && OnlyCopies(s, c)
    && HintsFollow(s, c, rule) && CountsOk(s, c)
  }
}
