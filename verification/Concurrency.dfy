/**
 Readers beside the writer. One writer takes its steps one at a time, any number of clients take
 readers out of a pool, look keys up and read files through cached mappings, in any interleaving.

 A record that is appended becomes visible to readers as a whole.
 */
module Concurrency {
  import opened Types
  import opened LogCodec
  import opened KeyDir
  import opened Store
  import opened Compaction
  import opened CompactionCopy
  import opened CompactionEffects

  // ---------- the writer, step by step ----------

  /** Where the writer is in its operation. An update appends its record, rotates the file, and then
      changes the index; a merge copies, points the index to the copies, and removes files. */
  datatype Phase =
    | Idle
    | Appended(r: Record)
    | Turned(r: Record)
    | Copying(selected: set<FileId>, order: seq<Bytes>, i: nat)
    | Pointing(selected: set<FileId>, order: seq<Bytes>, done: set<Bytes>)
    | Removing(selected: set<FileId>, order: seq<Bytes>, hints: set<FileId>, files: set<FileId>)

  /** The state at the start of the operation and how far it has come. */
  datatype Writing = Writing(s: Store, phase: Phase)

  /** What readers can see: the directory, the index, and the largest id that has been used. */
  datatype View = View(disk: Disk, index: Index, top: FileId)

  ghost function ViewOf(w: Writing, max: nat, rule: HintRule): View {
    match w.phase
    case Idle => View(w.s.disk, w.s.index, w.s.active)
    case Appended(r) => View(Append(w.s, r).disk, w.s.index, w.s.active)
    case Turned(r) => View(Rotate(Append(w.s, r), max).disk, w.s.index, Rotate(Append(w.s, r), max).active)
    case Copying(_, order, i) =>
      var c := CopyAll(w.s, if i <= |order| then order[..i] else order, max, rule);
      View(c.disk, w.s.index, c.file)
    case Pointing(_, order, done) =>
      var c := CopyAll(w.s, order, max, rule);
      View(c.disk, Repointed(w.s.index, c.plan, done), c.file)
    case Removing(_, order, hints, files) =>
      var c := CopyAll(w.s, order, max, rule);
      View(Removed(c.disk, hints, files), w.s.index + c.plan, c.file)
  }

  ghost predicate WriterOk(w: Writing, max: nat) {
    && Running(w.s, max)
    && match w.phase
       case Copying(selected, order, i) => Selects(w.s, selected, order) && i <= |order|
       case Pointing(selected, order, done) => Selects(w.s, selected, order)
       case Removing(selected, order, hints, files) =>
         Selects(w.s, selected, order) && files <= hints && hints <= selected
       case _ => true
  }

  /** One step of the writer. */
  ghost predicate WriterStep(w: Writing, w': Writing, max: nat, rule: HintRule) {
    match w.phase
    case Idle =>
      w'.s == w.s && match w'.phase {
        case Appended(r) => true
        case Copying(selected, order, i) => i == 0 && Selects(w.s, selected, order)
        case _ => false
      }
    case Appended(r) => w' == Writing(w.s, Turned(r))
    case Turned(r) => w' == Writing(Update(w.s, r, max), Idle)
    case Copying(selected, order, i) =>
      if i < |order| then w' == Writing(w.s, Copying(selected, order, i + 1))
      else w' == Writing(w.s, Pointing(selected, order, {}))
    case Pointing(selected, order, done) =>
      || (exists k :: k in order && w' == Writing(w.s, Pointing(selected, order, done + {k})))
      || ((forall k :: k in order ==> k in done) && w' == Writing(w.s, Removing(selected, order, {}, {})))
    case Removing(selected, order, hints, files) =>
      || (exists f :: f in selected && w' == Writing(w.s, Removing(selected, order, hints + {f}, files)))
      || (exists f :: f in hints && w' == Writing(w.s, Removing(selected, order, hints, files + {f})))
      || (files == selected && w' == Writing(Merge(w.s, selected, order, max, rule), Idle))
  }

  /** At every point of an operation each index entry names a record, and the map that readers can see
      is still the one from the start of the operation. */
  lemma ViewStands(w: Writing, max: nat, rule: HintRule, v: View)
    requires WriterOk(w, max) && v == ViewOf(w, max, rule)
    ensures AllPoint(v.disk, v.index)
    ensures Contents(v.disk, v.index) == Contents(w.s.disk, w.s.index)
  {
    match w.phase {
      case Idle =>
      case Appended(r) => AppendedStands(w.s, r, Append(w.s, r).disk);
      case Turned(r) =>
        AppendedStands(w.s, r, Append(w.s, r).disk);
        RotatedStands(Append(w.s, r), max, w.s.index);
      case Copying(selected, order, i) => CopyingIsInvisible(w.s, selected, order, i, max, rule);
      case Pointing(selected, order, done) => RepointingIsInvisible(w.s, selected, order, done, max, rule);
      case Removing(selected, order, hints, files) =>
        RemovingIsInvisible(w.s, selected, order, hints, files, max, rule);
    }
  }

  lemma AppendedStands(s: Store, r: Record, d: Disk)
    requires AllPoint(s.disk, s.index) && d == Append(s, r).disk
    ensures AllPoint(d, s.index) && Contents(d, s.index) == Contents(s.disk, s.index)
  {
    forall k | k in s.index
      ensures Points(d, k, s.index[k]) && ValueAt(d, s.index[k]) == ValueAt(s.disk, s.index[k])
    {
      AppendKeepsPoints(s.disk, s.active, r, k, s.index[k]);
    }
    SameReads(d, s.index, s.disk, s.index);
  }

  lemma RotatedStands(s: Store, max: nat, index: Index)
    requires AllPoint(s.disk, index) && s.active + 1 !in s.disk.data
    ensures AllPoint(Rotate(s, max).disk, index)
    ensures Contents(Rotate(s, max).disk, index) == Contents(s.disk, index)
  {
    var d := Rotate(s, max).disk;
    assert forall f :: Content(d, f) == Content(s.disk, f);
    SameReads(d, index, s.disk, index);
  }

  /** A step of the writer keeps its invariant. The map that readers can see changes only when an
      update changes the index, and then to the map with the update. */
  lemma WriterStepStands(w: Writing, w': Writing, max: nat, rule: HintRule)
    requires WriterOk(w, max) && WriterStep(w, w', max, rule)
    ensures WriterOk(w', max)
    ensures Contents(w'.s.disk, w'.s.index)
         == (if w.phase.Turned? then Written(Contents(w.s.disk, w.s.index), w.phase.r.key, w.phase.r.value)
             else Contents(w.s.disk, w.s.index))
  {
    match w.phase {
      case Turned(r) =>
        UpdateKeepsRunning(w.s, r, max);
        UpdateContents(w.s, r, max);
      case Removing(selected, order, hints, files) =>
        if files == selected && w' == Writing(Merge(w.s, selected, order, max, rule), Idle) {
          MergeKeepsRunning(w.s, selected, order, max, rule, w'.s);
        }
      case _ =>
    }
  }

  // ---------- operations come to their end ----------

  /** An update is done in three steps, with the index changed in the last. */
  lemma UpdateGoesThrough(s: Store, r: Record, max: nat, rule: HintRule)
    ensures WriterStep(Writing(s, Idle), Writing(s, Appended(r)), max, rule)
    ensures WriterStep(Writing(s, Appended(r)), Writing(s, Turned(r)), max, rule)
    ensures WriterStep(Writing(s, Turned(r)), Writing(Update(s, r, max), Idle), max, rule)
  {
  }

  /** What is left of a merge: keys to copy, keys to point to their copies, files to remove. */
  ghost function Remaining(p: Phase): nat {
    match p
    case Copying(selected, order, i) => (if i < |order| then |order| - i else 0) + |order| + 2 * |selected| + 3
    case Pointing(selected, order, done) => |KeysIn(order) - done| + 2 * |selected| + 2
    case Removing(selected, order, hints, files) => |selected - hints| + |selected - files| + 1
    case _ => 0
  }

  ghost function KeysIn(order: seq<Bytes>): set<Bytes> {
    set k | k in order
  }

  lemma KeysOfOrder(order: seq<Bytes>)
    ensures |KeysIn(order) - {}| <= |order|
  {
    assert KeysIn(order) - {} == KeysIn(order);
    FewKeys(order);
  }

  lemma OneLess<T>(all: set<T>, done: set<T>, x: T)
    requires x in all && x !in done
    ensures |all - (done + {x})| < |all - done|
  {
    assert all - (done + {x}) == (all - done) - {x};
  }

  lemma {:induction false} FewKeys(order: seq<Bytes>)
    ensures |KeysIn(order)| <= |order|
  {
    if |order| > 0 {
      var init, k := order[..|order| - 1], order[|order| - 1];
      assert order == init + [k];
      FewKeys(init);
      assert KeysIn(order) == KeysIn(init) + {k};
    }
  }

  /** From any point of a merge there is a step on that leaves less to do, and at the end the whole merge
      is done. */
  lemma MergeGoesOn(w: Writing, max: nat, rule: HintRule) returns (w': Writing)
    requires WriterOk(w, max) && (w.phase.Copying? || w.phase.Pointing? || w.phase.Removing?)
    ensures WriterStep(w, w', max, rule) && Remaining(w'.phase) < Remaining(w.phase)
    ensures w'.phase.Idle? ==> w'.s == Merge(w.s, w.phase.selected, w.phase.order, max, rule)
    ensures !w'.phase.Idle? ==> !w'.phase.Appended? && !w'.phase.Turned? && w'.phase.selected == w.phase.selected
  {
    match w.phase {
      case Copying(selected, order, i) =>
        KeysOfOrder(order);
        w' := Writing(w.s, if i < |order| then Copying(selected, order, i + 1) else Pointing(selected, order, {}));
      case Pointing(_, _, _) => w' := PointingGoesOn(w, max, rule);
      case Removing(_, _, _, _) => w' := RemovingGoesOn(w, max, rule);
    }
  }

  lemma PointingGoesOn(w: Writing, max: nat, rule: HintRule) returns (w': Writing)
    requires WriterOk(w, max) && w.phase.Pointing?
    ensures WriterStep(w, w', max, rule) && Remaining(w'.phase) < Remaining(w.phase)
    ensures !w'.phase.Idle? && !w'.phase.Appended? && !w'.phase.Turned? && w'.phase.selected == w.phase.selected
  {
    hide Merge, Running, Selects;
    var Pointing(selected, order, done) := w.phase;
    var all := KeysIn(order);
    if k :| k in all && k !in done {
      OneLess(all, done, k);
      w' := Writing(w.s, Pointing(selected, order, done + {k}));
    } else {
      assert forall k :: k in order ==> k in all;
      assert selected - {} == selected;
      w' := Writing(w.s, Removing(selected, order, {}, {}));
    }
  }

  lemma RemovingGoesOn(w: Writing, max: nat, rule: HintRule) returns (w': Writing)
    requires WriterOk(w, max) && w.phase.Removing?
    ensures WriterStep(w, w', max, rule) && Remaining(w'.phase) < Remaining(w.phase)
    ensures w'.phase.Idle? ==> w'.s == Merge(w.s, w.phase.selected, w.phase.order, max, rule)
    ensures !w'.phase.Idle? ==> !w'.phase.Appended? && !w'.phase.Turned? && w'.phase.selected == w.phase.selected
  {
    hide Merge, Running, Selects;
    var Removing(selected, order, hints, files) := w.phase;
    if f :| f in selected && f !in hints {
      OneLess(selected, hints, f);
      w' := Writing(w.s, Removing(selected, order, hints + {f}, files));
    } else if f :| f in selected && f !in files {
      OneLess(selected, files, f);
      w' := Writing(w.s, Removing(selected, order, hints, files + {f}));
    } else {
      assert files == selected;
      w' := Writing(Merge(w.s, selected, order, max, rule), Idle);
    }
  }

  // ---------- files only grow, and ids are new ----------

  /** Every file that stays keeps its records and may get more; every other file is new. */
  ghost predicate Grows(v: View, v': View) {
    && (forall f :: f in v.disk.data && f in v'.disk.data ==> v.disk.data[f] <= v'.disk.data[f])
    && (forall f :: f in v'.disk.data && f !in v.disk.data ==> v.top < f)
    && (forall f :: f in v'.disk.data ==> f <= v'.top)
    && v.top <= v'.top
  }

  lemma AppendGrows(s: Store, r: Record, v: View, v': View)
    requires IdsOk(s.disk, s.active)
    requires v == View(s.disk, s.index, s.active) && v' == View(Append(s, r).disk, s.index, s.active)
    ensures Grows(v, v')
  {
  }

  lemma RotateGrows(s: Store, max: nat, index: Index, t: Store)
    requires IdsOk(s.disk, s.active) && t == Rotate(s, max)
    ensures Grows(View(s.disk, index, s.active), View(t.disk, index, t.active))
  {
  }

  lemma StartGrows(s: Store, c: Copy, max: nat, v: View, v': View)
    requires Running(s, max) && c == StartCopy(s)
    requires v == View(s.disk, s.index, s.active) && v' == View(c.disk, s.index, c.file)
    ensures Grows(v, v')
  {
    StartOutputs(s, max);
  }

  lemma PlaceGrows(s: Store, c: Copy, key: Bytes, r: Record, rule: HintRule, p: Copy, f: FileId)
    requires ToCopy(s, c, key, r) && OutputsOk(s, c) && p == Place(c, key, s.index[key], r, rule)
    ensures f in c.disk.data <==> f in p.disk.data
    ensures f in c.disk.data ==> c.disk.data[f] <= p.disk.data[f]
  {
  }

  lemma CopyGrows(s: Store, c: Copy, key: Bytes, r: Record, max: nat, rule: HintRule, t: Copy, index: Index)
    requires ToCopy(s, c, key, r) && OutputsOk(s, c) && t == Switch(Place(c, key, s.index[key], r, rule), max)
    requires IdsOk(s.disk, s.active)
    ensures Grows(View(c.disk, index, c.file), View(t.disk, index, t.file))
  {
    var p := Place(c, key, s.index[key], r, rule);
    PlaceOutputs(s, c, key, r, rule);
    SwitchOutputs(s, p, max);
    forall f: FileId {
      PlaceGrows(s, c, key, r, rule, p, f);
    }
    SwitchAddsOne(p, max, t);
  }

  lemma SwitchAddsOne(p: Copy, max: nat, t: Copy)
    requires t == Switch(p, max) && p.file + 1 !in p.disk.data
    ensures p.file <= t.file
    ensures forall f :: f in p.disk.data ==> f in t.disk.data && t.disk.data[f] == p.disk.data[f]
    ensures forall f :: f in t.disk.data && f !in p.disk.data ==> f > p.file
  {
  }

  lemma CopyStepGrows(s: Store, order: seq<Bytes>, i: nat, next: nat, max: nat, rule: HintRule, c: Copy, t: Copy)
    requires Running(s, max) && i < |order| && next == i + 1 && (forall k :: k in order ==> k in s.index)
    requires forall a, b :: 0 <= a < b < |order| ==> order[a] != order[b]
    requires c == CopyAll(s, order[..i], max, rule) && t == CopyAll(s, order[..next], max, rule)
    ensures Grows(View(c.disk, s.index, c.file), View(t.disk, s.index, t.file))
  {
    var r := NextToCopy(s, order, i, c, max, rule);
    CopyAllStep(s, order, i, next, max, rule, c, r);
    CopyGrows(s, c, order[i], r, max, rule, t, s.index);
  }

  lemma RemovalGrows(c: Copy, index: Index, index': Index, d: Disk, hints: set<FileId>, files: set<FileId>, s: Store)
    requires OutputsOk(s, c) && Above(s.disk, s.active + 1)
    requires forall f :: f in d.data ==> f in c.disk.data && c.disk.data[f] == d.data[f]
    requires d.data.Keys >= Removed(c.disk, hints, files).data.Keys
    ensures Grows(View(d, index, c.file), View(Removed(c.disk, hints, files), index', c.file))
  {
  }

  lemma FinishGrows(s: Store, selected: set<FileId>, c: Copy, next: FileId, t: Store)
    requires OutputsOk(s, c) && Above(s.disk, s.active + 1)
    requires next == c.file + 1 && t == Finish(s, c, selected, next)
    ensures Grows(View(Removed(c.disk, selected, selected), s.index + c.plan, c.file),
                  View(t.disk, t.index, t.active))
  {
  }

  /** Whatever step the writer takes, files only grow or go, and new files have ids that were never
      used before. */
  lemma WriterStepGrows(w: Writing, w': Writing, max: nat, rule: HintRule, v: View, v': View)
    requires WriterOk(w, max) && WriterStep(w, w', max, rule)
    requires v == ViewOf(w, max, rule) && v' == ViewOf(w', max, rule)
    ensures Grows(v, v')
  {
    hide Grows, ViewOf, WriterOk, WriterStep;
    match w.phase {
      case Idle => IdleGrows(w, w', max, rule, v, v');
      case Appended(_) => TurningGrows(w, w', max, rule, v, v');
      case Turned(_) => UpdatingGrows(w, w', max, rule, v, v');
      case Copying(_, _, _) => CopyingGrows(w, w', max, rule, v, v');
      case Pointing(_, _, _) => PointingGrows(w, w', max, rule, v, v');
      case Removing(_, _, _, _) => RemovingGrows(w, w', max, rule, v, v');
    }
  }

  lemma TurningGrows(w: Writing, w': Writing, max: nat, rule: HintRule, v: View, v': View)
    requires WriterOk(w, max) && WriterStep(w, w', max, rule) && w.phase.Appended?
    requires v == ViewOf(w, max, rule) && v' == ViewOf(w', max, rule)
    ensures Grows(v, v')
  {
    var s := Append(w.s, w.phase.r);
    AppendKeepsIds(w.s, w.phase.r);
    RotateGrows(s, max, w.s.index, Rotate(s, max));
  }

  lemma UpdatingGrows(w: Writing, w': Writing, max: nat, rule: HintRule, v: View, v': View)
    requires WriterOk(w, max) && WriterStep(w, w', max, rule) && w.phase.Turned?
    requires v == ViewOf(w, max, rule) && v' == ViewOf(w', max, rule)
    ensures Grows(v, v')
  {
    AppendKeepsIds(w.s, w.phase.r);
    TurnedIds(Append(w.s, w.phase.r), max);
  }

  lemma CopyingGrows(w: Writing, w': Writing, max: nat, rule: HintRule, v: View, v': View)
    requires WriterOk(w, max) && WriterStep(w, w', max, rule) && w.phase.Copying?
    requires v == ViewOf(w, max, rule) && v' == ViewOf(w', max, rule)
    ensures Grows(v, v')
  {
    hide Grows, Running;
    var Copying(selected, order, i) := w.phase;
    if i < |order| {
      OneCopyGrows(w.s, order, i, i + 1, max, rule, v, v');
    } else {
      assert order[..i] == order;
      SameFilesGrow(w.s, selected, order, max, rule, CopyAll(w.s, order, max, rule), v, v');
    }
  }

  lemma AppendKeepsIds(s: Store, r: Record)
    requires IdsOk(s.disk, s.active)
    ensures IdsOk(Append(s, r).disk, s.active)
  {
  }

  lemma TurnedIds(s: Store, max: nat)
    requires IdsOk(s.disk, s.active)
    ensures Above(Rotate(s, max).disk, Rotate(s, max).active + 1)
  {
  }

  lemma PointingGrows(w: Writing, w': Writing, max: nat, rule: HintRule, v: View, v': View)
    requires WriterOk(w, max) && WriterStep(w, w', max, rule) && w.phase.Pointing?
    requires v == ViewOf(w, max, rule) && v' == ViewOf(w', max, rule)
    ensures Grows(v, v')
  {
    var Pointing(selected, order, done) := w.phase;
    var c := CopyAll(w.s, order, max, rule);
    assert w'.phase.Removing? ==> Removed(c.disk, {}, {}) == c.disk;
    SameFilesGrow(w.s, selected, order, max, rule, c, v, v');
  }

  lemma IdleGrows(w: Writing, w': Writing, max: nat, rule: HintRule, v: View, v': View)
    requires WriterOk(w, max) && WriterStep(w, w', max, rule) && w.phase.Idle?
    requires v == ViewOf(w, max, rule) && v' == ViewOf(w', max, rule)
    ensures Grows(v, v')
  {
    if w'.phase.Appended? {
      AppendGrows(w.s, w'.phase.r, v, v');
    } else {
      var order := w'.phase.order;
      assert order[..0] == [];
      StartGrows(w.s, CopyAll(w.s, order[..0], max, rule), max, v, v');
    }
  }

  /** While the index is pointed to the copies the files stay as they are. */
  lemma SameFilesGrow(s: Store, selected: set<FileId>, order: seq<Bytes>, max: nat, rule: HintRule, c: Copy,
                      v: View, v': View)
    requires Running(s, max) && Selects(s, selected, order) && c == CopyAll(s, order, max, rule)
    requires v.disk == v'.disk == c.disk && v.top == v'.top == c.file
    ensures Grows(v, v')
  {
    CopiesAreMade(s, selected, order, c, max, rule);
    RemovalGrows(c, v.index, v'.index, c.disk, {}, {}, s);
    assert Removed(c.disk, {}, {}) == c.disk;
  }

  lemma OneCopyGrows(s: Store, order: seq<Bytes>, i: nat, next: nat, max: nat, rule: HintRule, v: View, v': View)
    requires Running(s, max) && i < |order| && next == i + 1 && (forall k :: k in order ==> k in s.index)
    requires forall a, b :: 0 <= a < b < |order| ==> order[a] != order[b]
    requires var c := CopyAll(s, order[..i], max, rule); v == View(c.disk, s.index, c.file)
    requires var t := CopyAll(s, order[..next], max, rule); v' == View(t.disk, s.index, t.file)
    ensures Grows(v, v')
  {
    CopyStepGrows(s, order, i, next, max, rule, CopyAll(s, order[..i], max, rule),
                  CopyAll(s, order[..next], max, rule));
  }

  lemma RemovingGrows(w: Writing, w': Writing, max: nat, rule: HintRule, v: View, v': View)
    requires WriterOk(w, max) && WriterStep(w, w', max, rule) && w.phase.Removing?
    requires v == ViewOf(w, max, rule) && v' == ViewOf(w', max, rule)
    ensures Grows(v, v')
  {
    hide Contents, CopyAll, Copied, PlanCovers;
    var Removing(selected, order, hints, files) := w.phase;
    var c := CopyAll(w.s, order, max, rule);
    CopiesAreMade(w.s, selected, order, c, max, rule);
    if w'.phase.Removing? {
      RemovalGrows(c, v.index, v'.index, v.disk, w'.phase.hints, w'.phase.files, w.s);
    } else {
      assert v.disk.data == Removed(c.disk, selected, selected).data;
      FinishGrows(w.s, selected, c, c.file + 1, w'.s);
    }
  }
}
