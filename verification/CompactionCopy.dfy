/**
 The copying phase of a merge keeps its invariant, record by record.
 */
module CompactionCopy {
  import opened Types
  import opened LogCodec
  import opened LogFile
  import opened KeyDir
  import opened Store
  import opened Compaction

  /** The record that the index has for a key that is still to be copied. */
  ghost predicate ToCopy(s: Store, c: Copy, key: Bytes, r: Record) {
    && key in s.index && key !in c.plan
    && s.index[key].fileid <= s.active
    && Find(Content(s.disk, s.index[key].fileid), s.index[key].pos) == Some(r)
    && EventOf(s.index[key].fileid, s.index[key].pos, r) == Event(key, s.index[key], true)
  }

  lemma StartCounts(s: Store, max: nat)
    requires Running(s, max)
    ensures CountsOk(s, StartCopy(s))
  {
    var c := StartCopy(s);
    forall f | f > s.active
      ensures ExactAt(Catalog(c.plan, c.stats), f, |Content(c.disk, f)|, Total(Content(c.disk, f)))
    {
      assert Content(c.disk, f) == Content(s.disk, f) == [];
      assert ExactAt(Catalog(s.index, s.stats), f, |Content(s.disk, f)|, Total(Content(s.disk, f)));
    }
  }

  lemma StartOutputs(s: Store, max: nat)
    requires Running(s, max)
    ensures OutputsOk(s, StartCopy(s))
    ensures forall f :: f > s.active ==> Content(StartCopy(s).disk, f) == [] && f !in s.disk.hint
  {
    StartIsNew(s);
  }

  lemma StartIsNew(s: Store)
    requires IdsOk(s.disk, s.active)
    ensures OutputsOk(s, StartCopy(s))
    ensures forall f :: f > s.active ==> Content(StartCopy(s).disk, f) == [] && f !in s.disk.hint
  {
    assert forall f :: f > s.active ==> f !in s.disk.hint.Keys;
  }

  lemma StartIsCopied(s: Store, max: nat, rule: HintRule)
    requires Running(s, max)
    ensures Copied(s, [], StartCopy(s), max, rule)
  {
    StartCounts(s, max);
    StartOutputs(s, max);
    StartFollows(s, rule);
  }

  lemma StartFollows(s: Store, rule: HintRule)
    requires forall f :: f > s.active ==> Content(StartCopy(s).disk, f) == [] && f !in s.disk.hint
    ensures HintsFollow(s, StartCopy(s), rule)
  {
  }

  // ---------- one record is placed ----------

  lemma PlacedEvent(s: Store, c: Copy, key: Bytes, r: Record)
    requires ToCopy(s, c, key, r) && c.pos == Total(Content(c.disk, c.file))
    ensures CopyEvent(c, key, s.index[key]) == EventOf(c.file, Total(Content(c.disk, c.file)), r)
  {
  }

  lemma PlacePlan(s: Store, c: Copy, key: Bytes, r: Record, rule: HintRule)
    requires OutputsOk(s, c) && PlanOk(s, c) && ToCopy(s, c, key, r)
    ensures PlanOk(s, Place(c, key, s.index[key], r, rule))
  {
    var p := Place(c, key, s.index[key], r, rule);
    PlacedEvent(s, c, key, r);
    forall k | k in p.plan
      ensures Points(p.disk, k, p.plan[k]) && ValueAt(p.disk, p.plan[k]) == ValueAt(s.disk, s.index[k])
    {
      if k == key {
        AppendedPoints(c.disk, c.file, r);
      } else {
        AppendKeepsPoints(c.disk, c.file, r, k, c.plan[k]);
      }
      assert Content(p.disk, p.plan[k].fileid) == Content(AppendTo(c.disk, c.file, r), p.plan[k].fileid);
    }
  }

  lemma DataEventsSnoc(f: FileId, rs: seq<Record>, r: Record)
    ensures DataEvents(f, rs + [r]) == DataEvents(f, rs) + [EventOf(f, Total(rs), r)]
  {
    assert (rs + [r])[..|rs|] == rs;
  }

  lemma PlacedFile(s: Store, c: Copy, key: Bytes, r: Record, rule: HintRule, f: FileId)
    requires ToCopy(s, c, key, r) && c.pos == Total(Content(c.disk, c.file))
    ensures var p := Place(c, key, s.index[key], r, rule);
            && Content(p.disk, f) == (if f == c.file then Content(c.disk, f) + [r] else Content(c.disk, f))
            && DataEvents(f, Content(p.disk, f))
               == (if f == c.file then DataEvents(f, Content(c.disk, f)) + [CopyEvent(c, key, s.index[key])]
                   else DataEvents(f, Content(c.disk, f)))
  {
    PlacedEvent(s, c, key, r);
    DataEventsSnoc(c.file, Content(c.disk, c.file), r);
  }

  lemma PlaceOnlyCopies(s: Store, c: Copy, key: Bytes, r: Record, rule: HintRule)
    requires OutputsOk(s, c) && OnlyCopies(s, c) && ToCopy(s, c, key, r)
    ensures OnlyCopies(s, Place(c, key, s.index[key], r, rule))
  {
    var p := Place(c, key, s.index[key], r, rule);
    forall f: FileId | f > s.active
      ensures AllPlanned(p.plan, DataEvents(f, Content(p.disk, f)))
    {
      PlacedFile(s, c, key, r, rule, f);
      OneMorePlanned(c.plan, DataEvents(f, Content(c.disk, f)), CopyEvent(c, key, s.index[key]));
    }
  }

  lemma OneMorePlanned(plan: Index, evs: seq<Event>, ev: Event)
    requires AllPlanned(plan, evs) && ev.live && ev.key !in plan
    ensures AllPlanned(plan[ev.key := ev.entry], evs)
    ensures AllPlanned(plan[ev.key := ev.entry], evs + [ev])
  {
  }

  lemma PlaceHints(s: Store, c: Copy, key: Bytes, r: Record, rule: HintRule)
    requires OutputsOk(s, c) && HintsFollow(s, c, rule) && ToCopy(s, c, key, r)
    ensures HintsFollow(s, Place(c, key, s.index[key], r, rule), rule)
  {
    var e := s.index[key];
    var p := Place(c, key, e, r, rule);
    forall f | f > s.active && f in p.disk.hint
      ensures HintEvents(f, p.disk.hint[f]) == HintView(s.index, rule, DataEvents(f, Content(p.disk, f)))
    {
      PlacedFile(s, c, key, r, rule, f);
      if f == c.file {
        var hs, h := c.disk.hint[f], CopyHint(c, key, e, rule);
        var evs, ev := DataEvents(f, Content(c.disk, f)), CopyEvent(c, key, e);
        assert (hs + [h])[..|hs|] == hs && (evs + [ev])[..|evs|] == evs;
        assert HintEvent(f, h) == Hinted(s.index, rule, ev);
      }
    }
  }

  lemma PlaceCountsAt(s: Store, c: Copy, key: Bytes, r: Record, rule: HintRule, f: FileId)
    requires c.pos == Total(Content(c.disk, c.file)) && ToCopy(s, c, key, r)
    requires ExactAt(Catalog(c.plan, c.stats), f, |Content(c.disk, f)|, Total(Content(c.disk, f)))
    ensures var p := Place(c, key, s.index[key], r, rule);
            ExactAt(Catalog(p.plan, p.stats), f, |Content(p.disk, f)|, Total(Content(p.disk, f)))
  {
    var p := Place(c, key, s.index[key], r, rule);
    var ev := CopyEvent(c, key, s.index[key]);
    assert Catalog(p.plan, p.stats) == Apply(Catalog(c.plan, c.stats), ev);
    PlacedFile(s, c, key, r, rule, f);
    TotalSnoc(Content(c.disk, f), r);
    ApplyKeepsExact(Catalog(c.plan, c.stats), ev, f, |Content(c.disk, f)|, Total(Content(c.disk, f)));
  }

  lemma PlaceCounts(s: Store, c: Copy, key: Bytes, r: Record, rule: HintRule)
    requires OutputsOk(s, c) && CountsOk(s, c) && ToCopy(s, c, key, r)
    ensures CountsOk(s, Place(c, key, s.index[key], r, rule))
  {
    forall f: FileId | f > s.active {
      PlaceCountsAt(s, c, key, r, rule, f);
    }
  }

  // ---------- and the output file is switched when it is full ----------

  lemma PlaceOutputs(s: Store, c: Copy, key: Bytes, r: Record, rule: HintRule)
    requires OutputsOk(s, c) && ToCopy(s, c, key, r)
    ensures OutputsOk(s, Place(c, key, s.index[key], r, rule))
  {
    TotalSnoc(Content(c.disk, c.file), r);
  }

  lemma PlaceBounded(s: Store, c: Copy, key: Bytes, r: Record, max: nat, rule: HintRule)
    requires OutputsOk(s, c) && OutputsBounded(s, c, max) && c.pos <= max && ToCopy(s, c, key, r)
    ensures OutputsBounded(s, Place(c, key, s.index[key], r, rule), max)
  {
    var rs := Content(c.disk, c.file);
    assert (rs + [r])[..|rs|] == rs;
    forall f {
      PlacedFile(s, c, key, r, rule, f);
    }
  }

  /** Switching adds an empty file and nothing else. */
  lemma SwitchAddsNothing(c: Copy, max: nat, f: FileId)
    requires c.file + 1 !in c.disk.data && c.file + 1 !in c.disk.hint
    ensures var t := Switch(c, max);
            && Content(t.disk, f) == Content(c.disk, f)
            && t.plan == c.plan && t.stats == c.stats
            && (f in c.disk.data ==> f in t.disk.data)
            && (f in t.disk.hint ==> t.disk.hint[f] == if f in c.disk.hint then c.disk.hint[f] else [])
            && (f in t.disk.hint && f !in c.disk.hint ==> f == c.file + 1)
  {
  }

  lemma SwitchOutputs(s: Store, c: Copy, max: nat)
    requires OutputsOk(s, c)
    ensures OutputsOk(s, Switch(c, max)) && Switch(c, max).pos <= max
    ensures OutputsBounded(s, c, max) ==> OutputsBounded(s, Switch(c, max), max)
  {
    forall f {
      SwitchAddsNothing(c, max, f);
    }
  }

  lemma SwitchPlan(s: Store, c: Copy, max: nat)
    requires OutputsOk(s, c) && PlanOk(s, c)
    ensures PlanOk(s, Switch(c, max))
  {
    forall f {
      SwitchAddsNothing(c, max, f);
    }
  }

  lemma SwitchOnlyCopies(s: Store, c: Copy, max: nat)
    requires OutputsOk(s, c) && OnlyCopies(s, c)
    ensures OnlyCopies(s, Switch(c, max))
  {
    forall f {
      SwitchAddsNothing(c, max, f);
    }
  }

  lemma SwitchHints(s: Store, c: Copy, max: nat, rule: HintRule)
    requires OutputsOk(s, c) && HintsFollow(s, c, rule)
    ensures HintsFollow(s, Switch(c, max), rule)
  {
    forall f {
      SwitchAddsNothing(c, max, f);
    }
  }

  lemma SwitchCounts(s: Store, c: Copy, max: nat)
    requires OutputsOk(s, c) && CountsOk(s, c)
    ensures CountsOk(s, Switch(c, max))
  {
    forall f {
      SwitchAddsNothing(c, max, f);
    }
  }

  // ---------- one step, and all steps ----------

  lemma NextIsThere(s: Store, order: seq<Bytes>, key: Bytes, c: Copy, max: nat)
    requires Running(s, max) && key in s.index && key !in order
    requires OutputsOk(s, c) && c.plan.Keys == (set k | k in order)
    ensures var e := s.index[key];
            var r := Find(Content(c.disk, e.fileid), e.pos);
            r.Some? && ToCopy(s, c, key, r.value)
  {
    assert Points(s.disk, key, s.index[key]);
  }

  lemma CopyKeySlot(s: Store, order: seq<Bytes>, key: Bytes, c: Copy, r: Record, max: nat, rule: HintRule)
    requires ToCopy(s, c, key, r)
    requires c.plan.Keys == (set k | k in order) && (c.file, c.pos) == Slot(s.index, order, s.active + 1, max)
    ensures var t := Switch(Place(c, key, s.index[key], r, rule), max);
            && t.plan.Keys == (set k | k in order + [key])
            && (t.file, t.pos) == Slot(s.index, order + [key], s.active + 1, max)
  {
    assert (order + [key])[..|order|] == order;
  }

  lemma PlaceSwitchKeeps(s: Store, c: Copy, key: Bytes, r: Record, max: nat, rule: HintRule)
    requires OutputsOk(s, c) && OutputsBounded(s, c, max) && PlanOk(s, c) && c.pos <= max
    requires OnlyCopies(s, c) && HintsFollow(s, c, rule) && CountsOk(s, c)
    requires ToCopy(s, c, key, r)
    ensures var t := Switch(Place(c, key, s.index[key], r, rule), max);
            && OutputsOk(s, t) && OutputsBounded(s, t, max) && PlanOk(s, t) && t.pos <= max
            && OnlyCopies(s, t) && HintsFollow(s, t, rule) && CountsOk(s, t)
  {
    var p := Place(c, key, s.index[key], r, rule);
    assert OutputsOk(s, p) by { PlaceOutputs(s, c, key, r, rule); }
    assert OutputsBounded(s, p, max) by { PlaceBounded(s, c, key, r, max, rule); }
    assert PlanOk(s, p) by { PlacePlan(s, c, key, r, rule); }
    assert OnlyCopies(s, p) by { PlaceOnlyCopies(s, c, key, r, rule); }
    assert HintsFollow(s, p, rule) by { PlaceHints(s, c, key, r, rule); }
    assert CountsOk(s, p) by { PlaceCounts(s, c, key, r, rule); }
    SwitchOutputs(s, p, max);
    SwitchPlan(s, p, max);
    SwitchOnlyCopies(s, p, max);
    SwitchHints(s, p, max, rule);
    SwitchCounts(s, p, max);
  }

  lemma CopyKeyKeeps(s: Store, order: seq<Bytes>, key: Bytes, c: Copy, max: nat, rule: HintRule)
    requires Running(s, max) && Copied(s, order, c, max, rule)
    requires key in s.index && key !in order
    ensures Copied(s, order + [key], CopyKey(s.index, c, key, max, rule), max, rule)
  {
    NextIsThere(s, order, key, c, max);
    var r := Find(Content(c.disk, s.index[key].fileid), s.index[key].pos).value;
    PlaceSwitchKeeps(s, c, key, r, max, rule);
    CopyKeySlot(s, order, key, c, r, max, rule);
  }

  lemma InitDistinct<T>(order: seq<T>)
    requires order != [] && (forall i, j :: 0 <= i < j < |order| ==> order[i] != order[j])
    ensures var n := |order| - 1;
            order == order[..n] + [order[n]] && order[n] !in order[..n]
  {
  }

  /** The copying phase, after any number of records. */
  lemma {:induction false} CopyAllCopied(s: Store, order: seq<Bytes>, max: nat, rule: HintRule)
    requires Running(s, max)
    requires forall k :: k in order ==> k in s.index
    requires forall i, j :: 0 <= i < j < |order| ==> order[i] != order[j]
    ensures Copied(s, order, CopyAll(s, order, max, rule), max, rule)
  {
    if order == [] {
      StartIsCopied(s, max, rule);
    } else {
      var n := |order| - 1;
      InitDistinct(order);
      CopyAllCopied(s, order[..n], max, rule);
      CopyKeyKeeps(s, order[..n], order[n], CopyAll(s, order[..n], max, rule), max, rule);
    }
  }

  /** What the copying of the next key finds: its record, which is where it was. */
  lemma NextToCopy(s: Store, order: seq<Bytes>, i: nat, c: Copy, max: nat, rule: HintRule) returns (r: Record)
    requires Running(s, max) && Distinct(order, s.index) && i < |order|
    requires c == CopyAll(s, order[..i], max, rule)
    ensures ToCopy(s, c, order[i], r) && OutputsOk(s, c)
    ensures Find(Content(c.disk, s.index[order[i]].fileid), s.index[order[i]].pos) == Some(r)
  {
    CopyAllCopied(s, order[..i], max, rule);
    NextIsThere(s, order[..i], order[i], c, max);
    r := Find(Content(c.disk, s.index[order[i]].fileid), s.index[order[i]].pos).value;
  }

  /** Copying one more key is placing its record. */
  lemma CopyAllStep(s: Store, order: seq<Bytes>, i: nat, next: nat, max: nat, rule: HintRule, c: Copy, r: Record)
    requires i < |order| && next == i + 1 && c == CopyAll(s, order[..i], max, rule) && order[i] in s.index
    requires Find(Content(c.disk, s.index[order[i]].fileid), s.index[order[i]].pos) == Some(r)
    ensures CopyAll(s, order[..next], max, rule) == Switch(Place(c, order[i], s.index[order[i]], r, rule), max)
  {
    assert order[..next][..i] == order[..i];
  }
}
