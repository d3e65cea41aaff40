/**
 Whole interleavings of clients and the writer. The map changes at one step of each update, and every
 get returns what the map held at one step between its start and its end.
 */
module Linearizability {
  import opened Types
  import opened KeyDir
  import opened Store
  import opened Concurrency
  import opened Readers

  /** An interleaving: the states that it went through and the steps between them. */
  datatype Trace = Trace(states: seq<System>, steps: seq<Label>) {
    ghost predicate Valid(cf: Config) {
      && |states| == |steps| + 1 && Starts(states[0], cf)
      && forall i :: 0 <= i < |steps| ==> TakesStep(cf, i)
    }

    ghost predicate TakesStep(cf: Config, i: nat)
      requires i < |steps| && |states| == |steps| + 1
    {
      Steps(states[i], states[i + 1], cf, steps[i])
    }
  }

  /** The map that all readers see. */
  ghost function MapSeen(y: System, cf: Config): map<Bytes, Bytes> {
    var v := Seen(y, cf);
    Contents(v.disk, v.index)
  }

  /** The step that changes the index for an update changes the map. */
  ghost function MapNext(m: map<Bytes, Bytes>, w: Writing, l: Label): map<Bytes, Bytes> {
    if l.WriterMove? && w.phase.Turned? then Written(m, w.phase.r.key, w.phase.r.value) else m
  }

  /** The updates whose index change is among the first `n` steps, applied in order to the first map. */
  ghost function MapAfter(t: Trace, n: nat): map<Bytes, Bytes>
    requires n < |t.states| == |t.steps| + 1
  {
    if n == 0 then Contents(t.states[0].w.s.disk, t.states[0].w.s.index)
    else MapNext(MapAfter(t, n - 1), t.states[n - 1].w, t.steps[n - 1])
  }

  lemma StepOf(t: Trace, cf: Config, m: nat) returns (y: System, y': System, l: Label)
    requires t.Valid(cf) && m < |t.steps|
    ensures y == t.states[m] && y' == t.states[m + 1] && l == t.steps[m] && Steps(y, y', cf, l)
  {
    assert t.TakesStep(cf, m);
    y, y', l := t.states[m], t.states[m + 1], t.steps[m];
  }

  /** In every state that can be reached the invariant holds. */
  lemma {:induction false} AlwaysOk(t: Trace, cf: Config, n: nat, y: System)
    requires t.Valid(cf) && n < |t.states| && y == t.states[n]
    ensures SystemOk(y, cf)
  {
    if n == 0 {
      StartsOk(y, cf);
    } else {
      AlwaysOk(t, cf, n - 1, t.states[n - 1]);
      var before, after, l := StepOf(t, cf, n - 1);
      StepOk(before, after, cf, l);
    }
  }

  ghost function MapOf(w: Writing): map<Bytes, Bytes> {
    Contents(w.s.disk, w.s.index)
  }

  lemma WriterMovesMap(w: Writing, w': Writing, cf: Config)
    requires WriterOk(w, cf.max) && WriterStep(w, w', cf.max, cf.rule)
    ensures MapOf(w') == if w.phase.Turned? then Written(MapOf(w), w.phase.r.key, w.phase.r.value) else MapOf(w)
  {
    WriterStepStands(w, w', cf.max, cf.rule);
  }

  lemma OthersKeepWriter(y: System, y': System, cf: Config, l: Label)
    requires Steps(y, y', cf, l) && !l.WriterMove?
    ensures y'.w == y.w
  {
  }

  lemma StepMovesMap(y: System, y': System, cf: Config, l: Label)
    requires SystemOk(y, cf) && Steps(y, y', cf, l)
    ensures MapOf(y'.w) == MapNext(MapOf(y.w), y.w, l)
  {
    if l.WriterMove? {
      WriterMovesMap(y.w, y'.w, cf);
    } else {
      OthersKeepWriter(y, y', cf, l);
    }
  }

  lemma {:induction false} MapAfterStands(t: Trace, cf: Config, n: nat, y: System)
    requires t.Valid(cf) && n < |t.states| && y == t.states[n]
    ensures MapOf(y.w) == MapAfter(t, n)
  {
    hide Contents, MapNext, Running, SystemOk;
    if n > 0 {
      var before, after, l := StepOf(t, cf, n - 1);
      MapAfterStands(t, cf, n - 1, before);
      AlwaysOk(t, cf, n - 1, before);
      StepMovesMap(before, after, cf, l);
    }
  }

  lemma MapSeenIsMapOf(y: System, cf: Config)
    requires SystemOk(y, cf)
    ensures MapSeen(y, cf) == MapOf(y.w)
  {
    ViewStands(y.w, cf.max, cf.rule, Seen(y, cf));
  }

  /** Whatever the interleaving, and wherever a rotation or a merge has got to, readers see the updates
      that have changed the index, in their order, and nothing else. */
  lemma MapSeenIs(t: Trace, cf: Config, n: nat, y: System)
    requires t.Valid(cf) && n < |t.states| && y == t.states[n]
    ensures MapSeen(y, cf) == MapAfter(t, n)
  {
    AlwaysOk(t, cf, n, y);
    MapAfterStands(t, cf, n, y);
    MapSeenIsMapOf(y, cf);
  }

  // ---------- one get ----------

  /** In all states from `from` to `to` the client is in the same get. */
  ghost predicate SameGet(t: Trace, c: ClientId, from: nat, to: nat)
    requires from <= to < |t.states|
  {
    forall k :: from <= k <= to ==>
      && c in t.states[k].clients && c in t.states[to].clients
      && t.states[k].clients[c].key == t.states[to].clients[c].key
      && t.states[k].clients[c].reader == t.states[to].clients[c].reader
  }

  /** The step at `j` is the lookup of the get that the client is in at `n`. */
  ghost predicate LookedUpAt(t: Trace, c: ClientId, j: nat, n: nat)
    requires j < n < |t.states| == |t.steps| + 1
  {
    t.steps[j] == Lookup(c) && SameGet(t, c, j, n)
  }

  /** What the client knows after its lookup is what the map and the index held then. */
  ghost predicate KnowsFrom(t: Trace, cf: Config, c: ClientId, j: nat, n: nat)
    requires j < n < |t.states| == |t.steps| + 1 && LookedUpAt(t, c, j, n)
  {
    var client := t.states[n].clients[c];
    var v := Seen(t.states[j], cf);
    && !client.Asking? && client.seen == Look(MapSeen(t.states[j], cf), client.key)
    && (client.Located? ==> client.key in v.index && client.entry == v.index[client.key])
    && (client.Answered? && client.answer.FileGone? ==>
        client.key in v.index && exists k :: j < k < n && WentAway(t, cf, c, v.index[client.key].fileid, k))
  }

  /** The step at `k` is the read of the client, and the file is not in the directory. */
  ghost predicate WentAway(t: Trace, cf: Config, c: ClientId, f: FileId, k: nat)
    requires k < |t.states| == |t.steps| + 1
  {
    k < |t.steps| && t.steps[k] == Read(c) && f !in Seen(t.states[k], cf).disk.data
  }

  /** Only its own lookup and its own read change what a client knows. */
  lemma SameClient(y: System, y': System, cf: Config, l: Label, c: ClientId)
    requires Steps(y, y', cf, l) && c in y'.clients && !y'.clients[c].Asking? && l != Lookup(c)
    ensures c in y.clients && !y.clients[c].Asking?
    ensures var (a, b) := (y.clients[c], y'.clients[c]);
            && a.key == b.key && a.reader == b.reader && a.seen == b.seen
            && (b.Located? ==> a == b)
            && (b.Answered? && b.answer.FileGone? ==>
                a == b || (l == Read(c) && a.Located? && a.entry.fileid !in Seen(y, cf).disk.data))
  {
  }

  lemma LookupKnows(y: System, y': System, cf: Config, c: ClientId)
    requires LooksUp(y, y', cf, c)
    ensures c in y'.clients && !y'.clients[c].Asking?
    ensures var (a, b) := (y.clients[c], y'.clients[c]);
            && a.key == b.key && a.reader == b.reader && b.seen == Look(MapSeen(y, cf), b.key)
            && (b.Located? ==> b.key in Seen(y, cf).index && b.entry == Seen(y, cf).index[b.key])
            && !(b.Answered? && b.answer.FileGone?)
  {
  }

  lemma {:induction false} LookupOf(t: Trace, cf: Config, c: ClientId, n: nat) returns (j: nat)
    requires t.Valid(cf) && n < |t.states| && c in t.states[n].clients && !t.states[n].clients[c].Asking?
    ensures j < n && LookedUpAt(t, c, j, n) && KnowsFrom(t, cf, c, j, n)
  {
    assert n > 0;
    var m := n - 1;
    var before, after, l := StepOf(t, cf, m);
    if l == Lookup(c) {
      j := m;
      LookupKnows(before, after, cf, c);
    } else {
      SameClient(before, after, cf, l, c);
      j := LookupOf(t, cf, c, m);
      var v := Seen(t.states[j], cf);
      if after.clients[c].Answered? && after.clients[c].answer.FileGone? && after.clients[c] != before.clients[c] {
        assert WentAway(t, cf, c, v.index[after.clients[c].key].fileid, m);
      }
    }
  }

  /** The get that has its answer at `n` took it from the map at `j`, where the client was in this same
      get; or else the file that the index named at `j` was removed before the client read it. */
  ghost predicate TookFrom(t: Trace, cf: Config, c: ClientId, j: nat, n: nat)
    requires n < |t.states| == |t.steps| + 1 && c in t.states[n].clients && t.states[n].clients[c].Answered?
  {
    var Answered(key, _, answer, _) := t.states[n].clients[c];
    && j < n && SameGet(t, c, j, n)
    && var v := Seen(t.states[j], cf);
       || answer == Value(Look(MapAfter(t, j), key))
       || (&& answer == FileGone && key in MapAfter(t, j)
           && key in v.index && v.index[key].fileid in v.disk.data
           && exists k :: j < k < n && WentAway(t, cf, c, v.index[key].fileid, k))
  }

  lemma IndexedIsThere(y: System, cf: Config, key: Bytes)
    requires SystemOk(y, cf)
    ensures var v := Seen(y, cf);
            && (key in v.index <==> key in MapSeen(y, cf))
            && (key in v.index ==> v.index[key].fileid in v.disk.data)
  {
    var v := Seen(y, cf);
    ViewStands(y.w, cf.max, cf.rule, v);
    if key in v.index {
      assert Points(v.disk, key, v.index[key]);
    }
  }

  /** Every get is linearizable: whatever puts, deletes, rotations, merge steps, other gets and evictions
      come in between, its answer is what the map held at one moment of the get, or it reports a file
      that a merge removed after that moment. It never reads outside of a mapping and never meets bytes
      that are no record. */
  lemma GetIsLinearizable(t: Trace, cf: Config, c: ClientId, n: nat)
    requires t.Valid(cf) && n < |t.states| && c in t.states[n].clients && t.states[n].clients[c].Answered?
    ensures exists j :: TookFrom(t, cf, c, j, n)
  {
    var j := LookupOf(t, cf, c, n);
    MapSeenIs(t, cf, j, t.states[j]);
    AnswerIsSeen(t, cf, n, t.states[n], c);
    AlwaysOk(t, cf, j, t.states[j]);
    IndexedIsThere(t.states[j], cf, t.states[n].clients[c].key);
    assert TookFrom(t, cf, c, j, n);
  }

  lemma AnswerIsSeen(t: Trace, cf: Config, n: nat, y: System, c: ClientId)
    requires t.Valid(cf) && n < |t.states| && y == t.states[n] && c in y.clients && y.clients[c].Answered?
    ensures y.clients[c].answer == Value(y.clients[c].seen) || y.clients[c].answer == FileGone
  {
    AlwaysOk(t, cf, n, y);
    assert ClientOk(y.files, y.clients[c]);
  }

  /** Readers in the pool and readers in use are always as many as the pool can hold, so putting a reader
      back never fails. */
  lemma PoolNeverOverflows(t: Trace, cf: Config, n: nat, y: System)
    requires t.Valid(cf) && n < |t.states| && y == t.states[n]
    ensures |y.pool| + |y.clients| == cf.capacity
    ensures y.clients != map[] ==> |y.pool| < cf.capacity
  {
    AlwaysOk(t, cf, n, y);
  }
}
