/**
 The in-memory index and the per-file statistics, and how one log entry changes both. The same
 step is taken when an entry is written and when it is replayed from disk.
 */
module KeyDir {
  import opened Types
  import opened LogCodec

  type FileId = nat

  /** Where the value of a key lies on disk. */
  datatype Entry = Entry(fileid: FileId, len: nat, pos: nat, tstamp: i64)

  type Index = map<Bytes, Entry>

  /** The counters of one data file. They are kept as integers, so that a decrement below zero
      would show as a negative number. */
  datatype Stat = Stat(live: int, dead: int, deadBytes: int) {
    function AddLive(): Stat { Stat(live + 1, dead, deadBytes) }
    function AddDead(nbytes: nat): Stat { Stat(live, dead + 1, deadBytes + nbytes) }
    function Overwrite(nbytes: nat): Stat { Stat(live - 1, dead + 1, deadBytes + nbytes) }
  }

  type Stats = map<FileId, Stat>

  /** The counters of a file, all zero when it has none yet. */
  function StatOf(stats: Stats, f: FileId): Stat {
    if f in stats then stats[f] else Stat(0, 0, 0)
  }

  /** A log entry as the index sees it: a value (`live`) or a tombstone, and where it lies. */
  datatype Event = Event(key: Bytes, entry: Entry, live: bool)

  function EventOf(f: FileId, pos: nat, r: Record): Event {
    Event(r.key, Entry(f, Size(r), pos, r.tstamp), r.value.Some?)
  }

  /** The index together with the statistics. */
  datatype Catalog = Catalog(index: Index, stats: Stats)

  /** Count a new log entry in the statistics of its file. */
  function CountEntry(stats: Stats, ev: Event): Stats {
    var f := ev.entry.fileid;
    stats[f := if ev.live then StatOf(stats, f).AddLive() else StatOf(stats, f).AddDead(ev.entry.len)]
  }

  /** Count the entry that `key` pointed to as dead. */
  function Retire(index: Index, stats: Stats, key: Bytes): Stats {
    if key in index then
      var prev := index[key];
      stats[prev.fileid := StatOf(stats, prev.fileid).Overwrite(prev.len)]
    else stats
  }

  function Point(index: Index, ev: Event): Index {
    if ev.live then index[ev.key := ev.entry] else index - {ev.key}
  }

  /** The effect of one log entry on index and statistics. */
  function Apply(c: Catalog, ev: Event): Catalog {
    Catalog(Point(c.index, ev), Retire(c.index, CountEntry(c.stats, ev), ev.key))
  }

  /** The catalog built from nothing by a sequence of log entries. */
  function Replay(evs: seq<Event>): Catalog {
    if |evs| == 0 then Catalog(map[], map[]) else Apply(Replay(evs[..|evs| - 1]), evs[|evs| - 1])
  }

  /** Replaying from a catalog that other entries have built. */
  function ReplayFrom(c: Catalog, evs: seq<Event>): Catalog {
    if |evs| == 0 then c else Apply(ReplayFrom(c, evs[..|evs| - 1]), evs[|evs| - 1])
  }

  lemma {:induction false} ReplayConcat(a: seq<Event>, b: seq<Event>)
    ensures Replay(a + b) == ReplayFrom(Replay(a), b)
  {
    if b == [] {
      assert a + b == a;
    } else {
      var n := |b| - 1;
      ReplayConcat(a, b[..n]);
      assert (a + b)[..|a + b| - 1] == a + b[..n];
    }
  }

  lemma {:induction false} ReplayFromConcat(c: Catalog, a: seq<Event>, b: seq<Event>)
    ensures ReplayFrom(c, a + b) == ReplayFrom(ReplayFrom(c, a), b)
  {
    if b == [] {
      assert a + b == a;
    } else {
      var n := |b| - 1;
      ReplayFromConcat(c, a, b[..n]);
      assert (a + b)[..|a + b| - 1] == a + b[..n];
    }
  }

  // ---------- the index holds the newest entry of each key ----------

  /** The last log entry for a key. */
  function Last(evs: seq<Event>, key: Bytes): Option<Event> {
    if |evs| == 0 then None
    else if evs[|evs| - 1].key == key then Some(evs[|evs| - 1])
    else Last(evs[..|evs| - 1], key)
  }

  lemma {:induction false} LastIsThere(evs: seq<Event>, key: Bytes)
    requires Last(evs, key).Some?
    ensures Last(evs, key).value in evs && Last(evs, key).value.key == key
  {
    if evs[|evs| - 1].key != key {
      LastIsThere(evs[..|evs| - 1], key);
    }
  }

  lemma {:induction false} LastMissesNone(evs: seq<Event>, ev: Event)
    requires ev in evs
    ensures Last(evs, ev.key).Some?
  {
    var n := |evs| - 1;
    if evs[n].key != ev.key {
      assert evs == evs[..n] + [evs[n]];
      LastMissesNone(evs[..n], ev);
    }
  }

  lemma {:induction false} LastConcat(a: seq<Event>, b: seq<Event>, key: Bytes)
    ensures Last(a + b, key) == if Last(b, key).Some? then Last(b, key) else Last(a, key)
  {
    if b == [] {
      assert a + b == a;
    } else {
      var n := |b| - 1;
      LastConcat(a, b[..n], key);
      assert (a + b)[..|a + b| - 1] == a + b[..n];
    }
  }

  /** Replay leaves in the index, for every key, exactly its last entry. */
  lemma {:induction false} ReplayIsLast(evs: seq<Event>, key: Bytes)
    ensures var index := Replay(evs).index;
            && (key in index <==> Last(evs, key).Some? && Last(evs, key).value.live)
            && (key in index ==> index[key] == Last(evs, key).value.entry)
  {
    if evs != [] {
      ReplayIsLast(evs[..|evs| - 1], key);
    }
  }

  lemma {:induction false} LastAt(evs: seq<Event>, key: Bytes, i: nat)
    requires i < |evs| && evs[i].key == key && forall j :: i < j < |evs| ==> evs[j].key != key
    ensures Last(evs, key) == Some(evs[i])
  {
    if i + 1 < |evs| {
      LastAt(evs[..|evs| - 1], key, i);
    }
  }

  lemma {:induction false} LastOfNone(evs: seq<Event>, key: Bytes)
    requires forall j :: 0 <= j < |evs| ==> evs[j].key != key
    ensures Last(evs, key) == None
  {
    if |evs| > 0 {
      LastOfNone(evs[..|evs| - 1], key);
    }
  }

  /** The same, by place: a key that no entry has is not in the index, and one whose latest entry is the
      `i`-th is there exactly if that is a value, and then points to it. */
  lemma ReplayIsLatest(evs: seq<Event>, key: Bytes, i: nat)
    ensures (forall j :: 0 <= j < |evs| ==> evs[j].key != key) ==> key !in Replay(evs).index
    ensures i < |evs| && evs[i].key == key && (forall j :: i < j < |evs| ==> evs[j].key != key) ==>
              && (key in Replay(evs).index <==> evs[i].live)
              && (evs[i].live ==> Replay(evs).index[key] == evs[i].entry)
  {
    ReplayIsLast(evs, key);
    if forall j :: 0 <= j < |evs| ==> evs[j].key != key {
      LastOfNone(evs, key);
    }
    if i < |evs| && evs[i].key == key && forall j :: i < j < |evs| ==> evs[j].key != key {
      LastAt(evs, key, i);
    }
  }

  // ---------- sums over the index ----------

  datatype Measure = Count | Length

  /** What an index entry contributes to a file: one entry, or its bytes. */
  function Weight(e: Entry, f: FileId, m: Measure): nat {
    if e.fileid != f then 0 else if m.Count? then 1 else e.len
  }

  /** The number of index entries that point into a file, or the bytes they cover. */
  ghost function Sum(index: Index, f: FileId, m: Measure): nat
    decreases |index|
  {
    if index == map[] then 0
    else
      var k :| k in index;
      Weight(index[k], f, m) + Sum(index - {k}, f, m)
  }

  lemma {:induction false} SumRemove(index: Index, k: Bytes, f: FileId, m: Measure)
    requires k in index
    ensures Sum(index, f, m) == Weight(index[k], f, m) + Sum(index - {k}, f, m)
    decreases |index|
  {
    var j :| j in index && Sum(index, f, m) == Weight(index[j], f, m) + Sum(index - {j}, f, m);
    if j != k {
      SumRemove(index - {j}, k, f, m);
      SumRemove(index - {k}, j, f, m);
      assert index - {j} - {k} == index - {k} - {j};
    }
  }

  lemma SumSet(index: Index, k: Bytes, e: Entry, f: FileId, m: Measure)
    ensures Sum(index[k := e], f, m)
         == Weight(e, f, m) + Sum(index - {k}, f, m)
  {
    SumRemove(index[k := e], k, f, m);
    assert index[k := e] - {k} == index - {k};
  }

  lemma SumWithout(index: Index, k: Bytes, f: FileId, m: Measure)
    ensures Sum(index - {k}, f, m)
         == Sum(index, f, m) - (if k in index then Weight(index[k], f, m) else 0)
  {
    if k in index {
      SumRemove(index, k, f, m);
    } else {
      assert index - {k} == index;
    }
  }

  /** The part of the index that points into one file. */
  ghost function AtFile(index: Index, f: FileId): Index {
    map k | k in index && index[k].fileid == f :: index[k]
  }

  lemma WithoutIsSmaller(index: Index, k: Bytes)
    requires k in index
    ensures |index - {k}| == |index| - 1
  {
    assert (index - {k}).Keys == index.Keys - {k};
  }

  lemma {:induction false} SumOnlyAtFile(index: Index, f: FileId, m: Measure)
    ensures Sum(index, f, m) == Sum(AtFile(index, f), f, m)
    decreases |index|
  {
    if index == map[] {
      assert AtFile(index, f) == index;
    } else {
      var k :| k in index;
      WithoutIsSmaller(index, k);
      SumOnlyAtFile(index - {k}, f, m);
      SumRemove(index, k, f, m);
      SumWithout(AtFile(index, f), k, f, m);
      assert AtFile(index - {k}, f) == AtFile(index, f) - {k};
    }
  }

  /** Two indexes that point into a file alike have the same sums there. */
  lemma SumAgrees(a: Index, b: Index, f: FileId, m: Measure)
    requires AtFile(a, f) == AtFile(b, f)
    ensures Sum(a, f, m) == Sum(b, f, m)
  {
    SumOnlyAtFile(a, f, m);
    SumOnlyAtFile(b, f, m);
  }

  /** The live counter of exact statistics is a number of keys. */
  lemma {:induction false} SumIsCardinality(index: Index, f: FileId)
    ensures Sum(index, f, Count) == |AtFile(index, f)|
    decreases |index|
  {
    if index == map[] {
      assert AtFile(index, f) == map[];
    } else {
      var k :| k in index;
      WithoutIsSmaller(index, k);
      SumRemove(index, k, f, Count);
      SumIsCardinality(index - {k}, f);
      var here := AtFile(index, f);
      assert AtFile(index - {k}, f) == here - {k};
      if k in here {
        WithoutIsSmaller(here, k);
      } else {
        assert here - {k} == here;
      }
    }
  }

  // ---------- exact statistics ----------

  /** The statistics of file `f` say exactly what is there: the live counter is the number of keys
      that point into the file, live and dead together are its entries, and the dead bytes are those
      that no key points to. A file without entries has no counters. */
  ghost predicate ExactAt(c: Catalog, f: FileId, entries: nat, bytes: nat) {
    && (f in c.stats <==> entries > 0)
    && StatOf(c.stats, f).live == Sum(c.index, f, Count)
    && StatOf(c.stats, f).live + StatOf(c.stats, f).dead == entries
    && StatOf(c.stats, f).deadBytes + Sum(c.index, f, Length) == bytes
  }

  lemma EmptyIsExact(f: FileId)
    ensures ExactAt(Catalog(map[], map[]), f, 0, 0)
  {
  }

  /** One more log entry keeps the statistics of every file exact. */
  lemma ApplyKeepsExact(c: Catalog, ev: Event, f: FileId, entries: nat, bytes: nat)
    requires ExactAt(c, f, entries, bytes)
    ensures var here := ev.entry.fileid == f;
            ExactAt(Apply(c, ev), f, if here then entries + 1 else entries,
                    if here then bytes + ev.entry.len else bytes)
  {
    forall m: Measure
      ensures Sum(Point(c.index, ev), f, m)
           == Sum(c.index, f, m) + (if ev.live then Weight(ev.entry, f, m) else 0)
              - (if ev.key in c.index then Weight(c.index[ev.key], f, m) else 0)
    {
      SumWithout(c.index, ev.key, f, m);
      if ev.live {
        SumSet(c.index, ev.key, ev.entry, f, m);
      }
    }
    RetireFindsFile(c, ev, f, entries, bytes);
  }

  /** The entry that is retired lies in a file that has counters, and is counted live there. */
  lemma RetireFindsFile(c: Catalog, ev: Event, f: FileId, entries: nat, bytes: nat)
    requires ExactAt(c, f, entries, bytes)
    ensures ev.key in c.index && c.index[ev.key].fileid == f ==> f in c.stats && c.stats[f].live >= 1
  {
    if ev.key in c.index && c.index[ev.key].fileid == f {
      SumRemove(c.index, ev.key, f, Count);
    }
  }
}
