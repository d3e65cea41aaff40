/**
 The storage engine as a state machine over its directory, its index and its statistics: writing
 an entry, rotating the active file, and rebuilding everything from the directory.
 */
module Store {
  import opened Types
  import opened LogCodec
  import opened LogFile
  import opened KeyDir

  /** The directory: data files and hint files by id. */
  datatype Disk = Disk(data: map<FileId, seq<Record>>, hint: map<FileId, seq<Hint>>)

  datatype Store = Store(disk: Disk, index: Index, stats: Stats, active: FileId, written: nat)

  function Content(d: Disk, f: FileId): seq<Record> {
    if f in d.data then d.data[f] else []
  }

  function Create(d: Disk, f: FileId): Disk {
    d.(data := d.data[f := []])
  }

  function AppendTo(d: Disk, f: FileId, r: Record): Disk {
    d.(data := d.data[f := Content(d, f) + [r]])
  }

  /** The directory with only the first `k` records of file `f`. */
  function Truncated(d: Disk, f: FileId, k: nat): Disk
    requires k <= |Content(d, f)|
  {
    d.(data := d.data[f := Content(d, f)[..k]])
  }

  // ---------- what a directory replays as ----------

  function DataEvents(f: FileId, rs: seq<Record>): seq<Event> {
    if |rs| == 0 then []
    else
      var init := rs[..|rs| - 1];
      DataEvents(f, init) + [EventOf(f, Total(init), rs[|rs| - 1])]
  }

  function HintEvent(f: FileId, h: Hint): Event {
    Event(h.key, Entry(f, h.len, h.pos, h.tstamp), true)
  }

  function HintEvents(f: FileId, hs: seq<Hint>): seq<Event> {
    if |hs| == 0 then [] else HintEvents(f, hs[..|hs| - 1]) + [HintEvent(f, hs[|hs| - 1])]
  }

  /** The hint file stands for the data file when there is one. */
  function FileEvents(d: Disk, f: FileId): seq<Event> {
    if f !in d.data then []
    else if f in d.hint then HintEvents(f, d.hint[f])
    else DataEvents(f, d.data[f])
  }

  /** The entries of all files with ids below `n`, in ascending order of file ids. */
  function EventsBelow(d: Disk, n: nat): seq<Event> {
    if n == 0 then [] else EventsBelow(d, n - 1) + FileEvents(d, n - 1)
  }

  /** No data file has id `n` or above. */
  ghost predicate Above(d: Disk, n: nat) {
    forall f :: f in d.data ==> f < n
  }

  lemma {:induction false} EventsAgree(a: Disk, b: Disk, n: nat)
    requires forall f :: 0 <= f < n ==> FileEvents(a, f) == FileEvents(b, f)
    ensures EventsBelow(a, n) == EventsBelow(b, n)
  {
    if n > 0 {
      EventsAgree(a, b, n - 1);
    }
  }

  /** Ids that no file has do not matter. */
  lemma {:induction false} EventsStop(d: Disk, m: nat, n: nat)
    requires m <= n && Above(d, m)
    ensures EventsBelow(d, n) == EventsBelow(d, m)
  {
    if m < n {
      EventsStop(d, m, n - 1);
      assert n - 1 !in d.data;
    }
  }

  /** Every hint file says what its data file says. */
  ghost predicate HintsExact(d: Disk) {
    forall f :: f in d.hint && f in d.data ==> HintEvents(f, d.hint[f]) == DataEvents(f, d.data[f])
  }

  // ---------- writing ----------

  /** Make `f` the active file. */
  function NewActive(s: Store, f: FileId): Store {
    s.(disk := Create(s.disk, f), active := f, written := 0)
  }

  /** The log entry that writing `r` now would make. */
  function NextEvent(s: Store, r: Record): Event {
    EventOf(s.active, Total(Content(s.disk, s.active)), r)
  }

  /** Append a record to the active file and count it. */
  function Append(s: Store, r: Record): Store {
    s.(disk := AppendTo(s.disk, s.active, r),
       stats := CountEntry(s.stats, NextEvent(s, r)),
       written := s.written + Size(r))
  }

  /** Go on to the next file when the active one has grown past the limit. */
  function Rotate(s: Store, max: nat): Store {
    if s.written > max then NewActive(s, s.active + 1) else s
  }

  /** Bring the index up to date with a log entry that has been written. */
  function Settle(s: Store, ev: Event): Store {
    s.(index := Point(s.index, ev), stats := Retire(s.index, s.stats, ev.key))
  }

  /** A put writes a record with a value, a delete one without. */
  function Update(s: Store, r: Record, max: nat): Store {
    Settle(Rotate(Append(s, r), max), NextEvent(s, r))
  }

  function Put(s: Store, tstamp: i64, key: Bytes, value: Bytes, max: nat): Store {
    Update(s, Record(tstamp, key, Some(value)), max)
  }

  /** The new state, and whether there was anything to delete. */
  function Delete(s: Store, tstamp: i64, key: Bytes, max: nat): (Store, bool) {
    (Update(s, Record(tstamp, key, None), max), key in s.index)
  }

  // ---------- reading ----------

  /** The value stored at an index entry. */
  function ValueAt(d: Disk, e: Entry): Option<Bytes> {
    match Find(Content(d, e.fileid), e.pos)
    case None => None
    case Some(r) => r.value
  }

  function Get(s: Store, key: Bytes): Option<Bytes> {
    if key in s.index then ValueAt(s.disk, s.index[key]) else None
  }

  /** The map that an index and a directory stand for. */
  function Contents(d: Disk, index: Index): map<Bytes, Bytes> {
    map k | k in index && ValueAt(d, index[k]).Some? :: ValueAt(d, index[k]).value
  }

  lemma UpdateIndexes(s: Store, r: Record, max: nat, t: Store)
    requires s.written == Total(Content(s.disk, s.active)) && t == Update(s, r, max)
    ensures t.index == if r.value.Some? then s.index[r.key := Entry(s.active, Size(r), s.written, r.tstamp)]
                       else s.index - {r.key}
    ensures t.active == if s.written + Size(r) > max then s.active + 1 else s.active
    ensures t.disk.hint == s.disk.hint
  {
    hide Content, Retire, Size, Total;
  }

  lemma UpdateAdds(s: Store, r: Record, max: nat, t: Store, f: FileId)
    requires s.active + 1 !in s.disk.data && t == Update(s, r, max)
    ensures Content(t.disk, f) == Content(s.disk, f) + (if f == s.active then [r] else [])
  {
    hide NextEvent, Point, Retire, Size, Total;
    assert Content(s.disk, f) + [] == Content(s.disk, f);
  }

  /** A put adds one record to the active file, points the key to it, and starts a new file if that one
      has grown past the limit; all other files and keys stay. */
  lemma PutLeaves(s: Store, tstamp: i64, key: Bytes, value: Bytes, max: nat, f: FileId)
    requires s.written == Total(Content(s.disk, s.active)) && s.active + 1 !in s.disk.data
    ensures var t, size := Put(s, tstamp, key, value, max), 25 + |key| + |value|;
            && t.index == s.index[key := Entry(s.active, size, s.written, tstamp)]
            && t.active == (if s.written + size > max then s.active + 1 else s.active)
            && Content(t.disk, f)
                 == Content(s.disk, f) + (if f == s.active then [Record(tstamp, key, Some(value))] else [])
            && t.disk.hint == s.disk.hint
  {
    hide Content, Total, Update;
    var r := Record(tstamp, key, Some(value));
    UpdateIndexes(s, r, max, Update(s, r, max));
    UpdateAdds(s, r, max, Update(s, r, max), f);
  }

  /** A delete adds a record without a value and takes the key out of the index. */
  lemma DeleteLeaves(s: Store, tstamp: i64, key: Bytes, max: nat, f: FileId)
    requires s.written == Total(Content(s.disk, s.active)) && s.active + 1 !in s.disk.data
    ensures var (t, existed) := Delete(s, tstamp, key, max);
            && existed == (key in s.index) && t.index == s.index - {key}
            && t.active == (if s.written + 17 + |key| > max then s.active + 1 else s.active)
            && Content(t.disk, f) == Content(s.disk, f) + (if f == s.active then [Record(tstamp, key, None)] else [])
            && t.disk.hint == s.disk.hint
  {
    hide Content, Total, Update;
    var r := Record(tstamp, key, None);
    UpdateIndexes(s, r, max, Update(s, r, max));
    UpdateAdds(s, r, max, Update(s, r, max), f);
  }

  // ---------- what always holds ----------

  /** The entry names one complete record with this key and a value. */
  ghost predicate Points(d: Disk, key: Bytes, e: Entry) {
    var r := Find(Content(d, e.fileid), e.pos);
    e.fileid in d.data && r.Some? && EventOf(e.fileid, e.pos, r.value) == Event(key, e, true)
  }

  ghost predicate AllPoint(d: Disk, index: Index) {
    forall k :: k in index ==> Points(d, k, index[k])
  }

  ghost predicate StatsExact(d: Disk, c: Catalog) {
    forall f :: ExactAt(c, f, |Content(d, f)|, Total(Content(d, f)))
  }

  /** A file is at most `max` bytes longer than its last record. */
  ghost predicate Bounded(rs: seq<Record>, max: nat) {
    |rs| > 0 ==> Total(rs[..|rs| - 1]) <= max
  }

  ghost predicate AllBounded(d: Disk, max: nat) {
    forall f :: f in d.data ==> Bounded(d.data[f], max)
  }

  /** The active file is the newest and has no hint file; a hint file has a data file. */
  ghost predicate IdsOk(d: Disk, active: FileId) {
    active in d.data && active !in d.hint && d.hint.Keys <= d.data.Keys && Above(d, active + 1)
  }

  /** The invariant of a running engine. */
  ghost predicate Running(s: Store, max: nat) {
    && IdsOk(s.disk, s.active)
    && s.written == Total(Content(s.disk, s.active)) <= max
    && AllPoint(s.disk, s.index)
    && StatsExact(s.disk, Catalog(s.index, s.stats))
    && AllBounded(s.disk, max)
  }

  // ---------- the invariant is kept ----------

  lemma RotateKeeps(s: Store, max: nat)
    requires IdsOk(s.disk, s.active) && s.written == Total(Content(s.disk, s.active))
    ensures var t := Rotate(s, max);
            && IdsOk(t.disk, t.active) && t.written == Total(Content(t.disk, t.active)) <= max
            && (forall f :: Content(t.disk, f) == Content(s.disk, f))
            && (forall f :: f in s.disk.data ==> f in t.disk.data)
            && (AllBounded(s.disk, max) ==> AllBounded(t.disk, max))
  {
  }

  lemma AppendKeepsPoints(d: Disk, f: FileId, r: Record, key: Bytes, e: Entry)
    requires Points(d, key, e)
    ensures Points(AppendTo(d, f, r), key, e)
    ensures ValueAt(AppendTo(d, f, r), e) == ValueAt(d, e)
  {
    FindPrefix(Content(d, e.fileid), if e.fileid == f then [r] else [], e.pos);
    assert Content(d, e.fileid) + [] == Content(d, e.fileid);
  }

  lemma AppendedPoints(d: Disk, f: FileId, r: Record)
    requires r.value.Some?
    ensures var ev := EventOf(f, Total(Content(d, f)), r);
            Points(AppendTo(d, f, r), r.key, ev.entry) && ValueAt(AppendTo(d, f, r), ev.entry) == r.value
  {
    FindSnoc(Content(d, f), r, Total(Content(d, f)));
  }

  lemma UpdateKeepsPoints(s: Store, r: Record, max: nat)
    requires Running(s, max)
    ensures var t := Update(s, r, max); AllPoint(t.disk, t.index)
  {
    var a := Append(s, r);
    var t := Update(s, r, max);
    TotalSnoc(Content(s.disk, s.active), r);
    RotateKeeps(a, max);
    forall k | k in t.index
      ensures Points(t.disk, k, t.index[k])
    {
      if k == r.key {
        AppendedPoints(s.disk, s.active, r);
      } else {
        AppendKeepsPoints(s.disk, s.active, r, k, s.index[k]);
      }
      assert Points(a.disk, k, t.index[k]);
    }
  }

  /** Writing changes index and statistics exactly as replaying the written entry does, and the
      content of the active file only. */
  lemma UpdateApplies(s: Store, r: Record, max: nat)
    requires IdsOk(s.disk, s.active) && s.written == Total(Content(s.disk, s.active))
    ensures var t := Update(s, r, max);
            && Catalog(t.index, t.stats) == Apply(Catalog(s.index, s.stats), NextEvent(s, r))
            && (forall f :: Content(t.disk, f)
                         == if f == s.active then Content(s.disk, f) + [r] else Content(s.disk, f))
  {
    TotalSnoc(Content(s.disk, s.active), r);
    RotateKeeps(Append(s, r), max);
  }

  lemma UpdateKeepsStats(s: Store, r: Record, max: nat)
    requires Running(s, max)
    ensures var t := Update(s, r, max); StatsExact(t.disk, Catalog(t.index, t.stats))
  {
    UpdateApplies(s, r, max);
    TotalSnoc(Content(s.disk, s.active), r);
    var t := Update(s, r, max);
    var c := Catalog(s.index, s.stats);
    forall f
      ensures ExactAt(Catalog(t.index, t.stats), f, |Content(t.disk, f)|, Total(Content(t.disk, f)))
    {
      ApplyKeepsExact(c, NextEvent(s, r), f, |Content(s.disk, f)|, Total(Content(s.disk, f)));
    }
  }

  /** A put or a delete keeps the invariant. */
  lemma UpdateKeepsRunning(s: Store, r: Record, max: nat)
    requires Running(s, max)
    ensures Running(Update(s, r, max), max)
  {
    var a := Append(s, r);
    var rs := Content(s.disk, s.active);
    TotalSnoc(rs, r);
    assert (rs + [r])[..|rs|] == rs;
    assert AllBounded(a.disk, max);
    RotateKeeps(a, max);
    UpdateKeepsPoints(s, r, max);
    UpdateKeepsStats(s, r, max);
  }

  /** After an update the updated key reads as what was written, and every other key as before. */
  lemma UpdateReads(s: Store, r: Record, max: nat, k: Bytes)
    requires Running(s, max)
    ensures var t := Update(s, r, max);
            Get(t, k) == (if k == r.key then r.value else Get(s, k))
  {
    UpdateApplies(s, r, max);
    var e := if k == r.key then NextEvent(s, r).entry
             else if k in s.index then s.index[k] else Entry(0, 0, 0, 0);
    if k == r.key {
      FindSnoc(Content(s.disk, s.active), r, e.pos);
    } else if k in s.index {
      AppendKeepsPoints(s.disk, s.active, r, k, e);
    }
  }

  function Look(m: map<Bytes, Bytes>, k: Bytes): Option<Bytes> {
    if k in m then Some(m[k]) else None
  }

  lemma SameMap(a: map<Bytes, Bytes>, b: map<Bytes, Bytes>)
    requires forall k :: Look(a, k) == Look(b, k)
    ensures a == b
  {
    forall k
      ensures (k in a <==> k in b) && (k in a ==> a[k] == b[k])
    {
      assert Look(a, k) == Look(b, k);
    }
  }

  /** Reading a key gives what the map that the engine stands for has there. */
  lemma GetReadsContents(s: Store, k: Bytes)
    requires AllPoint(s.disk, s.index)
    ensures Get(s, k) == Look(Contents(s.disk, s.index), k)
    ensures k in s.index <==> k in Contents(s.disk, s.index)
  {
  }

  /** The map after a record for one key: its value, or nothing after a tombstone. */
  function Written(m: map<Bytes, Bytes>, key: Bytes, value: Option<Bytes>): map<Bytes, Bytes> {
    if value.Some? then m[key := value.value] else m - {key}
  }

  /** A put or a delete changes the map that the engine stands for at its own key only, to the
      value that was written or to nothing. */
  lemma UpdateContents(s: Store, r: Record, max: nat)
    requires Running(s, max)
    ensures var t := Update(s, r, max);
            Contents(t.disk, t.index) == Written(Contents(s.disk, s.index), r.key, r.value)
  {
    var t := Update(s, r, max);
    var m := Contents(s.disk, s.index);
    UpdateKeepsPoints(s, r, max);
    forall k
      ensures Look(Contents(t.disk, t.index), k) == Look(Written(m, r.key, r.value), k)
    {
      UpdateReads(s, r, max, k);
      GetReadsContents(s, k);
      GetReadsContents(t, k);
      assert Look(Written(m, r.key, r.value), k) == if k == r.key then r.value else Look(m, k);
    }
    SameMap(Contents(t.disk, t.index), Written(m, r.key, r.value));
  }
}
