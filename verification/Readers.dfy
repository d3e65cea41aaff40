/**
 Any number of clients read while the writer works. A client takes a reader out of the pool, looks its
 key up in the index, reads the record through the cached mapping of its reader, and puts the reader
 back; all of these interleave freely with each other and with the steps of the writer.
 */
module Readers {
  import opened Types
  import opened LogCodec
  import opened LogFile
  import opened KeyDir
  import opened Store
  import opened Compaction
  import opened Log
  import opened Concurrency

  datatype Config = Config(capacity: nat, max: nat, rule: HintRule)

  type ReaderId = nat
  type ClientId = nat

  /** What a read can come to: the value of a record or none, a file that is not there any more, a place
      outside of the mapping, or bytes that are no record. */
  datatype Answer = Value(value: Option<Bytes>) | FileGone | OutOfRange | Garbage

  /** Where a client is in its get. What it saw for the key at its lookup is kept for the proofs. */
  datatype Client =
    | Asking(key: Bytes, reader: ReaderId)
    | Located(key: Bytes, reader: ReaderId, entry: Entry, seen: Option<Bytes>)
    | Answered(key: Bytes, reader: ReaderId, answer: Answer, seen: Option<Bytes>)

  /** The files are kept after they are unlinked, for the readers that have them mapped. A cache maps a
      file to the number of bytes that its mapping covers. */
  datatype System = System(
    w: Writing, files: map<FileId, seq<Record>>,
    pool: seq<ReaderId>, clients: map<ClientId, Client>, caches: map<ReaderId, map<FileId, nat>>)

  ghost function Seen(y: System, cf: Config): View {
    ViewOf(y.w, cf.max, cf.rule)
  }

  function CacheOf(y: System, reader: ReaderId): map<FileId, nat> {
    if reader in y.caches then y.caches[reader] else map[]
  }

  // ---------- the steps ----------

  ghost predicate WriterMoves(y: System, y': System, cf: Config) {
    && WriterStep(y.w, y'.w, cf.max, cf.rule)
    && y' == y.(w := y'.w, files := y.files + Seen(y', cf).disk.data)
  }

  /** Take a reader out of the pool. */
  ghost predicate Pops(y: System, y': System, c: ClientId, key: Bytes) {
    && c !in y.clients && |y.pool| > 0
    && y' == y.(pool := y.pool[1..], clients := y.clients[c := Asking(key, y.pool[0])])
  }

  /** Look the key up in the index. */
  ghost predicate LooksUp(y: System, y': System, cf: Config, c: ClientId) {
    && c in y.clients && y.clients[c].Asking?
    && var Asking(key, reader) := y.clients[c];
       var v := Seen(y, cf);
       var seen := Look(Contents(v.disk, v.index), key);
       y' == y.(clients := y.clients[c :=
         if key in v.index then Located(key, reader, v.index[key], seen)
         else Answered(key, reader, Value(None), seen)])
  }

  /** What reading a place of a file gives when the mapping covers `mapped` bytes of it. */
  function ReadAt(file: seq<byte>, mapped: nat, pos: nat, len: nat): (nat, Answer) {
    var m := Remap(mapped, pos, |file|);
    if pos + len > m || m > |file| then (m, OutOfRange) else (m, Interpret(file[..m][pos..pos + len]))
  }

  function Interpret(slice: seq<byte>): Answer {
    match DecodeRecord(slice)
    case Got(r, _) => Value(r.value)
    case _ => Garbage
  }

  /** Read the record through the mapping of the reader, made or extended as needed. A file that is not
      mapped yet has to be in the directory. */
  ghost predicate Reads(y: System, y': System, cf: Config, c: ClientId) {
    && c in y.clients && y.clients[c].Located?
    && var Located(key, reader, e, seen) := y.clients[c];
       var cache := CacheOf(y, reader);
       if e.fileid in cache || e.fileid in Seen(y, cf).disk.data then
         var file := if e.fileid in y.files then FileBytes(y.files[e.fileid]) else [];
         var mapped := if e.fileid in cache then cache[e.fileid] else |file|;
         var (m, answer) := ReadAt(file, mapped, e.pos, e.len);
         y' == y.(clients := y.clients[c := Answered(key, reader, answer, seen)],
                  caches := y.caches[reader := cache[e.fileid := m]])
       else
         y' == y.(clients := y.clients[c := Answered(key, reader, FileGone, seen)])
  }

  /** Put the reader back into the pool and return the answer. */
  ghost predicate Pushes(y: System, y': System, c: ClientId) {
    && c in y.clients && y.clients[c].Answered?
    && y' == y.(pool := y.pool + [y.clients[c].reader], clients := y.clients - {c})
  }

  /** A cache forgets a mapping. */
  ghost predicate Evicts(y: System, y': System, reader: ReaderId, f: FileId) {
    y' == y.(caches := y.caches[reader := CacheOf(y, reader) - {f}])
  }

  datatype Label =
    | WriterMove
    | Pop(c: ClientId, key: Bytes)
    | Lookup(c: ClientId)
    | Read(c: ClientId)
    | Push(c: ClientId)
    | Evict(reader: ReaderId, f: FileId)

  ghost predicate Steps(y: System, y': System, cf: Config, l: Label) {
    match l
    case WriterMove => WriterMoves(y, y', cf)
    case Pop(c, key) => Pops(y, y', c, key)
    case Lookup(c) => LooksUp(y, y', cf, c)
    case Read(c) => Reads(y, y', cf, c)
    case Push(c) => Pushes(y, y', c)
    case Evict(reader, f) => Evicts(y, y', reader, f)
  }

  /** A running engine, all readers in the pool, nothing cached. */
  ghost predicate Starts(y: System, cf: Config) {
    && y.w.phase.Idle? && Running(y.w.s, cf.max) && y.files == y.w.s.disk.data
    && |y.pool| == cf.capacity && (forall i, j :: 0 <= i < j < |y.pool| ==> y.pool[i] != y.pool[j])
    && y.clients == map[] && y.caches == map[]
  }

  // ---------- the invariant ----------

  /** The files in the directory are as the writer made them, and no id above the top was ever used. */
  ghost predicate FilesOk(files: map<FileId, seq<Record>>, v: View) {
    && (forall f :: f in v.disk.data ==> f in files && files[f] == v.disk.data[f])
    && (forall f :: f in files ==> f <= v.top)
  }

  /** Every mapping ends where a record of its file ends. */
  ghost predicate CachesOk(files: map<FileId, seq<Record>>, caches: map<ReaderId, map<FileId, nat>>) {
    forall reader, f :: reader in caches && f in caches[reader] ==>
      f in files && Boundary(files[f], caches[reader][f])
  }

  /** The place that was looked up still holds the record with the value that was seen. */
  ghost predicate PlaceHolds(files: map<FileId, seq<Record>>, key: Bytes, e: Entry, seen: Option<Bytes>) {
    && e.fileid in files
    && var r := Find(files[e.fileid], e.pos);
       r.Some? && EventOf(e.fileid, e.pos, r.value) == Event(key, e, true) && seen == r.value.value
  }

  ghost predicate ClientOk(files: map<FileId, seq<Record>>, client: Client) {
    match client
    case Asking(_, _) => true
    case Located(key, _, e, seen) => PlaceHolds(files, key, e, seen)
    case Answered(_, _, answer, seen) => answer == Value(seen) || (answer == FileGone && seen.Some?)
  }

  ghost predicate ClientsOk(files: map<FileId, seq<Record>>, clients: map<ClientId, Client>) {
    forall c :: c in clients ==> ClientOk(files, clients[c])
  }

  /** Every reader is in the pool or with one client. */
  ghost predicate PoolOk(y: System, cf: Config) {
    && |y.pool| + |y.clients| == cf.capacity
    && (forall i, j :: 0 <= i < j < |y.pool| ==> y.pool[i] != y.pool[j])
    && (forall c :: c in y.clients ==> y.clients[c].reader !in y.pool)
    && (forall c, d :: c in y.clients && d in y.clients && c != d ==> y.clients[c].reader != y.clients[d].reader)
  }

  ghost predicate SystemOk(y: System, cf: Config) {
    && WriterOk(y.w, cf.max)
    && FilesOk(y.files, Seen(y, cf)) && CachesOk(y.files, y.caches)
    && ClientsOk(y.files, y.clients) && PoolOk(y, cf)
  }

  lemma StartsOk(y: System, cf: Config)
    requires Starts(y, cf)
    ensures SystemOk(y, cf)
  {
  }

  // ---------- the writer moves ----------

  ghost predicate FilesGrow(files: map<FileId, seq<Record>>, files': map<FileId, seq<Record>>) {
    forall f :: f in files ==> f in files' && files[f] <= files'[f]
  }

  lemma MovesKeepFiles(files: map<FileId, seq<Record>>, v: View, v': View, files': map<FileId, seq<Record>>)
    requires FilesOk(files, v) && Grows(v, v') && files' == files + v'.disk.data
    ensures FilesOk(files', v') && FilesGrow(files, files')
  {
  }

  lemma GrowthKeepsPlace(files: map<FileId, seq<Record>>, files': map<FileId, seq<Record>>, key: Bytes, e: Entry,
                         seen: Option<Bytes>)
    requires FilesGrow(files, files') && PlaceHolds(files, key, e, seen)
    ensures PlaceHolds(files', key, e, seen)
  {
    var rs, rs' := files[e.fileid], files'[e.fileid];
    assert rs' == rs + rs'[|rs|..];
    FindPrefix(rs, rs'[|rs|..], e.pos);
  }

  lemma GrowthKeepsCaches(files: map<FileId, seq<Record>>, files': map<FileId, seq<Record>>,
                          caches: map<ReaderId, map<FileId, nat>>)
    requires FilesGrow(files, files') && CachesOk(files, caches)
    ensures CachesOk(files', caches)
  {
    forall reader, f | reader in caches && f in caches[reader]
      ensures f in files' && Boundary(files'[f], caches[reader][f])
    {
      var rs, rs' := files[f], files'[f];
      assert rs' == rs + rs'[|rs|..];
      BoundaryGrows(rs, rs'[|rs|..], caches[reader][f]);
    }
  }

  lemma WriterMovesOk(y: System, y': System, cf: Config)
    requires SystemOk(y, cf) && WriterMoves(y, y', cf)
    ensures SystemOk(y', cf)
  {
    WriterStepStands(y.w, y'.w, cf.max, cf.rule);
    WriterStepGrows(y.w, y'.w, cf.max, cf.rule, Seen(y, cf), Seen(y', cf));
    MovesKeepFiles(y.files, Seen(y, cf), Seen(y', cf), y'.files);
    GrowthKeepsCaches(y.files, y'.files, y.caches);
    forall c | c in y.clients
      ensures ClientOk(y'.files, y.clients[c])
    {
      if y.clients[c].Located? {
        var Located(key, _, e, seen) := y.clients[c];
        GrowthKeepsPlace(y.files, y'.files, key, e, seen);
      }
    }
  }

  // ---------- a client moves ----------

  lemma LookupOk(y: System, y': System, cf: Config, c: ClientId)
    requires SystemOk(y, cf) && LooksUp(y, y', cf, c)
    ensures SystemOk(y', cf)
  {
    var v := Seen(y, cf);
    var key := y.clients[c].key;
    ViewStands(y.w, cf.max, cf.rule, v);
    LookedUp(v, key, y.files);
    assert ClientOk(y'.files, y'.clients[c]);
    ClientStepKeepsPool(y, y', cf, c);
  }

  lemma LookedUp(v: View, key: Bytes, files: map<FileId, seq<Record>>)
    requires AllPoint(v.disk, v.index) && FilesOk(files, v)
    ensures var seen := Look(Contents(v.disk, v.index), key);
            if key in v.index then PlaceHolds(files, key, v.index[key], seen) else seen == None
  {
    if key in v.index {
      assert Points(v.disk, key, v.index[key]);
    }
  }

  lemma ReadsBack(slice: seq<byte>, r: Record)
    requires slice == EncodeRecord(r)
    ensures Interpret(slice) == Value(r.value)
  {
    RecordRoundTrip(r, []);
    assert EncodeRecord(r) + [] == EncodeRecord(r);
  }

  lemma SliceReads(file: seq<byte>, mapped: nat, pos: nat, len: nat, m: nat, r: Record)
    requires m == Remap(mapped, pos, |file|) && pos + len <= m <= |file|
    requires file[..m][pos..pos + len] == EncodeRecord(r)
    ensures ReadAt(file, mapped, pos, len) == (m, Value(r.value))
  {
    ReadsBack(file[..m][pos..pos + len], r);
  }

  /** Through a mapping that ends where a record ends, a place of a record reads as its value; the slice
      is within the mapping. */
  lemma RecordReads(rs: seq<Record>, mapped: nat, pos: nat, r: Record, m: nat)
    requires Boundary(rs, mapped) && Find(rs, pos) == Some(r) && m == Remap(mapped, pos, Total(rs))
    ensures Boundary(rs, m) && ReadAt(FileBytes(rs), mapped, pos, Size(r)) == (m, Value(r.value))
  {
    MappingSuffices(rs, mapped, pos, r);
    SliceReads(FileBytes(rs), mapped, pos, Size(r), m, r);
  }

  /** The place that was looked up reads as the value that was seen. */
  lemma PlaceReads(rs: seq<Record>, files: map<FileId, seq<Record>>, key: Bytes, e: Entry, seen: Option<Bytes>,
                   mapped: nat, m: nat)
    requires PlaceHolds(files, key, e, seen) && rs == files[e.fileid] && Boundary(rs, mapped)
    requires m == Remap(mapped, e.pos, Total(rs))
    ensures Boundary(rs, m) && ReadAt(FileBytes(rs), mapped, e.pos, e.len) == (m, Value(seen))
  {
    RecordReads(rs, mapped, e.pos, Find(rs, e.pos).value, m);
  }

  lemma ReadOk(y: System, y': System, cf: Config, c: ClientId)
    requires SystemOk(y, cf) && Reads(y, y', cf, c)
    ensures ClientOk(y'.files, y'.clients[c]) && CachesOk(y'.files, y'.caches) && PoolOk(y', cf)
  {
    ClientStepKeepsPool(y, y', cf, c);
    var Located(key, reader, e, seen) := y.clients[c];
    assert ClientOk(y.files, y.clients[c]);
    var cache := CacheOf(y, reader);
    if e.fileid in cache || e.fileid in Seen(y, cf).disk.data {
      var rs := y.files[e.fileid];
      var mapped := if e.fileid in cache then cache[e.fileid] else Total(rs);
      var m := Remap(mapped, e.pos, Total(rs));
      WholeIsBoundary(rs);
      PlaceReads(rs, y.files, key, e, seen, mapped, m);
      MappingKept(y.files, y.caches, reader, e.fileid, m, cache);
    }
  }

  lemma MappingKept(files: map<FileId, seq<Record>>, caches: map<ReaderId, map<FileId, nat>>, reader: ReaderId,
                    f: FileId, m: nat, cache: map<FileId, nat>)
    requires CachesOk(files, caches) && f in files && Boundary(files[f], m)
    requires cache == if reader in caches then caches[reader] else map[]
    ensures CachesOk(files, caches[reader := cache[f := m]])
  {
  }

  lemma ClientStepKeepsPool(y: System, y': System, cf: Config, c: ClientId)
    requires PoolOk(y, cf) && c in y.clients && y'.pool == y.pool && c in y'.clients
    requires y'.clients == y.clients[c := y'.clients[c]] && y'.clients[c].reader == y.clients[c].reader
    ensures PoolOk(y', cf)
  {
    assert y'.clients.Keys == y.clients.Keys;
  }

  lemma PopKeepsPool(y: System, y': System, cf: Config, c: ClientId, key: Bytes)
    requires PoolOk(y, cf) && Pops(y, y', c, key)
    ensures PoolOk(y', cf)
  {
    PopCounts(y, y', c, key);
    assert y.pool == [y.pool[0]] + y'.pool;
    assert forall d :: d in y.clients ==> y'.clients[d] == y.clients[d];
  }

  lemma PopCounts(y: System, y': System, c: ClientId, key: Bytes)
    requires Pops(y, y', c, key)
    ensures |y'.pool| + |y'.clients| == |y.pool| + |y.clients|
  {
    assert y'.clients.Keys == y.clients.Keys + {c};
  }

  /** The pool never overflows: there is room for a reader that is put back. */
  lemma PushFits(y: System, y': System, cf: Config, c: ClientId)
    requires PoolOk(y, cf) && Pushes(y, y', c)
    ensures |y.pool| < cf.capacity && PoolOk(y', cf)
  {
    assert y'.clients.Keys == y.clients.Keys - {c};
    assert |y.clients| > 0 by { assert c in y.clients.Keys; }
  }

  lemma ReadKeepsOk(y: System, y': System, cf: Config, c: ClientId)
    requires SystemOk(y, cf) && Reads(y, y', cf, c)
    ensures SystemOk(y', cf)
  {
    ReadOk(y, y', cf, c);
  }

  lemma EvictKeepsCaches(files: map<FileId, seq<Record>>, caches: map<ReaderId, map<FileId, nat>>, reader: ReaderId,
                         f: FileId, cache: map<FileId, nat>)
    requires CachesOk(files, caches) && cache == if reader in caches then caches[reader] else map[]
    ensures CachesOk(files, caches[reader := cache - {f}])
  {
    var left := caches[reader := cache - {f}];
    forall r, g | r in left && g in left[r]
      ensures g in files && Boundary(files[g], left[r][g])
    {
      assert r in caches && g in caches[r] && caches[r][g] == left[r][g];
    }
  }

  lemma EvictKeepsOk(y: System, y': System, cf: Config, reader: ReaderId, f: FileId)
    requires SystemOk(y, cf) && Evicts(y, y', reader, f)
    ensures SystemOk(y', cf)
  {
    EvictKeepsCaches(y.files, y.caches, reader, f, CacheOf(y, reader));
  }

  /** Every step of the system keeps its invariant. */
  lemma StepOk(y: System, y': System, cf: Config, l: Label)
    requires SystemOk(y, cf) && Steps(y, y', cf, l)
    ensures SystemOk(y', cf)
  {
    match l {
      case WriterMove => WriterMovesOk(y, y', cf);
      case Pop(c, key) => PopKeepsPool(y, y', cf, c, key);
      case Lookup(c) => LookupOk(y, y', cf, c);
      case Read(c) => ReadKeepsOk(y, y', cf, c);
      case Push(c) => PushFits(y, y', cf, c);
      case Evict(reader, f) => EvictKeepsOk(y, y', cf, reader, f);
    }
  }

  /** A get is never stuck: it can always take its next step, and after three steps of its own it is over. */
  lemma GetGoesOn(y: System, cf: Config, c: ClientId) returns (y': System)
    requires c in y.clients
    ensures match y.clients[c]
            case Asking(_, _) => Steps(y, y', cf, Lookup(c)) && c in y'.clients && !y'.clients[c].Asking?
            case Located(_, _, _, _) => Steps(y, y', cf, Read(c)) && c in y'.clients && y'.clients[c].Answered?
            case Answered(_, _, _, _) => Steps(y, y', cf, Push(c)) && c !in y'.clients
  {
    var v := Seen(y, cf);
    match y.clients[c] {
      case Asking(key, reader) =>
        var seen := Look(Contents(v.disk, v.index), key);
        y' := y.(clients := y.clients[c := if key in v.index then Located(key, reader, v.index[key], seen)
                                           else Answered(key, reader, Value(None), seen)]);
      case Located(key, reader, e, seen) =>
        var cache := CacheOf(y, reader);
        if e.fileid in cache || e.fileid in v.disk.data {
          var file := if e.fileid in y.files then FileBytes(y.files[e.fileid]) else [];
          var (m, answer) := ReadAt(file, if e.fileid in cache then cache[e.fileid] else |file|, e.pos, e.len);
          var mapped: map<FileId, nat> := cache[e.fileid := m];
          y' := y.(clients := y.clients[c := Answered(key, reader, answer, seen)],
                   caches := y.caches[reader := mapped]);
        } else {
          y' := y.(clients := y.clients[c := Answered(key, reader, FileGone, seen)]);
        }
      case Answered(key, reader, answer, seen) =>
        y' := y.(pool := y.pool + [reader], clients := y.clients - {c});
    }
  }
}
