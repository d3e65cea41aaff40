/** Handles to the storage engine: the operations that its clients call. */
module Handles {
  import opened Types
  import opened KeyDir
  import opened Store
  import opened Compaction
  import opened CompactionEffects
  import opened Log
  import opened Writer
  import opened Opening

  /** A running engine, and a cache of mappings of its files. */
  ghost predicate Sound(readers: LogDir, s: Store, max: nat)
    reads readers
  {
    && Running(s, max) && readers.first <= s.active
    && readers.Fits(s.disk) && (forall f :: f in readers.cache ==> f <= s.active)
  }

  /** Where an operation may lead from a sound state: to one that stands for the map `m`. */
  ghost predicate Leads(readers: LogDir, s: Store, t: Store, m: map<Bytes, Bytes>, max: nat)
    reads readers
  {
    Sound(readers, s, max) ==> Sound(readers, t, max) && Contents(t.disk, t.index) == m
  }

  lemma UpdateKeepsSound(readers: LogDir, s: Store, r: LogCodec.Record, max: nat, t: Store)
    requires Sound(readers, s, max) && t == Update(s, r, max)
    ensures Sound(readers, t, max)
    ensures Contents(t.disk, t.index) == Written(Contents(s.disk, s.index), r.key, r.value)
  {
    UpdateKeepsRunning(s, r, max);
    UpdateContents(s, r, max);
    UpdateFits(readers, s, r, max, t);
  }

  lemma UpdateFits(readers: LogDir, s: Store, r: LogCodec.Record, max: nat, t: Store)
    requires readers.Fits(s.disk) && (forall f :: f in readers.cache ==> f <= s.active) && readers.first <= s.active
    requires IdsOk(s.disk, s.active) && t == Update(s, r, max)
    ensures readers.Fits(t.disk) && (forall f :: f in readers.cache ==> f <= t.active) && readers.first <= t.active
  {
    var a := Append(s, r);
    AppendFits(readers, s.disk, s.active, r);
    forall f
      ensures readers.FileFits(t.disk, f)
    {
      assert readers.FileFits(a.disk, f);
    }
  }

  lemma PutLeads(readers: LogDir, s: Store, tstamp: i64, key: Bytes, value: Bytes, max: nat, t: Store)
    requires t == Machine.Put(s, tstamp, key, value, max)
    ensures Leads(readers, s, t, Contents(s.disk, s.index)[key := value], max)
  {
    if Sound(readers, s, max) {
      UpdateKeepsSound(readers, s, LogCodec.Record(tstamp, key, Some(value)), max, t);
    }
  }

  lemma DeleteLeads(readers: LogDir, s: Store, tstamp: i64, key: Bytes, max: nat, t: Store)
    requires t == Machine.Delete(s, tstamp, key, max).0
    ensures Leads(readers, s, t, Contents(s.disk, s.index) - {key}, max)
  {
    if Sound(readers, s, max) {
      UpdateKeepsSound(readers, s, LogCodec.Record(tstamp, key, None), max, t);
    }
  }

  lemma MergeLeads(readers: LogDir, s: Store, selected: set<FileId>, order: seq<Bytes>, max: nat, t: Store)
    requires Selects(s, selected, order) && t == Compaction.Merge(s, selected, order, max, AsWritten)
    ensures Leads(readers, s, t, Contents(s.disk, s.index), max)
  {
    if Sound(readers, s, max) {
      MergeKeepsRunning(s, selected, order, max, AsWritten, t);
      MergeFits(readers, s, selected, order, max, t);
    }
  }

  lemma MergeFits(readers: LogDir, s: Store, selected: set<FileId>, order: seq<Bytes>, max: nat, t: Store)
    requires Sound(readers, s, max) && Selects(s, selected, order)
    requires t == Compaction.Merge(s, selected, order, max, AsWritten)
    ensures readers.Fits(t.disk)
  {
    var c, next := CopiesOf(s, selected, order, max, AsWritten, t);
    forall f
      ensures readers.FileFits(t.disk, f)
    {
      assert readers.FileFits(s.disk, f);
      FinishContent(s, selected, c, next, f);
    }
  }

  /** A handle shares the writer and a reader, and their context. */
  class Handle {
    const ctx: Context
    const writer: Writer
    const reader: Reader

    /** Writer, reader and handle share what they should. */
    ghost predicate Shared() {
      && writer.ctx == ctx && reader.ctx == ctx && reader.dir == writer.dir && reader.readers != writer.readers
      && reader.readers.first == writer.readers.first
    }

    ghost predicate Valid()
      reads this, ctx, writer, writer.dir, writer.log, writer.readers, reader, reader.readers
    {
      Shared() && writer.Valid() && Sound(reader.readers, writer.Model(), writer.max)
    }

    /** The map that the engine stands for. */
    ghost function Map(): map<Bytes, Bytes>
      reads ctx, writer
    {
      Contents(writer.disk, ctx.keydir)
    }

    constructor (ctx: Context, writer: Writer, reader: Reader)
      requires writer.ctx == ctx && reader.ctx == ctx && reader.dir == writer.dir && reader.readers != writer.readers
      requires reader.readers.first == writer.readers.first
      requires writer.Valid() && Running(writer.Model(), writer.max) && reader.readers.cache == map[]
      ensures Valid() && this.ctx == ctx && this.writer == writer && this.reader == reader
      ensures Map() == Contents(writer.disk, ctx.keydir)
    {
      this.ctx, this.writer, this.reader := ctx, writer, reader;
    }

    lemma StaysValid(t: Store)
      requires Shared() && writer.Valid() && writer.Model() == t && Sound(reader.readers, t, writer.max)
      ensures Valid() && Map() == Contents(t.disk, t.index)
    {
    }

    /** Set a key, unless the engine is closed. The time stamp is whatever the clock says. */
    method Put(key: Bytes, value: Bytes) returns (ok: bool)
      requires Valid()
      modifies writer, writer.dir, writer.log, ctx`keydir
      ensures Valid() && (writer.log == old(writer.log) || fresh(writer.log))
      ensures ok == !ctx.closed
      ensures Map() == if ok then old(Map())[key := value] else old(Map())
    {
      if ctx.closed {
        return false;
      }
      WriteValue(key, value);
      ok := true;
    }

    method WriteValue(key: Bytes, value: Bytes)
      requires Valid()
      modifies writer, writer.dir, writer.log, ctx`keydir
      ensures Valid() && (writer.log == old(writer.log) || fresh(writer.log))
      ensures Map() == old(Map())[key := value]
    {
      ghost var t := PutThrough(key, value);
      StaysValid(t);
    }

    method PutThrough(key: Bytes, value: Bytes) returns (ghost t: Store)
      requires writer.Valid() && writer.ctx == ctx
      modifies writer, writer.dir, writer.log, ctx`keydir
      ensures writer.log == old(writer.log) || fresh(writer.log)
      ensures writer.Valid() && writer.Model() == t
      ensures Leads(reader.readers, old(writer.Model()), t, old(Map())[key := value], writer.max)
    {
      ghost var s := writer.Model();
      var tstamp: i64 := *;
      writer.Put(tstamp, key, value);
      t := writer.Model();
      PutLeads(reader.readers, s, tstamp, key, value, writer.max, t);
    }

    /** Delete a key and say whether there was one; none when the engine is closed. */
    method Delete(key: Bytes) returns (existed: Option<bool>)
      requires Valid()
      modifies writer, writer.dir, writer.log, ctx`keydir
      ensures Valid() && (writer.log == old(writer.log) || fresh(writer.log))
      ensures existed == if ctx.closed then None else Some(key in old(Map()))
      ensures Map() == if ctx.closed then old(Map()) else old(Map()) - {key}
    {
      if ctx.closed {
        return None;
      }
      var was := RemoveKey(key);
      existed := Some(was);
    }

    method RemoveKey(key: Bytes) returns (existed: bool)
      requires Valid()
      modifies writer, writer.dir, writer.log, ctx`keydir
      ensures Valid() && (writer.log == old(writer.log) || fresh(writer.log))
      ensures existed == (key in old(Map())) && Map() == old(Map()) - {key}
    {
      GetReadsContents(writer.Model(), key);
      ghost var t;
      existed, t := DeleteThrough(key);
      StaysValid(t);
    }

    method DeleteThrough(key: Bytes) returns (existed: bool, ghost t: Store)
      requires writer.Valid() && writer.ctx == ctx
      modifies writer, writer.dir, writer.log, ctx`keydir
      ensures writer.log == old(writer.log) || fresh(writer.log)
      ensures writer.Valid() && writer.Model() == t && existed == (key in old(ctx.keydir))
      ensures Leads(reader.readers, old(writer.Model()), t, old(Map()) - {key}, writer.max)
    {
      ghost var s := writer.Model();
      var tstamp: i64 := *;
      existed := writer.Delete(tstamp, key);
      t := writer.Model();
      DeleteLeads(reader.readers, s, tstamp, key, writer.max, t);
    }

    /** The value of a key, if it has one; none of both when the engine is closed. */
    method Get(key: Bytes) returns (value: Option<Option<Bytes>>)
      requires Valid()
      modifies reader.readers
      ensures Valid() && Map() == old(Map())
      ensures value == if ctx.closed then None else Some(Look(Map(), key))
    {
      if ctx.closed {
        return None;
      }
      ghost var s := writer.Model();
      GetReadsContents(s, key);
      var found := reader.Get(key, s);
      value := Some(found);
    }

    /** Merge if that is triggered, unless the engine is closed. Clients cannot see it. */
    method Merge() returns (ok: bool)
      requires Valid()
      modifies writer, writer.dir, writer.readers, ctx`keydir
      ensures Valid() && (writer.log == old(writer.log) || fresh(writer.log))
      ensures ok == !ctx.closed && Map() == old(Map())
    {
      if ctx.closed {
        return false;
      }
      var triggered := writer.CanMerge();
      if triggered {
        ghost var t := MergeThrough();
        StaysValid(t);
      }
      ok := true;
    }

    method MergeThrough() returns (ghost t: Store)
      requires Valid() && PositionsFit(ctx.keydir)
      modifies writer, writer.dir, writer.readers, ctx`keydir
      ensures Shared() && writer.Valid() && fresh(writer.log) && writer.Model() == t
      ensures Leads(reader.readers, old(writer.Model()), t, old(Map()), writer.max)
    {
      ghost var s := writer.Model();
      ghost var selected, order, passed := writer.Merge();
      t := writer.Model();
      MergeLeads(reader.readers, s, selected, order, writer.max, t);
    }

    /** Close the engine: from now on every operation is refused. */
    method Close()
      requires Valid()
      modifies ctx`closed
      ensures Valid() && ctx.closed && Map() == old(Map())
    {
      ctx.Close();
    }
  }
}
