/** Lists of file ids in ascending order. */
module FileIds {
  import opened KeyDir

  lemma LeastExists(ids: set<FileId>)
    requires ids != {}
    ensures exists m :: m in ids && forall f :: f in ids ==> m <= f
  {
    var f :| f in ids;
    var rest := ids - {f};
    if rest == {} {
      OnlyOne(ids, f);
    } else {
      LeastExists(rest);
      var m :| m in rest && forall g :: g in rest ==> m <= g;
      LeastOfBoth(ids, f, m);
    }
  }

  lemma OnlyOne(ids: set<FileId>, f: FileId)
    requires f in ids && ids - {f} == {}
    ensures forall g :: g in ids ==> f <= g
  {
    assert forall g :: g in ids ==> g == f || g in ids - {f};
  }

  lemma LeastOfBoth(ids: set<FileId>, f: FileId, m: FileId)
    requires f in ids && m in ids && forall g :: g in ids - {f} ==> m <= g
    ensures exists least :: least in ids && forall g :: g in ids ==> least <= g
  {
    var least := if f < m then f else m;
    forall g | g in ids
      ensures least <= g
    {
      assert g == f || g in ids - {f};
    }
  }

  function Least(ids: set<FileId>): (m: FileId)
    requires ids != {}
    ensures m in ids && forall f :: f in ids ==> m <= f
  {
    LeastExists(ids);
    var m :| m in ids && forall f :: f in ids ==> m <= f;
    m
  }

  predicate Sorted(s: seq<FileId>) {
    forall i, j :: 0 <= i < j < |s| ==> s[i] < s[j]
  }

  lemma LeastFirst(m: FileId, rest: seq<FileId>)
    requires Sorted(rest) && forall f :: f in rest ==> m < f
    ensures Sorted([m] + rest)
  {
    forall i | 0 <= i < |rest|
      ensures m < rest[i]
    {
      assert rest[i] in rest;
    }
  }

  /** The ids in ascending order. */
  function Ascending(ids: set<FileId>): (s: seq<FileId>)
    ensures forall f :: f in s <==> f in ids
    ensures Sorted(s)
  {
    if ids == {} then []
    else
      var m := Least(ids);
      var rest := Ascending(ids - {m});
      LeastFirst(m, rest);
      [m] + rest
  }

  function IdSet(ids: seq<FileId>): set<FileId> {
    set f | f in ids
  }
}
