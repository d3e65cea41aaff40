/**
 Files of self-delimiting entries, for any entry type: how such a file grows, what a reader that
 starts at its first byte sees, and what is left of it when it is cut.
 */
module Framing {
  import opened Types

  /** What reading one entry from the front of a byte string can give: the entry and the number of
      bytes it took, the end of the input before the entry was complete, or bytes that are no entry. */
  datatype Decoded<+T> = Got(value: T, size: nat) | Eof | Corrupt

  /** How entries of one type are written and read. */
  datatype Code<!T> = Code(enc: T -> seq<byte>, dec: seq<byte> -> Decoded<T>)

  /** Reading undoes writing whatever follows, and an entry cut short anywhere reads as the end of
      the file. */
  ghost predicate SelfDelimiting<T(!new)>(c: Code<T>) {
    && (forall t: T, rest: seq<byte> :: c.dec(c.enc(t) + rest) == Got(t, |c.enc(t)|))
    && (forall t: T, n: nat | n < |c.enc(t)| :: c.dec(c.enc(t)[..n]) == Eof)
    && (forall t: T :: c.enc(t) != [])
  }

  /** The bytes of a file that holds exactly these entries. */
  function EncodeAll<T>(c: Code<T>, ts: seq<T>): seq<byte> {
    if |ts| == 0 then [] else EncodeAll(c, ts[..|ts| - 1]) + c.enc(ts[|ts| - 1])
  }

  /** Every complete entry at the front of a byte string. */
  function Scan<T>(c: Code<T>, s: seq<byte>): seq<T>
    decreases |s|
  {
    match c.dec(s)
    case Got(t, n) => if 0 < n <= |s| then [t] + Scan(c, s[n..]) else []
    case _ => []
  }

  /** The scan stops because the bytes run out, not because they are no entry. */
  predicate Readable<T>(c: Code<T>, s: seq<byte>)
    decreases |s|
  {
    match c.dec(s)
    case Got(_, n) => 0 < n <= |s| && Readable(c, s[n..])
    case Eof => true
    case Corrupt => false
  }

  /** How many of the entries lie wholly within the first `n` bytes. */
  function Fit<T>(c: Code<T>, ts: seq<T>, n: nat): (k: nat)
    ensures k <= |ts|
  {
    if |ts| == 0 then 0
    else if |EncodeAll(c, ts)| <= n then |ts|
    else Fit(c, ts[..|ts| - 1], n)
  }

  lemma EncodeAllSnoc<T>(c: Code<T>, ts: seq<T>, t: T)
    ensures EncodeAll(c, ts + [t]) == EncodeAll(c, ts) + c.enc(t)
  {
    assert (ts + [t])[..|ts|] == ts;
  }

  lemma {:induction false} EncodeAllConcat<T>(c: Code<T>, a: seq<T>, b: seq<T>)
    ensures EncodeAll(c, a + b) == EncodeAll(c, a) + EncodeAll(c, b)
  {
    if b == [] {
      assert a + b == a;
    } else {
      var init, t := b[..|b| - 1], b[|b| - 1];
      EncodeAllConcat(c, a, init);
      assert a + b == (a + init) + [t];
      EncodeAllSnoc(c, a + init, t);
    }
  }

  /** The bytes of entry `i` start where the entries before it end. */
  lemma SliceHoldsEntry<T>(c: Code<T>, ts: seq<T>, i: nat)
    requires i < |ts|
    ensures var pos := |EncodeAll(c, ts[..i])|;
            && pos + |c.enc(ts[i])| <= |EncodeAll(c, ts)|
            && EncodeAll(c, ts)[pos..pos + |c.enc(ts[i])|] == c.enc(ts[i])
  {
    assert ts == (ts[..i] + [ts[i]]) + ts[i + 1..];
    EncodeAllConcat(c, ts[..i] + [ts[i]], ts[i + 1..]);
    EncodeAllSnoc(c, ts[..i], ts[i]);
  }

  /** `Fit` is the largest number of entries that end by byte `n`. */
  lemma {:induction false} FitIsLargest<T>(c: Code<T>, ts: seq<T>, n: nat)
    ensures var k := Fit(c, ts, n);
            && |EncodeAll(c, ts[..k])| <= n
            && (k < |ts| ==> n < |EncodeAll(c, ts[..k + 1])|)
  {
    if ts != [] {
      var init := ts[..|ts| - 1];
      if |EncodeAll(c, ts)| <= n {
        assert ts[..|ts|] == ts;
      } else {
        FitIsLargest(c, init, n);
        var k := Fit(c, init, n);
        assert ts[..k] == init[..k];
        if k < |init| {
          assert ts[..k + 1] == init[..k + 1];
        } else {
          assert ts[..k + 1] == ts;
        }
      }
    }
  }

  lemma ScanOne<T(!new)>(c: Code<T>, t: T, rest: seq<byte>)
    requires SelfDelimiting(c)
    ensures Scan(c, c.enc(t) + rest) == [t] + Scan(c, rest)
    ensures Readable(c, c.enc(t) + rest) == Readable(c, rest)
  {
    assert (c.enc(t) + rest)[|c.enc(t)|..] == rest;
  }

  /** Reading takes whole entries off the front, one at a time and in order. */
  lemma {:induction false} ScanSkips<T(!new)>(c: Code<T>, ts: seq<T>, rest: seq<byte>)
    requires SelfDelimiting(c)
    ensures Scan(c, EncodeAll(c, ts) + rest) == ts + Scan(c, rest)
    ensures Readable(c, EncodeAll(c, ts) + rest) == Readable(c, rest)
    decreases |ts|
  {
    if ts == [] {
      assert EncodeAll(c, ts) + rest == rest;
    } else {
      var init, t := ts[..|ts| - 1], ts[|ts| - 1];
      ScanSkips(c, init, c.enc(t) + rest);
      ScanOne(c, t, rest);
      assert EncodeAll(c, ts) + rest == EncodeAll(c, init) + (c.enc(t) + rest);
      assert ts == init + [t];
    }
  }

  lemma CutEntryReads<T(!new)>(c: Code<T>, t: T, n: nat)
    requires SelfDelimiting(c) && n < |c.enc(t)|
    ensures Scan(c, c.enc(t)[..n]) == [] && Readable(c, c.enc(t)[..n])
  {
    assert c.dec(c.enc(t)[..n]) == Eof;
  }

  lemma NothingReads<T(!new)>(c: Code<T>, t: T)
    requires SelfDelimiting(c)
    ensures Scan(c, []) == [] && Readable(c, [])
  {
    CutEntryReads(c, t, 0);
    assert c.enc(t)[..0] == [];
  }

  /** A file cut at any byte reads back as its complete entries before the cut, with no error.
      The default entry only witnesses that the type is inhabited. */
  lemma CutFileReads<T(!new)>(c: Code<T>, ts: seq<T>, n: nat, default: T)
    requires SelfDelimiting(c) && n <= |EncodeAll(c, ts)|
    ensures Scan(c, EncodeAll(c, ts)[..n]) == ts[..Fit(c, ts, n)]
    ensures Readable(c, EncodeAll(c, ts)[..n])
  {
    var k := Fit(c, ts, n);
    var rest := CutDecomposes(c, ts, n);
    ScanSkips(c, ts[..k], rest);
    if k < |ts| {
      CutEntryReads(c, ts[k], |rest|);
    } else {
      NothingReads(c, default);
    }
    assert Scan(c, rest) == [] && Readable(c, rest);
    assert ts[..k] + [] == ts[..k];
  }

  lemma CutDecomposes<T>(c: Code<T>, ts: seq<T>, n: nat) returns (rest: seq<byte>)
    requires n <= |EncodeAll(c, ts)|
    ensures var k := Fit(c, ts, n);
            && EncodeAll(c, ts)[..n] == EncodeAll(c, ts[..k]) + rest
            && (k == |ts| ==> rest == [])
            && (k < |ts| ==> |rest| < |c.enc(ts[k])| && rest == c.enc(ts[k])[..|rest|])
  {
    var k := Fit(c, ts, n);
    FitIsLargest(c, ts, n);
    var front, back := ts[..k], ts[k..];
    assert ts == front + back;
    EncodeAllConcat(c, front, back);
    var m := n - |EncodeAll(c, front)|;
    rest := EncodeAll(c, back)[..m];
    if k < |ts| {
      assert ts[..k + 1] == front + [back[0]];
      CutEntryFollows(c, front, back, m);
    }
  }

  lemma CutEntryFollows<T>(c: Code<T>, front: seq<T>, back: seq<T>, m: nat)
    requires back != [] && m <= |EncodeAll(c, back)|
    requires |EncodeAll(c, front)| + m < |EncodeAll(c, front + [back[0]])|
    ensures m < |c.enc(back[0])| && EncodeAll(c, back)[..m] == c.enc(back[0])[..m]
  {
    EncodeAllSnoc(c, front, back[0]);
    EncodeAllSnoc(c, [], back[0]);
    assert [] + [back[0]] == [back[0]];
    EncodeAllConcat(c, [back[0]], back[1..]);
    assert back == [back[0]] + back[1..];
  }

  lemma WholeFileReads<T(!new)>(c: Code<T>, ts: seq<T>, default: T)
    requires SelfDelimiting(c)
    ensures Scan(c, EncodeAll(c, ts)) == ts && Readable(c, EncodeAll(c, ts))
  {
    ScanSkips(c, ts, []);
    NothingReads(c, default);
    assert EncodeAll(c, ts) + [] == EncodeAll(c, ts);
    assert ts + [] == ts;
  }
}
