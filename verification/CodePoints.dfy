/** Text as code points: section 3 of RFC 3629 says which bytes each of them has. */
module CodePoints {
  import opened Types
  import opened Utf8

  /** Unicode scalar values: code points that are no surrogates. */
  predicate Scalar(c: nat) {
    c < 0xD800 || 0xE000 <= c < 0x11_0000
  }

  /** The bytes of one character: six bits in each byte after the first. */
  function CharBytes(c: nat): (s: seq<byte>)
    requires Scalar(c)
    ensures 1 <= |s| <= 4
  {
    if c < 0x80 then [c]
    else if c < 0x800 then [0xC0 + c / 64, 0x80 + c % 64]
    else if c < 0x1_0000 then [0xE0 + c / 4096, 0x80 + c / 64 % 64, 0x80 + c % 64]
    else [0xF0 + c / 262144, 0x80 + c / 4096 % 64, 0x80 + c / 64 % 64, 0x80 + c % 64]
  }

  predicate AllScalar(cs: seq<nat>) {
    forall i :: 0 <= i < |cs| ==> Scalar(cs[i])
  }

  function TextBytes(cs: seq<nat>): seq<byte>
    requires AllScalar(cs)
  {
    if |cs| == 0 then [] else CharBytes(cs[0]) + TextBytes(cs[1..])
  }

  lemma ThreeBytes(c: nat, x: nat, y: nat, z: nat)
    requires x == c / 4096 && y == c / 64 % 64 && z == c % 64
    ensures c == 4096 * x + 64 * y + z && y < 64 && z < 64
  {
  }

  lemma FourBytes(c: nat, w: nat, x: nat, y: nat, z: nat)
    requires w == c / 262144 && x == c / 4096 % 64 && y == c / 64 % 64 && z == c % 64
    ensures c == 262144 * w + 4096 * x + 64 * y + z && x < 64 && y < 64 && z < 64
  {
    var q := c / 64;
    assert q / 64 == c / 4096 && q / 4096 == w;
    ThreeBytes(q, w, x, y);
  }

  lemma ThreeBack(c: nat, x: nat, y: nat, z: nat)
    requires c == 4096 * x + 64 * y + z && y < 64 && z < 64
    ensures x == c / 4096 && y == c / 64 % 64 && z == c % 64
  {
    assert c / 64 == 64 * x + y;
    assert c / 4096 == x;
  }

  lemma FourBack(c: nat, w: nat, x: nat, y: nat, z: nat)
    requires c == 262144 * w + 4096 * x + 64 * y + z && x < 64 && y < 64 && z < 64
    ensures w == c / 262144 && x == c / 4096 % 64 && y == c / 64 % 64 && z == c % 64
  {
    assert c / 64 == 4096 * w + 64 * x + y;
    assert c / 4096 == 64 * w + x;
    assert c / 262144 == w;
  }

  /** The bytes of a character are recognised as one, whatever follows. */
  lemma CharIsFound(c: nat, s: seq<byte>)
    requires Scalar(c) && CharBytes(c) <= s
    ensures CharLength(s) == |CharBytes(c)|
  {
    var b := CharBytes(c);
    assert forall i :: 0 <= i < |b| ==> s[i] == b[i];
    if 0x800 <= c < 0x1_0000 {
      ThreeBytes(c, c / 4096, c / 64 % 64, c % 64);
    } else if 0x1_0000 <= c {
      FourBytes(c, c / 262144, c / 4096 % 64, c / 64 % 64, c % 64);
    }
  }

  function Low(b: byte): nat
    requires 0x80 <= b
  {
    b - 0x80
  }

  /** What is recognised are the bytes of a character. */
  lemma FoundIsChar(s: seq<byte>) returns (c: nat)
    requires CharLength(s) > 0
    ensures Scalar(c) && CharBytes(c) == s[..CharLength(s)]
  {
    var n := CharLength(s);
    if n == 1 {
      c := s[0];
    } else if n == 2 {
      var a: nat := s[0];
      c := 64 * (a - 0xC0) + Low(s[1]);
    } else if n == 3 {
      var a: nat := s[0];
      c := 4096 * (a - 0xE0) + 64 * Low(s[1]) + Low(s[2]);
      ThreeBack(c, a - 0xE0, Low(s[1]), Low(s[2]));
    } else {
      var a: nat := s[0];
      c := 262144 * (a - 0xF0) + 4096 * Low(s[1]) + 64 * Low(s[2]) + Low(s[3]);
      FourBack(c, a - 0xF0, Low(s[1]), Low(s[2]), Low(s[3]));
    }
  }

  lemma {:induction false} TextIsValid(cs: seq<nat>, s: seq<byte>)
    requires AllScalar(cs) && s == TextBytes(cs)
    ensures ValidUtf8(s)
    decreases |cs|
  {
    if |cs| > 0 {
      var b, rest := CharBytes(cs[0]), TextBytes(cs[1..]);
      CharIsFound(cs[0], s);
      assert s[|b|..] == rest;
      TextIsValid(cs[1..], rest);
    }
  }

  lemma {:induction false} ValidIsText(s: seq<byte>) returns (cs: seq<nat>)
    requires ValidUtf8(s)
    ensures AllScalar(cs) && s == TextBytes(cs)
    decreases |s|
  {
    cs := [];
    if |s| > 0 {
      var n := CharLength(s);
      var c := FoundIsChar(s);
      var rest := ValidIsText(s[n..]);
      cs := [c] + rest;
      assert cs[1..] == rest && s == s[..n] + s[n..];
    }
  }

  /** The bytes that are accepted as text are exactly those of sequences of characters. */
  lemma ValidIff(s: seq<byte>)
    ensures ValidUtf8(s) <==> exists cs :: AllScalar(cs) && s == TextBytes(cs)
  {
    if ValidUtf8(s) {
      var cs := ValidIsText(s);
    }
    if cs :| AllScalar(cs) && s == TextBytes(cs) {
      TextIsValid(cs, s);
    }
  }
}
