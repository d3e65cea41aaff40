/** How the checking pass and the building pass relate to each other and to the bytes that follow. */
module FramePasses {
  import opened Types
  import opened Utf8
  import opened Frames

  /** More bytes can only change an outcome that is not settled. */
  predicate Settled<T>(r: Read<T>) {
    match r
    case Got(_, _) => true
    case Failed(error) => error != Incomplete
    case Fault => false
  }

  // ---------- bytes that follow ----------

  lemma {:induction false} LineStopStands(b: seq<byte>, c: seq<byte>, i: nat)
    requires b <= c && i <= |b| && LineStop(b, i) + 1 < |b|
    ensures LineStop(c, i) == LineStop(b, i)
    decreases |b| - i
  {
    if LineStop(b, i) != i {
      LineStopStands(b, c, i + 1);
    }
  }

  lemma {:induction false} RunEndStands(b: seq<byte>, c: seq<byte>, i: nat)
    requires b <= c && i < |b| && RunEnd(b, i) + 1 < |b|
    ensures RunEnd(c, i) == RunEnd(b, i)
    decreases |b| - i
  {
    if RunEnd(b, i) != i {
      RunEndStands(b, c, i + 1);
    }
  }

  lemma SamePart(b: seq<byte>, c: seq<byte>, i: nat, j: nat)
    requires b <= c && i <= j <= |b|
    ensures b[i..j] == c[i..j]
  {
  }

  lemma LineStands(b: seq<byte>, c: seq<byte>, pos: nat)
    requires b <= c && pos <= |b| && Settled(LineAt(b, pos))
    ensures LineAt(c, pos) == LineAt(b, pos)
  {
    LineStopStands(b, c, pos);
    SamePart(b, c, pos, LineStop(b, pos));
  }

  lemma IntegerStands(b: seq<byte>, c: seq<byte>, pos: nat)
    requires b <= c && pos <= |b| && Settled(IntegerAt(b, pos))
    ensures IntegerAt(c, pos) == IntegerAt(b, pos)
  {
    var start := pos + SignLength(b, pos);
    RunEndStands(b, c, start);
    var e := RunEnd(b, start);
    SamePart(b, c, start, e);
    SamePart(b, c, pos, e);
    SamePart(b, c, pos, e + 1);
  }

  /** Success of the checking pass with its end, and every error but Incomplete, stay whatever bytes
      follow. */
  lemma {:induction false} CheckStands(b: seq<byte>, c: seq<byte>, pos: nat)
    requires b <= c && pos <= |b| && Settled(CheckAt(b, pos))
    ensures CheckAt(c, pos) == CheckAt(b, pos)
    decreases |b| - pos, 0
  {
    hide Accumulated, AllDigits, LineAt, RunEnd, SignLength, Signed;
    if b[pos] == PLUS || b[pos] == MINUS {
      LineStands(b, c, pos + 1);
    } else if b[pos] == COLON {
      IntegerStands(b, c, pos + 1);
    } else if b[pos] == DOLLAR && b[pos + 1] != MINUS {
      IntegerStands(b, c, pos + 1);
    } else if b[pos] == STAR {
      IntegerStands(b, c, pos + 1);
      var r := IntegerAt(b, pos + 1);
      if r.Got? {
        CheckAllStands(b, c, r.end, r.value);
      }
    }
  }

  lemma {:induction false} CheckAllStands(b: seq<byte>, c: seq<byte>, pos: nat, n: int)
    requires b <= c && pos <= |b| && Settled(CheckAll(b, pos, n))
    ensures CheckAll(c, pos, n) == CheckAll(b, pos, n)
    decreases |b| - pos, 1
  {
    if n > 0 {
      CheckStands(b, c, pos);
      var r := CheckAt(b, pos);
      if r.Got? {
        CheckAllStands(b, c, r.end, n - 1);
      }
    }
  }

  /** A frame that is built is built whatever bytes follow. */
  lemma {:induction false} ParseStands(b: seq<byte>, c: seq<byte>, pos: nat)
    requires b <= c && pos <= |b| && ParseAt(b, pos).Got?
    ensures ParseAt(c, pos) == ParseAt(b, pos)
    decreases |b| - pos, 0
  {
    hide Accumulated, AllDigits, LineAt, RunEnd, SignLength, Signed;
    if b[pos] == PLUS || b[pos] == MINUS {
      LineStands(b, c, pos + 1);
    } else if b[pos] == COLON {
      IntegerStands(b, c, pos + 1);
    } else if b[pos] == DOLLAR {
      if b[pos + 1] == MINUS {
        LineStands(b, c, pos + 1);
      } else {
        IntegerStands(b, c, pos + 1);
        var r := IntegerAt(b, pos + 1);
        SamePart(b, c, r.end, r.end + r.value);
      }
    } else {
      IntegerStands(b, c, pos + 1);
      var r := IntegerAt(b, pos + 1);
      ParseAllStands(b, c, r.end, r.value);
    }
  }

  lemma {:induction false} ParseAllStands(b: seq<byte>, c: seq<byte>, pos: nat, n: nat)
    requires b <= c && pos <= |b| && ParseAll(b, pos, n).Got?
    ensures ParseAll(c, pos, n) == ParseAll(b, pos, n)
    decreases |b| - pos, 1
  {
    if n > 0 {
      ParseStands(b, c, pos);
      ParseAllStands(b, c, ParseAt(b, pos).end, n - 1);
    }
  }

  // ---------- the bytes of a frame are enough ----------

  lemma {:induction false} LineStopWithin(b: seq<byte>, c: seq<byte>, i: nat)
    requires b <= c && i <= |b| && LineStop(c, i) + 1 < |b|
    ensures LineStop(b, i) == LineStop(c, i)
    decreases |b| - i
  {
    if LineStop(c, i) != i {
      LineStopWithin(b, c, i + 1);
    }
  }

  lemma {:induction false} RunEndWithin(b: seq<byte>, c: seq<byte>, i: nat)
    requires b <= c && i < |b| && RunEnd(c, i) + 1 < |b|
    ensures RunEnd(b, i) == RunEnd(c, i)
    decreases |b| - i
  {
    if RunEnd(c, i) != i {
      RunEndWithin(b, c, i + 1);
    }
  }

  lemma LineWithin(b: seq<byte>, c: seq<byte>, pos: nat)
    requires b <= c && pos <= |b| && LineAt(c, pos).Got? && LineAt(c, pos).end <= |b|
    ensures LineAt(b, pos) == LineAt(c, pos)
  {
    LineStopWithin(b, c, pos);
    SamePart(b, c, pos, LineStop(b, pos));
  }

  lemma IntegerWithin(b: seq<byte>, c: seq<byte>, pos: nat)
    requires b <= c && pos <= |b| && IntegerAt(c, pos).Got? && IntegerAt(c, pos).end <= |b|
    ensures IntegerAt(b, pos) == IntegerAt(c, pos)
  {
    var start := pos + SignLength(c, pos);
    RunEndWithin(b, c, start);
    SamePart(b, c, start, RunEnd(b, start));
  }

  /** The checking pass accepts a frame as soon as all its bytes are there. */
  lemma {:induction false} CheckWithin(b: seq<byte>, c: seq<byte>, pos: nat)
    requires b <= c && pos <= |b| && CheckAt(c, pos).Got? && CheckAt(c, pos).end <= |b|
    ensures CheckAt(b, pos) == CheckAt(c, pos)
    decreases |b| - pos, 0
  {
    hide Accumulated, AllDigits, LineAt, RunEnd, SignLength, Signed;
    if b[pos] == PLUS || b[pos] == MINUS {
      LineWithin(b, c, pos + 1);
    } else if b[pos] == DOLLAR && b[pos + 1] == MINUS {
    } else {
      var r := IntegerAt(c, pos + 1);
      if b[pos] == STAR {
        CheckAllMoves(c, r.end, r.value);
      }
      IntegerWithin(b, c, pos + 1);
      if b[pos] == STAR {
        CheckAllWithin(b, c, r.end, r.value);
      }
    }
  }

  lemma CheckAllMoves(c: seq<byte>, pos: nat, n: int)
    requires pos <= |c| && CheckAll(c, pos, n).Got?
    ensures pos <= CheckAll(c, pos, n).end
  {
  }

  lemma {:induction false} CheckAllWithin(b: seq<byte>, c: seq<byte>, pos: nat, n: int)
    requires b <= c && pos <= |b| && CheckAll(c, pos, n).Got? && CheckAll(c, pos, n).end <= |b|
    ensures CheckAll(b, pos, n) == CheckAll(c, pos, n)
    decreases |b| - pos, 1
  {
    if n > 0 {
      var r := CheckAt(c, pos);
      CheckAllMoves(c, r.end, n - 1);
      CheckWithin(b, c, pos);
      CheckAllWithin(b, c, r.end, n - 1);
    }
  }

  /** With all the bytes of a frame the pass accepts it, and with fewer it asks for more or runs past the
      buffer at a sign: never another answer. */
  lemma CheckOfPrefix(b: seq<byte>, c: seq<byte>, pos: nat)
    requires b <= c && pos <= |b| && CheckAt(c, pos).Got?
    ensures CheckAt(b, pos) == CheckAt(c, pos) <==> CheckAt(c, pos).end <= |b|
    ensures CheckAt(c, pos).end > |b| ==> CheckAt(b, pos) in {Failed(Incomplete), Fault}
  {
    if CheckAt(c, pos).end <= |b| {
      CheckWithin(b, c, pos);
    } else if Settled(CheckAt(b, pos)) {
      CheckStands(b, c, pos);
    }
  }

  // ---------- the two passes ----------

  /** What the building pass refuses in bytes that were checked: text that is not UTF-8, a null that is
      not written "-1", and a negative array length. */
  ghost predicate Refused(b: seq<byte>, pos: nat)
    requires pos <= |b| && CheckAt(b, pos).Got?
    decreases |b| - pos, 0
  {
    if b[pos] == PLUS || b[pos] == MINUS then !ValidUtf8(LineAt(b, pos + 1).value)
    else if b[pos] == DOLLAR then b[pos + 1] == MINUS && !(b[pos + 2] == 49 && b[pos + 3] == CR)
    else if b[pos] == STAR then
      var r := IntegerAt(b, pos + 1);
      r.value < 0 || RefusedAmong(b, r.end, r.value)
    else false
  }

  ghost predicate RefusedAmong(b: seq<byte>, pos: nat, n: int)
    requires pos <= |b| && CheckAll(b, pos, n).Got?
    decreases |b| - pos, 1
  {
    n > 0 && (Refused(b, pos) || RefusedAmong(b, CheckAt(b, pos).end, n - 1))
  }

  /** Whatever is built was checked, with the same end. */
  lemma {:induction false} ParsedIsChecked(b: seq<byte>, pos: nat)
    requires pos <= |b| && ParseAt(b, pos).Got?
    ensures CheckAt(b, pos) == Got((), ParseAt(b, pos).end)
    decreases |b| - pos, 0
  {
    if b[pos] == STAR {
      var r := IntegerAt(b, pos + 1);
      AllParsedAreChecked(b, r.end, r.value);
    } else if b[pos] == DOLLAR && b[pos + 1] == MINUS {
      assert |LineAt(b, pos + 1).value| == LineStop(b, pos + 1) - (pos + 1);
    }
  }

  lemma {:induction false} AllParsedAreChecked(b: seq<byte>, pos: nat, n: nat)
    requires pos <= |b| && ParseAll(b, pos, n).Got?
    ensures CheckAll(b, pos, n) == Got((), ParseAll(b, pos, n).end)
    decreases |b| - pos, 1
  {
    if n > 0 {
      ParsedIsChecked(b, pos);
      AllParsedAreChecked(b, ParseAt(b, pos).end, n - 1);
    }
  }

  lemma NullLine(b: seq<byte>, p: nat)
    requires p + 4 <= |b| && b[p] == MINUS
    ensures var r := LineAt(b, p);
            r.Got? && r.value == MINUS_ONE <==> b[p + 1] == 49 && b[p + 2] == CR
    ensures !LineAt(b, p).Fault?
  {
    if b[p + 1] == 49 && b[p + 2] == CR {
      assert LineStop(b, p) == LineStop(b, p + 1) == LineStop(b, p + 2) == p + 2;
      assert b[p..p + 2] == MINUS_ONE;
    }
    var r := LineAt(b, p);
    if r.Got? && r.value == MINUS_ONE {
      var i := LineStop(b, p);
      assert b[p..i][1] == b[p + 1];
      assert i == p + 2;
    }
  }

  /** After a successful check, building succeeds exactly when nothing is refused; if it fails, it fails
      with an error and not with a fault. */
  lemma {:induction false} CheckedParses(b: seq<byte>, pos: nat)
    requires pos <= |b| && CheckAt(b, pos).Got?
    ensures ParseAt(b, pos).Got? <==> !Refused(b, pos)
    ensures !ParseAt(b, pos).Fault?
    decreases |b| - pos, 0
  {
    if b[pos] == STAR {
      var r := IntegerAt(b, pos + 1);
      if r.value >= 0 {
        AllCheckedParse(b, r.end, r.value);
      }
    } else if b[pos] == DOLLAR && b[pos + 1] == MINUS {
      NullLine(b, pos + 1);
    }
  }

  lemma {:induction false} AllCheckedParse(b: seq<byte>, pos: nat, n: nat)
    requires pos <= |b| && CheckAll(b, pos, n).Got?
    ensures ParseAll(b, pos, n).Got? <==> !RefusedAmong(b, pos, n)
    ensures !ParseAll(b, pos, n).Fault?
    decreases |b| - pos, 1
  {
    if n > 0 {
      CheckedParses(b, pos);
      if ParseAt(b, pos).Got? {
        ParsedIsChecked(b, pos);
      }
      AllCheckedParse(b, CheckAt(b, pos).end, n - 1);
    }
  }

  /** For every buffer: building succeeds exactly when checking does and nothing is refused, and then
      both end at the same place. */
  lemma PassesAgree(b: seq<byte>, pos: nat)
    requires pos <= |b|
    ensures ParseAt(b, pos).Got? <==> CheckAt(b, pos).Got? && !Refused(b, pos)
    ensures ParseAt(b, pos).Got? ==> CheckAt(b, pos).end == ParseAt(b, pos).end
  {
    if CheckAt(b, pos).Got? {
      CheckedParses(b, pos);
    }
    if ParseAt(b, pos).Got? {
      ParsedIsChecked(b, pos);
    }
  }

  lemma {:induction false} RefusalStands(b: seq<byte>, c: seq<byte>, pos: nat)
    requires b <= c && pos <= |b| && CheckAt(b, pos).Got? && CheckAt(c, pos) == CheckAt(b, pos)
    ensures Refused(c, pos) == Refused(b, pos)
    decreases |b| - pos, 0
  {
    if b[pos] == PLUS || b[pos] == MINUS {
      LineStands(b, c, pos + 1);
    } else if b[pos] == STAR {
      IntegerStands(b, c, pos + 1);
      var r := IntegerAt(b, pos + 1);
      CheckAllStands(b, c, r.end, r.value);
      RefusalAmongStands(b, c, r.end, r.value);
    }
  }

  lemma {:induction false} RefusalAmongStands(b: seq<byte>, c: seq<byte>, pos: nat, n: int)
    requires b <= c && pos <= |b| && CheckAll(b, pos, n).Got? && CheckAll(c, pos, n) == CheckAll(b, pos, n)
    ensures RefusedAmong(c, pos, n) == RefusedAmong(b, pos, n)
    decreases |b| - pos, 1
  {
    if n > 0 {
      CheckStands(b, c, pos);
      RefusalStands(b, c, pos);
      CheckAllStands(b, c, CheckAt(b, pos).end, n - 1);
      RefusalAmongStands(b, c, CheckAt(b, pos).end, n - 1);
    }
  }

  /** Once the check has succeeded, whether the frame is built is decided, and so is the frame. */
  lemma ParseIsDecided(b: seq<byte>, c: seq<byte>, pos: nat)
    requires b <= c && pos <= |b| && CheckAt(b, pos).Got?
    ensures ParseAt(c, pos).Got? == ParseAt(b, pos).Got?
    ensures ParseAt(b, pos).Got? ==> ParseAt(c, pos) == ParseAt(b, pos)
  {
    CheckStands(b, c, pos);
    CheckedParses(b, pos);
    CheckedParses(c, pos);
    RefusalStands(b, c, pos);
    if ParseAt(b, pos).Got? {
      ParseStands(b, c, pos);
    }
  }

  // ---------- work and allocation ----------

  /** How many frames the checking pass visits. */
  ghost function Visits(b: seq<byte>, pos: nat): nat
    requires pos <= |b| && CheckAt(b, pos).Got?
    decreases |b| - pos, 0
  {
    1 + if b[pos] == STAR then VisitsAll(b, IntegerAt(b, pos + 1).end, IntegerAt(b, pos + 1).value) else 0
  }

  ghost function VisitsAll(b: seq<byte>, pos: nat, n: int): nat
    requires pos <= |b| && CheckAll(b, pos, n).Got?
    decreases |b| - pos, 1
  {
    if n <= 0 then 0 else Visits(b, pos) + VisitsAll(b, CheckAt(b, pos).end, n - 1)
  }

  /** The lengths that all arrays of the frame announce, together. */
  ghost function Announced(b: seq<byte>, pos: nat): nat
    requires pos <= |b| && CheckAt(b, pos).Got?
    decreases |b| - pos, 0
  {
    if b[pos] == STAR then
      var r := IntegerAt(b, pos + 1);
      (if r.value > 0 then r.value else 0) + AnnouncedAll(b, r.end, r.value)
    else 0
  }

  ghost function AnnouncedAll(b: seq<byte>, pos: nat, n: int): nat
    requires pos <= |b| && CheckAll(b, pos, n).Got?
    decreases |b| - pos, 1
  {
    if n <= 0 then 0 else Announced(b, pos) + AnnouncedAll(b, CheckAt(b, pos).end, n - 1)
  }

  /** A checked frame has three bytes for each frame within it, and the lengths of all its arrays together
      are less than a third of its bytes: these are what the building pass allocates for. */
  lemma {:induction false} WorkIsBounded(b: seq<byte>, pos: nat)
    requires pos <= |b| && CheckAt(b, pos).Got?
    ensures 3 * Visits(b, pos) <= CheckAt(b, pos).end - pos
    ensures Announced(b, pos) + 1 == Visits(b, pos)
    decreases |b| - pos, 0
  {
    if b[pos] == STAR {
      var r := IntegerAt(b, pos + 1);
      AllWorkIsBounded(b, r.end, r.value);
    }
  }

  lemma {:induction false} AllWorkIsBounded(b: seq<byte>, pos: nat, n: int)
    requires pos <= |b| && CheckAll(b, pos, n).Got?
    ensures 3 * VisitsAll(b, pos, n) <= CheckAll(b, pos, n).end - pos
    ensures AnnouncedAll(b, pos, n) + (if n > 0 then n else 0) == VisitsAll(b, pos, n)
    decreases |b| - pos, 1
  {
    if n > 0 {
      WorkIsBounded(b, pos);
      AllWorkIsBounded(b, CheckAt(b, pos).end, n - 1);
    }
  }
}
