/** How a stream of frames ends, in terms of its bytes. */
module Endings {
  import opened Types
  import opened Frames
  import opened FramePasses
  import opened WireFormat
  import opened Connection

  /** The bytes are these frames, one after the other, and then the rest. */
  ghost predicate FramesThen(b: seq<byte>, frames: seq<Frame>, rest: seq<byte>)
    decreases |frames|
  {
    if |frames| == 0 then rest == b
    else exists n: nat :: Within(0, n, |b|) && ReadsFrame(b, 0, n, frames[0]) && FramesThen(b[n..], frames[1..], rest)
  }

  /** The first frame in the buffer is the one that its bytes are. */
  lemma WholeIff(b: seq<byte>, f: Frame, n: nat)
    ensures FrontOf(b) == Whole(f, n) <==> Within(0, n, |b|) && ReadsFrame(b, 0, n, f)
  {
    FrameIff(b, 0, n, f);
    PassesAgree(b, 0);
    if ParseAt(b, 0).Got? {
      ParsedIsChecked(b, 0);
    }
  }

  lemma {:induction false} SessionOf(b: seq<byte>, frames: seq<Frame>, ending: Reply) returns (rest: seq<byte>)
    requires ReadAll(b, []) == Session(frames, ending)
    ensures FramesThen(b, frames, rest) && ReadAll(rest, []) == Session([], ending)
    decreases |b|
  {
    match FrontOf(b) {
      case Whole(f, n) =>
        var s := ReadAll(b[n..], []);
        rest := SessionOf(b[n..], s.frames, ending);
        WholeIff(b, f, n);
        assert frames[0] == f && frames[1..] == s.frames;
      case _ => rest := b;
    }
  }

  lemma {:induction false} SessionFrom(b: seq<byte>, frames: seq<Frame>, rest: seq<byte>, ending: Reply)
    requires FramesThen(b, frames, rest) && ReadAll(rest, []) == Session([], ending)
    ensures ReadAll(b, []) == Session(frames, ending)
    decreases |frames|
  {
    if |frames| > 0 {
      var n: nat :|
        Within(0, n, |b|) && ReadsFrame(b, 0, n, frames[0]) && FramesThen(b[n..], frames[1..], rest);
      WholeIff(b, frames[0], n);
      SessionFrom(b[n..], frames[1..], rest, ending);
      assert frames == [frames[0]] + frames[1..];
    }
  }

  lemma NothingMore(rest: seq<byte>)
    ensures ReadAll(rest, []) == Session([], Closed) <==> rest == []
    ensures ReadAll(rest, []) == Session([], Reset) <==> rest != [] && CheckAt(rest, 0) == Failed(Incomplete)
  {
    var s := ReadAll(rest, []);
    assert FrontOf(rest).Whole? ==> |s.frames| > 0;
    if CheckAt(rest, 0).Got? {
      NeverIncomplete(rest);
    }
  }

  /** What passed the check is refused when it is built, if at all, for its text or its form. */
  lemma NeverIncomplete(b: seq<byte>)
    requires CheckAt(b, 0).Got?
    ensures FrontOf(b) != NeedMore
  {
  }

  /** A stream is closed orderly exactly if its bytes are whole frames. */
  lemma ClosedIff(b: seq<byte>, frames: seq<Frame>)
    ensures ReadAll(b, []) == Session(frames, Closed) <==> FramesThen(b, frames, [])
  {
    if ReadAll(b, []) == Session(frames, Closed) {
      var rest := SessionOf(b, frames, Closed);
      NothingMore(rest);
    }
    if FramesThen(b, frames, []) {
      NothingMore([]);
      SessionFrom(b, frames, [], Closed);
    }
  }

  /** It is reset exactly if after whole frames it ends within one. */
  lemma ResetIff(b: seq<byte>, frames: seq<Frame>)
    ensures ReadAll(b, []) == Session(frames, Reset)
       <==> exists rest :: FramesThen(b, frames, rest) && rest != [] && CheckAt(rest, 0) == Failed(Incomplete)
  {
    if ReadAll(b, []) == Session(frames, Reset) {
      var rest := SessionOf(b, frames, Reset);
      NothingMore(rest);
    }
    if rest :| FramesThen(b, frames, rest) && rest != [] && CheckAt(rest, 0) == Failed(Incomplete) {
      NothingMore(rest);
      SessionFrom(b, frames, rest, Reset);
    }
  }
}
