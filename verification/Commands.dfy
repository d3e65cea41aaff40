/** Commands in frames: parsing a command out of a frame, and writing one as a frame. */
module Commands {
  import opened Types
  import opened Utf8
  import opened Frames

  /** Bytes that are known to be UTF-8 text. */
  type Utf8Bytes = s: Bytes | ValidUtf8(s)

  datatype Command =
    | Del(keys: seq<Utf8Bytes>)
    | Get(key: Utf8Bytes)
    | Set(key: Utf8Bytes, value: Bytes)

  datatype CommandError =
    | BadArguments(message: string)
    | BadCommand(name: seq<byte>)
    | BadFrame(frame: Frame)
    | BadText(raw: seq<byte>)

  datatype Result<+T> = Ok(value: T) | Err(error: CommandError) {
    predicate IsFailure() {
      Err?
    }

    function PropagateFailure<U>(): Result<U>
      requires IsFailure()
    {
      Err(error)
    }

    function Extract(): T
      requires !IsFailure()
    {
      value
    }
  }

  const DEL: Bytes := [68, 69, 76]
  const GET: Bytes := [71, 69, 84]
  const SET: Bytes := [83, 69, 84]

  // ---------- commands as frames ----------

  function Bulks(keys: seq<Utf8Bytes>): (items: seq<Frame>)
    ensures |items| == |keys| && forall i :: 0 <= i < |keys| ==> items[i] == BulkString(keys[i])
  {
    seq(|keys|, i requires 0 <= i < |keys| => BulkString(keys[i]))
  }

  function ToFrame(c: Command): Frame {
    match c
    case Del(keys) => Array([BulkString(DEL)] + Bulks(keys))
    case Get(key) => Array([BulkString(GET), BulkString(key)])
    case Set(key, value) => Array([BulkString(SET), BulkString(key), BulkString(value)])
  }

  /** A DEL frame, its keys pushed one after the other. */
  method FrameOfDel(keys: seq<Utf8Bytes>) returns (frame: Frame)
    ensures frame == ToFrame(Del(keys))
  {
    var data := [BulkString(DEL)];
    for i := 0 to |keys|
      invariant data == [BulkString(DEL)] + Bulks(keys)[..i]
    {
      data := data + [BulkString(keys[i])];
    }
    assert Bulks(keys)[..|keys|] == Bulks(keys);
    frame := Array(data);
  }

  // ---------- parsing ----------

  function BytesOf(f: Frame): Result<Bytes> {
    if f.BulkString? then Ok(f.data) else Err(BadFrame(f))
  }

  function TextOf(f: Frame): Result<Utf8Bytes> {
    var bytes :- BytesOf(f);
    if ValidUtf8(bytes) then Ok(bytes) else Err(BadText(bytes))
  }

  function KeysOf(items: seq<Frame>): Result<seq<Utf8Bytes>> {
    if |items| == 0 then Ok([])
    else
      var key :- TextOf(items[0]);
      var keys :- KeysOf(items[1..]);
      Ok([key] + keys)
  }

  function DelOf(items: seq<Frame>): Result<Command> {
    var keys :- KeysOf(items);
    if |keys| == 0 then Err(BadArguments("Keys are empty")) else Ok(Del(keys))
  }

  function GetOf(items: seq<Frame>): Result<Command> {
    if |items| == 0 then Err(BadArguments("Key is not given"))
    else
      var key :- TextOf(items[0]);
      if |items| > 1 then Err(BadArguments("Frame contains extra data")) else Ok(Get(key))
  }

  function SetOf(items: seq<Frame>): Result<Command> {
    if |items| == 0 then Err(BadArguments("Key is not given"))
    else
      var key :- TextOf(items[0]);
      if |items| == 1 then Err(BadArguments("Value is not given"))
      else
        var value :- BytesOf(items[1]);
        if |items| > 2 then Err(BadArguments("Frame contains extra data")) else Ok(Set(key, value))
  }

  function CommandOf(f: Frame): Result<Command> {
    if !f.Array? then Err(BadFrame(f))
    else if |f.items| == 0 then Err(BadCommand([]))
    else
      var name :- BytesOf(f.items[0]);
      var arguments := f.items[1..];
      if name == DEL then DelOf(arguments)
      else if name == GET then GetOf(arguments)
      else if name == SET then SetOf(arguments)
      else Err(BadCommand(name))
  }

  /** Takes the values of a command frame one after the other. */
  class Parser {
    var frames: seq<Frame>

    constructor (frames: seq<Frame>)
      ensures this.frames == frames
    {
      this.frames := frames;
    }

    method Next() returns (f: Option<Frame>)
      modifies this
      ensures f == if |old(frames)| == 0 then None else Some(old(frames)[0])
      ensures frames == if |old(frames)| == 0 then [] else old(frames)[1..]
    {
      if |frames| == 0 {
        return None;
      }
      f := Some(frames[0]);
      frames := frames[1..];
    }

    /** The next value as text; none when there is none left. */
    method GetString() returns (r: Result<Option<Utf8Bytes>>)
      modifies this
      ensures frames == if |old(frames)| == 0 then [] else old(frames)[1..]
      ensures |old(frames)| == 0 ==> r == Ok(None)
      ensures |old(frames)| > 0 ==>
                match TextOf(old(frames)[0])
                case Ok(text) => r == Ok(Some(text))
                case Err(error) => r == Err(error)
    {
      var f := Next();
      match f {
        case Some(BulkString(s)) =>
          if !ValidUtf8(s) {
            return Err(BadText(s));
          }
          r := Ok(Some(s));
        case Some(f) => r := Err(BadFrame(f));
        case None => r := Ok(None);
      }
    }

    /** The next value as bytes; none when there is none left. */
    method GetBytes() returns (r: Result<Option<Bytes>>)
      modifies this
      ensures frames == if |old(frames)| == 0 then [] else old(frames)[1..]
      ensures |old(frames)| == 0 ==> r == Ok(None)
      ensures |old(frames)| > 0 ==>
                match BytesOf(old(frames)[0])
                case Ok(bytes) => r == Ok(Some(bytes))
                case Err(error) => r == Err(error)
    {
      var f := Next();
      match f {
        case Some(BulkString(s)) => r := Ok(Some(s));
        case Some(f) => r := Err(BadFrame(f));
        case None => r := Ok(None);
      }
    }

    /** Whether no value is left. */
    method Finish() returns (done: bool)
      modifies this
      ensures done <==> |old(frames)| == 0
    {
      var f := Next();
      done := f.None?;
    }

    method ParseDel() returns (r: Result<Command>)
      modifies this
      ensures r == DelOf(old(frames))
    {
      ghost var items := frames;
      var keys: seq<Utf8Bytes> := [];
      KeysStop(items, keys);
      var key :- GetString();
      while key.Some?
        invariant |keys| <= |items| && items[..|keys|] == Bulks(keys) && (key.None? <==> |keys| == |items|)
        invariant key.Some? ==> TextOf(items[|keys|]) == Ok(key.value) && frames == items[|keys| + 1..]
        decreases |items| - |keys|
      {
        keys := keys + [key.value];
        KeysStop(items, keys);
        key :- GetString();
      }
      assert items[..|items|] == items;
      KeysBack(keys, items);
      if keys == [] {
        return Err(BadArguments("Keys are empty"));
      }
      r := Ok(Del(keys));
    }

    method ParseGet() returns (r: Result<Command>)
      modifies this
      ensures r == GetOf(old(frames))
    {
      var key :- GetString();
      if key.None? {
        return Err(BadArguments("Key is not given"));
      }
      var finished := Finish();
      if !finished {
        return Err(BadArguments("Frame contains extra data"));
      }
      r := Ok(Get(key.value));
    }

    method ParseSet() returns (r: Result<Command>)
      modifies this
      ensures r == SetOf(old(frames))
    {
      var key :- GetString();
      if key.None? {
        return Err(BadArguments("Key is not given"));
      }
      var value :- GetBytes();
      if value.None? {
        return Err(BadArguments("Value is not given"));
      }
      var finished := Finish();
      if !finished {
        return Err(BadArguments("Frame contains extra data"));
      }
      r := Ok(Set(key.value, value.value));
    }
  }

  method TryFrom(frame: Frame) returns (r: Result<Command>)
    ensures r == CommandOf(frame)
  {
    if !frame.Array? {
      return Err(BadFrame(frame));
    }
    var parser := new Parser(frame.items);
    var name :- parser.GetBytes();
    match name {
      case None => r := Err(BadCommand([]));
      case Some(name) =>
        if name == DEL {
          r := parser.ParseDel();
        } else if name == GET {
          r := parser.ParseGet();
        } else if name == SET {
          r := parser.ParseSet();
        } else {
          r := Err(BadCommand(name));
        }
    }
  }

  // ---------- parsing undoes writing ----------

  lemma {:induction false} KeysBack(keys: seq<Utf8Bytes>, items: seq<Frame>)
    requires items == Bulks(keys)
    ensures KeysOf(items) == Ok(keys)
    decreases |keys|
  {
    if |keys| > 0 {
      assert items[1..] == Bulks(keys[1..]);
      KeysBack(keys[1..], items[1..]);
      assert keys == [keys[0]] + keys[1..];
    }
  }

  /** The first value that is no text decides. */
  lemma {:induction false} KeysStop(items: seq<Frame>, keys: seq<Utf8Bytes>)
    requires |keys| <= |items| && items[..|keys|] == Bulks(keys)
    ensures |keys| < |items| && TextOf(items[|keys|]).Err? ==> KeysOf(items) == Err(TextOf(items[|keys|]).error)
    decreases |keys|
  {
    if |keys| > 0 {
      assert items[0] == Bulks(keys)[0];
      assert items[1..][..|keys| - 1] == items[..|keys|][1..] == Bulks(keys[1..]);
      KeysStop(items[1..], keys[1..]);
    }
  }

  lemma {:induction false} KeysAreBulks(items: seq<Frame>)
    requires KeysOf(items).Ok?
    ensures items == Bulks(KeysOf(items).value)
    decreases |items|
  {
    if |items| > 0 {
      KeysAreBulks(items[1..]);
      var keys := KeysOf(items).value;
      assert items == [items[0]] + items[1..];
      forall i | 0 <= i < |items|
        ensures items[i] == Bulks(keys)[i]
      {
        if i > 0 {
          assert items[i] == items[1..][i - 1];
        }
      }
    }
  }

  /** A DEL without keys is the one command whose frame is not accepted. */
  predicate Acceptable(c: Command) {
    c.Del? ==> |c.keys| > 0
  }

  lemma WrittenParses(c: Command)
    requires Acceptable(c)
    ensures CommandOf(ToFrame(c)) == Ok(c)
  {
    var items := ToFrame(c).items;
    match c {
      case Del(keys) =>
        assert items[1..] == Bulks(keys);
        KeysBack(keys, items[1..]);
      case Get(key) =>
        assert items[1..] == [BulkString(key)];
      case Set(key, value) =>
        assert items[1..] == [BulkString(key), BulkString(value)];
    }
  }

  lemma ParsedWasWritten(f: Frame, c: Command)
    requires CommandOf(f) == Ok(c)
    ensures f == ToFrame(c) && Acceptable(c)
  {
    var arguments := f.items[1..];
    assert f.items == [f.items[0]] + arguments;
    match c {
      case Del(keys) => KeysAreBulks(arguments);
      case Get(key) => assert arguments == [BulkString(key)];
      case Set(key, value) => assert arguments == [BulkString(key), BulkString(value)];
    }
  }

  /** A frame is parsed as a command exactly when it is what the command is written as: nothing else is
      accepted, and no frame stands for two commands. */
  lemma ParsesIff(f: Frame, c: Command)
    ensures CommandOf(f) == Ok(c) <==> f == ToFrame(c) && Acceptable(c)
  {
    if CommandOf(f) == Ok(c) {
      ParsedWasWritten(f, c);
    }
    if f == ToFrame(c) && Acceptable(c) {
      WrittenParses(c);
    }
  }
}
