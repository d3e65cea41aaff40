/**
 What the commands are and what they do: their frames byte by byte, what is answered to a frame that is
 no command, and the replies to commands in terms of the commands before them.
 */
module CommandLaws {
  import opened Types
  import opened Utf8
  import opened Frames
  import opened Commands
  import opened Serving
  import opened EndToEnd

  // ---------- the frames of commands ----------

  /** The name in capital letters, and then the arguments. */
  ghost predicate IsRequest(f: Frame, name: Bytes, arguments: seq<Bytes>) {
    && f.Array? && |f.items| == |arguments| + 1 && f.items[0] == BulkString(name)
    && forall i, j :: 0 <= i < |arguments| && j == i + 1 ==> f.items[j] == BulkString(arguments[i])
  }

  lemma GetIff(f: Frame, key: Utf8Bytes)
    ensures CommandOf(f) == Ok(Get(key)) <==> IsRequest(f, [71, 69, 84], [key])
    ensures IsRequest(ToFrame(Get(key)), [71, 69, 84], [key])
  {
    ParsesIff(f, Get(key));
    if IsRequest(f, [71, 69, 84], [key]) {
      assert f.items[1] == BulkString([key][0]);
      assert f.items == [BulkString([71, 69, 84]), BulkString(key)];
    }
  }

  lemma SetIff(f: Frame, key: Utf8Bytes, value: Bytes)
    ensures CommandOf(f) == Ok(Set(key, value)) <==> IsRequest(f, [83, 69, 84], [key, value])
    ensures IsRequest(ToFrame(Set(key, value)), [83, 69, 84], [key, value])
  {
    ParsesIff(f, Set(key, value));
    if IsRequest(f, [83, 69, 84], [key, value]) {
      assert f.items[1] == BulkString([key, value][0]) && f.items[2] == BulkString([key, value][1]);
      assert f.items == [BulkString([83, 69, 84]), BulkString(key), BulkString(value)];
    }
  }

  lemma DelIff(f: Frame, keys: seq<Utf8Bytes>)
    ensures CommandOf(f) == Ok(Del(keys)) <==> |keys| > 0 && IsRequest(f, [68, 69, 76], keys)
    ensures IsRequest(ToFrame(Del(keys)), [68, 69, 76], keys)
  {
    ParsesIff(f, Del(keys));
    if IsRequest(f, [68, 69, 76], keys) {
      assert f.items == [BulkString([68, 69, 76])] + Bulks(keys);
    }
  }

  // ---------- frames that are no commands ----------

  /** A frame is refused for what it is, for its first element, or for its name. */
  lemma NoCommand(f: Frame)
    ensures !f.Array? ==> CommandOf(f) == Err(BadFrame(f))
    ensures f == Array([]) ==> CommandOf(f) == Err(BadCommand([]))
    ensures f.Array? && |f.items| > 0 && !f.items[0].BulkString? ==> CommandOf(f) == Err(BadFrame(f.items[0]))
    ensures f.Array? && |f.items| > 0 && f.items[0].BulkString? ==>
              var name := f.items[0].data;
              name !in {[68, 69, 76], [71, 69, 84], [83, 69, 84]} ==> CommandOf(f) == Err(BadCommand(name))
  {
  }

  /** A DEL without keys, a GET or a SET without a key, a SET without a value, and too many arguments. */
  lemma WrongNumber(key: Utf8Bytes, value: Bytes, more: seq<Frame>)
    requires |more| > 0
    ensures CommandOf(Array([BulkString([68, 69, 76])])) == Err(BadArguments("Keys are empty"))
    ensures CommandOf(Array([BulkString([71, 69, 84])])) == Err(BadArguments("Key is not given"))
    ensures CommandOf(Array([BulkString([83, 69, 84])])) == Err(BadArguments("Key is not given"))
    ensures CommandOf(Array([BulkString([83, 69, 84]), BulkString(key)])) == Err(BadArguments("Value is not given"))
    ensures CommandOf(Array([BulkString([71, 69, 84]), BulkString(key)] + more))
         == Err(BadArguments("Frame contains extra data"))
    ensures CommandOf(Array([BulkString([83, 69, 84]), BulkString(key), BulkString(value)] + more))
         == Err(BadArguments("Frame contains extra data"))
  {
    var get, set_ := [BulkString([71, 69, 84]), BulkString(key)], [BulkString([83, 69, 84]), BulkString(key)];
    assert (get + more)[1..] == [BulkString(key)] + more;
    assert set_[1..] == [BulkString(key)];
    var all := [BulkString([83, 69, 84]), BulkString(key), BulkString(value)];
    assert (all + more)[1..] == [BulkString(key), BulkString(value)] + more;
  }

  /** A key that is no bulk string, or no text. */
  lemma WrongKey(name: Bytes, f: Frame, more: seq<Frame>)
    requires name in {[68, 69, 76], [71, 69, 84], [83, 69, 84]}
    ensures !f.BulkString? ==> CommandOf(Array([BulkString(name), f] + more)) == Err(BadFrame(f))
    ensures f.BulkString? && !ValidUtf8(f.data) ==>
              CommandOf(Array([BulkString(name), f] + more)) == Err(BadText(f.data))
  {
    var items := [BulkString(name), f] + more;
    assert items[1..] == [f] + more;
  }

  // ---------- what commands do ----------

  ghost predicate Writes(c: Command, key: Bytes) {
    (c.Set? && c.key == key) || (c.Del? && key in c.keys)
  }

  /** No command from the `i`-th on changes the key. */
  ghost predicate UnchangedFrom(commands: seq<Command>, i: int, key: Bytes) {
    forall j :: 0 <= i <= j < |commands| ==> !Writes(commands[j], key)
  }

  lemma {:induction false} KeySetIs(keys: seq<Bytes>)
    ensures KeySet(keys) == set k | k in keys
  {
    if |keys| > 0 {
      var init := keys[..|keys| - 1];
      KeySetIs(init);
      assert keys == init + [keys[|keys| - 1]];
    }
  }

  lemma FirstServed(m: map<Bytes, Bytes>, commands: seq<Command>, c: Command, rest: seq<Command>)
    requires |commands| > 0 && c == commands[0] && rest == commands[1..]
    ensures var n := MapApply(m, c).0;
            MapServe(m, commands) == (MapServe(n, rest).0, [MapApply(m, c).1] + MapServe(n, rest).1)
  {
  }

  lemma OneServed(m: map<Bytes, Bytes>, c: Command, one: seq<Command>)
    requires one == [c]
    ensures MapServe(m, one) == (MapApply(m, c).0, [MapApply(m, c).1]) && MapServe(m, []) == (m, [])
  {
    FirstServed(m, one, c, []);
    var reply := MapApply(m, c).1;
    assert [reply] + [] == [reply];
  }

  lemma {:induction false} OneMoreCommand(m: map<Bytes, Bytes>, commands: seq<Command>, c: Command, all: seq<Command>)
    requires all == commands + [c]
    ensures var (n, replies) := MapServe(m, commands);
            MapServe(m, all) == (MapApply(n, c).0, replies + [MapApply(n, c).1])
    decreases |commands|
  {
    hide MapApply, MapServe;
    if |commands| == 0 {
      assert commands == [] && [] + [MapApply(m, c).1] == [MapApply(m, c).1];
      OneServed(m, c, all);
    } else {
      var first, rest, more := commands[0], commands[1..], all[1..];
      var (n, reply) := MapApply(m, first);
      assert more == rest + [c];
      FirstServed(m, commands, first, rest);
      FirstServed(m, all, first, more);
      OneMoreCommand(n, rest, c, more);
      var (p, replies) := MapServe(n, rest);
      assert [reply] + (replies + [MapApply(p, c).1]) == [reply] + replies + [MapApply(p, c).1];
    }
  }

  lemma OthersKeep(m: map<Bytes, Bytes>, c: Command, key: Bytes)
    requires !Writes(c, key)
    ensures key in MapApply(m, c).0 <==> key in m
    ensures key in m ==> MapApply(m, c).0[key] == m[key]
  {
    if c.Del? {
      KeySetIs(c.keys);
    }
  }

  lemma {:induction false} AllKeep(m: map<Bytes, Bytes>, commands: seq<Command>, key: Bytes)
    requires UnchangedFrom(commands, 0, key)
    ensures key in MapServe(m, commands).0 <==> key in m
    ensures key in m ==> MapServe(m, commands).0[key] == m[key]
  {
    if |commands| > 0 {
      var init, c := commands[..|commands| - 1], commands[|commands| - 1];
      assert commands == init + [c];
      OneMoreCommand(m, init, c, commands);
      AllKeep(m, init, key);
      OthersKeep(MapServe(m, init).0, c, key);
    }
  }

  lemma {:induction false} LastWriteStays(m: map<Bytes, Bytes>, commands: seq<Command>, i: nat, key: Bytes)
    requires i < |commands| && Writes(commands[i], key) && UnchangedFrom(commands, i + 1, key)
    ensures var n := MapServe(m, commands).0;
            if commands[i].Set? then key in n && n[key] == commands[i].value else key !in n
    decreases |commands|
  {
    var init, c := commands[..|commands| - 1], commands[|commands| - 1];
    assert commands == init + [c];
    OneMoreCommand(m, init, c, commands);
    if i == |init| {
      if c.Del? {
        KeySetIs(c.keys);
      }
    } else {
      LastWriteStays(m, init, i, key);
      OthersKeep(MapServe(m, init).0, c, key);
    }
  }

  /** A SET is answered with OK. */
  lemma SetIsAnswered(m: map<Bytes, Bytes>, before: seq<Command>, key: Utf8Bytes, value: Bytes)
    ensures MapServe(m, before + [Set(key, value)]).1 == MapServe(m, before).1 + [SimpleString([79, 75])]
  {
    OneMoreCommand(m, before, Set(key, value), before + [Set(key, value)]);
  }

  /** After the commands before it, a GET is answered with the value of the last SET of its key, with a
      null if a DEL came later, and as at first if nothing has changed the key. */
  lemma GetIsAnswered(m: map<Bytes, Bytes>, before: seq<Command>, key: Utf8Bytes, i: nat, reply: Frame)
    requires MapServe(m, before + [Get(key)]).1 == MapServe(m, before).1 + [reply]
    ensures i < |before| && before[i].Set? && before[i].key == key && UnchangedFrom(before, i + 1, key) ==>
              reply == BulkString(before[i].value)
    ensures i < |before| && before[i].Del? && key in before[i].keys && UnchangedFrom(before, i + 1, key) ==>
              reply == Null
    ensures UnchangedFrom(before, 0, key) ==> reply == if key in m then BulkString(m[key]) else Null
  {
    var n, replies := MapServe(m, before).0, MapServe(m, before).1;
    OneMoreCommand(m, before, Get(key), before + [Get(key)]);
    assert (replies + [reply])[|replies|] == reply;
    if i < |before| && Writes(before[i], key) && UnchangedFrom(before, i + 1, key) {
      LastWriteStays(m, before, i, key);
    }
    if UnchangedFrom(before, 0, key) {
      AllKeep(m, before, key);
    }
  }

  /** A GET changes nothing for the commands that follow. */
  lemma GetChangesNothing(m: map<Bytes, Bytes>, before: seq<Command>, key: Utf8Bytes)
    ensures MapServe(m, before + [Get(key)]).0 == MapServe(m, before).0
  {
    OneMoreCommand(m, before, Get(key), before + [Get(key)]);
  }

  lemma FoundByGet(m: map<Bytes, Bytes>, before: seq<Command>, key: Utf8Bytes)
    ensures MapServe(m, before + [Get(key)]).1 != MapServe(m, before).1 + [Null] <==> key in MapServe(m, before).0
  {
    var n, replies := MapServe(m, before).0, MapServe(m, before).1;
    OneMoreCommand(m, before, Get(key), before + [Get(key)]);
    assert (replies + [MapApply(n, Get(key)).1])[|replies|] == MapApply(n, Get(key)).1;
    assert (replies + [Null])[|replies|] == Null;
  }

  /** A DEL is answered with the number of its keys, each counted once, to which a GET would not have been
      answered with a null. */
  lemma DelIsAnswered(m: map<Bytes, Bytes>, before: seq<Command>, keys: seq<Utf8Bytes>, found: set<Bytes>)
    requires Sendable(Del(keys))
    requires forall k: Bytes :: k in found <==>
               k in keys && MapServe(m, before + [Get(k)]).1 != MapServe(m, before).1 + [Null]
    ensures |found| < 0x8000_0000_0000_0000
    ensures MapServe(m, before + [Del(keys)]).1 == MapServe(m, before).1 + [Integer(|found|)]
  {
    hide MapServe, KeySet, Sendable;
    var n, replies := MapServe(m, before).0, MapServe(m, before).1;
    OneMoreCommand(m, before, Del(keys), before + [Del(keys)]);
    CountIsExact(n, Del(keys));
    KeySetIs(keys);
    forall k: Bytes
      ensures k in found <==> k in n.Keys * KeySet(keys)
    {
      if k in keys {
        FoundByGet(m, before, k);
      }
    }
    assert found == n.Keys * KeySet(keys);
  }
}
