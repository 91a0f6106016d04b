/** Paths `0.d|k1|0.d|k2|...|kn|` through nested dictionaries, the only kind the program uses, and
    what `b_get_offset` and `b_get` deliver for them. */
module KeyPaths {
  import opened Bytes
  import opened Bencode
  import opened Scan
  import opened Spelling
  import opened ListLookup
  import opened ListExact
  import opened DictLookup
  import opened DictWalk
  import opened Path

  datatype Option<T> = None | Some(value: T)

  /** The first entry with this very key; the number of entries if there is none. */
  function FirstKey(key: bytes, es: seq<Entry>): (m: nat)
    ensures m <= |es| && (m < |es| ==> es[m].key == key)
    ensures forall j :: 0 <= j < m ==> es[j].key != key
  {
    if es == [] || es[0].key == key then 0 else 1 + FirstKey(key, es[1..])
  }

  function NestedLookup(v: Value, keys: seq<bytes>): Option<Value>
    decreases |keys|
  {
    if keys == [] then Some(v)
    else if v.Dict? && FirstKey(keys[0], v.es) < |v.es| then
      NestedLookup(v.es[FirstKey(keys[0], v.es)].value, keys[1..])
    else None
  }

  /** Where in the encoding of `v` the value reached by the keys starts. */
  function KeyOffset(v: Value, keys: seq<bytes>): nat
    requires NestedLookup(v, keys).Some?
    decreases |keys|
  {
    if keys == [] then 0
    else
      var m := FirstKey(keys[0], v.es);
      1 + ValueStart(v.es, m) + KeyOffset(v.es[m].value, keys[1..])
  }

  /** On the way of the keys the key search meets every wanted entry, and the keys read are C
      strings. */
  predicate ClearWay(v: Value, keys: seq<bytes>)
    decreases |keys|
  {
    keys != [] && v.Dict? && FirstKey(keys[0], v.es) < |v.es| ==>
      var m := FirstKey(keys[0], v.es);
      && PlainKey(keys[0])
      && (forall j :: 0 <= j <= m ==> NulFree(v.es[j].key))
      && WayTo(keys[0], v.es, m, false) == Met
      && ClearWay(v.es[m].value, keys[1..])
  }

  /** `0.d|k1|0.d|k2|...|kn|` */
  function KeyPath(keys: seq<bytes>): bytes {
    if keys == [] then []
    else Dec(0) + [DOT, DICTIONARY, PATH_DELIMITER] + keys[0] + [PATH_DELIMITER] + KeyPath(keys[1..])
  }

  function KeySteps(keys: seq<bytes>): seq<PathStep> {
    if keys == [] then [] else [Pick(0, DICTIONARY), Key(keys[0])] + KeySteps(keys[1..])
  }

  lemma {:induction false} KeyPathText(keys: seq<bytes>)
    ensures PathText(KeySteps(keys), true) == KeyPath(keys)
  {
    hide PathText, StepText, Dec;
    var steps := KeySteps(keys);
    if keys == [] {
      NoText();
    } else {
      KeyPathText(keys[1..]);
      KeyStepText(keys[0]);
      assert steps[1..] == [Key(keys[0])] + KeySteps(keys[1..]);
      assert steps[1..][1..] == KeySteps(keys[1..]);
      PathTextCons(steps, true);
      PathTextCons(steps[1..], true);
      RootText();
    }
  }

  lemma NoText()
    ensures PathText([], true) == []
  {
  }

  lemma RootText()
    ensures StepText(Pick(0, DICTIONARY)) + [PATH_DELIMITER] == Dec(0) + [DOT, DICTIONARY, PATH_DELIMITER]
  {
    hide Dec;
  }

  /** With NUL-free keys, comparing C strings finds the entry with the very key. */
  lemma {:induction false} KeyIndexIsFirstKey(key: bytes, es: seq<Entry>)
    requires FirstKey(key, es) < |es|
    requires forall j :: 0 <= j <= FirstKey(key, es) ==> NulFree(es[j].key)
    ensures KeyIndex(key, es) == FirstKey(key, es)
  {
    assert NulFree(es[0].key);
    CStrOfNulFree(es[0].key, []);
    assert es[0].key + [] == es[0].key;
    if es[0].key == key {
    } else {
      forall j | 0 <= j <= FirstKey(key, es[1..]) ensures NulFree(es[1..][j].key) {
        assert es[1..][j] == es[j + 1];
      }
      KeyIndexIsFirstKey(key, es[1..]);
    }
  }

  lemma ResolveNothing(c: Cursor)
    ensures forall closed :: Resolve(c, [], closed) == Place(0, c) && Clear(c, [], closed)
  {
  }

  lemma {:induction false} KeysResolve(v: Value, keys: seq<bytes>)
    requires NestedLookup(v, keys).Some? && ClearWay(v, keys)
    ensures var t := Resolve(Siblings([v]), KeySteps(keys), true);
            && t == Place(KeyOffset(v, keys), Siblings([NestedLookup(v, keys).value]))
            && Clear(Siblings([v]), KeySteps(keys), true)
    decreases |keys|
  {
    hide Resolve, Clear, KeyIndex, ValueStart, WayTo, CStr;
    ResolveNothing(Siblings([v]));
    if keys == [] {
    } else {
      var m := FirstKey(keys[0], v.es);
      KeyIndexIsFirstKey(keys[0], v.es);
      KeysResolve(v.es[m].value, keys[1..]);
      KeyStepResolves(v, keys[0], KeySteps(keys[1..]), true);
      assert [Pick(0, DICTIONARY), Key(keys[0])] + KeySteps(keys[1..]) == KeySteps(keys);
    }
  }

  /** One `0.d|key|` on a dictionary. */
  lemma KeyStepResolves(v: Value, key: bytes, rest: seq<PathStep>, closed: bool)
    requires v.Dict? && KeyIndex(key, v.es) < |v.es| && PlainKey(key)
    requires key != [] || closed
    requires WayTo(key, v.es, KeyIndex(key, v.es), false) == Met
    ensures var m, steps := KeyIndex(key, v.es), [Pick(0, DICTIONARY), Key(key)] + rest;
            var inner := Siblings([v.es[m].value]);
            && Resolve(Siblings([v]), steps, closed) == Resolve(inner, rest, closed).Behind(ValueStart(v.es, m) + 1)
            && (Clear(inner, rest, closed) && Resolve(inner, rest, closed) != Nowhere ==>
                  Clear(Siblings([v]), steps, closed))
  {
    hide KeyIndex, ValueStart, Reached, CountOf, Nth, WayTo, CStr;
    OnlyElement(v);
    var steps := [Pick(0, DICTIONARY), Key(key)] + rest;
    var tail := [Key(key)] + rest;
    assert steps[1..] == tail;
    assert tail[1..] == rest;
    ElemStartZero([v]);
    assert Resolve(Siblings([v]), steps, closed) == Resolve(Entries(v.es), tail, closed).Behind(1);
    assert Clear(Siblings([v]), steps, closed)
        == (Resolve(Siblings([v]), steps, closed) == Nowhere || Clear(Entries(v.es), tail, closed));
  }

  /** Nested lookup: for every tree and every clear path `0.d|k1|...|0.d|kn|` that exists in it,
      `b_get` on the tree's encoding, whatever follows it, delivers the payload of the value the
      keys lead to. */
  lemma NestedGet(v: Value, keys: seq<bytes>, rest: bytes)
    requires NestedLookup(v, keys).Some? && ClearWay(v, keys)
    requires keys != []
    ensures Gets(KeyPath(keys), Encode(v) + rest, Payload(NestedLookup(v, keys).value))
  {
    hide Encode, EncodeList, Resolve, Clear, Gets, Payload, NestedLookup, ClearWay;
    var s := Encode(v) + rest;
    assert HasAt(s, 0, EncodeList([v])) by {
      assert s[0..0 + |Encode(v)|] == Encode(v);
      SingleHasAt(v, s, 0);
    }
    KeysResolve(v, keys);
    KeyPathText(keys);
    PathGets([v], KeySteps(keys), true, s);
  }

  /** The info-hash preimage (BEP 3, section "trackers"): for a container reached by a clear path
      exactly its own encoding is delivered, from its opening token to its matching end token. */
  lemma ContainerSlice(v: Value, keys: seq<bytes>, rest: bytes)
    requires NestedLookup(v, keys).Some? && ClearWay(v, keys)
    requires keys != [] && !NestedLookup(v, keys).value.Scalar()
    ensures Gets(KeyPath(keys), Encode(v) + rest, Encode(NestedLookup(v, keys).value))
  {
    NestedGet(v, keys, rest);
  }

  /** A step `0.d|key|` is the key search in the body of the dictionary at `p`. */
  lemma KeyStepScan(es: seq<Entry>, keys: seq<bytes>, path: bytes, i: nat, s: bytes, p: nat) returns (next: nat)
    requires keys != [] && PlainKey(keys[0]) && HasAt(s, p, Encode(Dict(es)))
    requires Spells(path, i, KeySteps(keys), true)
    ensures Spells(path, next, KeySteps(keys[1..]), true)
    ensures PathScan(path, i, s, p, LIST) == PathScan(path, next, s, InDict(keys[0], s, p + 1), LIST)
  {
    hide HasAt, Encode, EncodeList, EncodeEntries, Digits, DigitsValue, StepText, Dec, CStr, InDict, InList, KeyPart,
      ElemStart, Spells;
    var xs, steps, key := [Dict(es)], KeySteps(keys), keys[0];
    var tail := [Key(key)] + KeySteps(keys[1..]);
    assert steps[1..] == tail && tail[1..] == KeySteps(keys[1..]);
    FirstStep(path, i, steps, true);
    PickStep(path, i, 0, DICTIONARY);
    PickTextLength(0, DICTIONARY);
    var n := i + |StepText(steps[0])| + 1;
    FirstStep(path, n, tail, true);
    KeyStepText(key);
    KeyPartIs(path, n, key);
    SingleHasAt(Dict(es), s, p);
    ElemStartZero(xs);
    InListZeroExact(DICTIONARY, xs, s, p);
    assert PathScan(path, i, s, p, LIST) == PathScan(path, n, s, p + 1, DICTIONARY);
    next := n + |key| + 1;
    assert PathScan(path, n, s, p + 1, DICTIONARY) == PathScan(path, next, s, InDict(key, s, p + 1), LIST);
  }

  /** Keys that paths can spell make a path that is a C string. */
  lemma KeyPathIsCStr(keys: seq<bytes>)
    requires forall k :: k in keys ==> PlainKey(k)
    ensures CStr(KeyPath(keys)) == KeyPath(keys)
  {
    hide CStr, NulFree, Dec;
    KeyPathNulFree(keys);
    CStrSelf(KeyPath(keys));
  }

  lemma {:induction false} KeyPathNulFree(keys: seq<bytes>)
    requires forall k :: k in keys ==> PlainKey(k)
    ensures NulFree(KeyPath(keys))
  {
    hide Dec;
    if keys == [] {
    } else {
      KeyPathNulFree(keys[1..]);
      assert PlainKey(keys[0]);
    }
  }

  lemma {:induction false} KeysArePlain(v: Value, keys: seq<bytes>)
    requires ProperTree(v) && NestedLookup(v, keys).Some?
    ensures forall k :: k in keys ==> PlainKey(k)
    decreases |keys|
  {
    if keys == [] {
    } else {
      KeysArePlain(v.es[FirstKey(keys[0], v.es)].value, keys[1..]);
    }
  }

  // ---------- on which trees every key path is followed correctly ----------

  /** Keys that C strings and paths can express, each once in its dictionary. */
  predicate ProperTree(v: Value) {
    v.Dict? ==>
      && ProperKeys(v.es)
      && (forall j :: 0 <= j < |v.es| ==> PlainKey(v.es[j].key) && ProperTree(v.es[j].value))
  }

  /** Every dictionary met on the way has its lists and dictionaries in the last place only. */
  predicate NestsLast(v: Value) {
    v.Dict? && v.es != [] ==>
      && (forall j :: 0 <= j < |v.es| - 1 ==> v.es[j].value.Scalar())
      && NestsLast(v.es[|v.es| - 1].value)
  }

  predicate LedRight(v: Value, keys: seq<bytes>, rest: bytes)
    requires NestedLookup(v, keys).Some?
  {
    Follow(KeyPath(keys), Encode(v) + rest) == KeyOffset(v, keys)
  }

  lemma FirstKeyOfDistinct(es: seq<Entry>, m: nat)
    requires ProperKeys(es) && m < |es|
    ensures FirstKey(es[m].key, es) == m
  {
  }

  lemma {:induction false} NestsLastIsClear(v: Value, keys: seq<bytes>)
    requires ProperTree(v) && NestsLast(v) && NestedLookup(v, keys).Some?
    ensures ClearWay(v, keys)
    decreases |keys|
  {
    if keys == [] {
    } else {
      var m := FirstKey(keys[0], v.es);
      ScalarsMeet(keys[0], v.es, m);
      if v.es[m].value.Scalar() {
        assert keys[1..] == [];
      } else {
        NestsLastIsClear(v.es[m].value, keys[1..]);
      }
    }
  }

  /** A key path that exists in a tree that does not nest last, and is not followed correctly. */
  function MissedKeys(v: Value): seq<bytes>
    requires !NestsLast(v)
  {
    var j := FirstContainer(v.es);
    if j + 1 < |v.es| then [v.es[j + 1].key]
    else [v.es[|v.es| - 1].key] + MissedKeys(v.es[|v.es| - 1].value)
  }

  lemma {:induction false} MissedKeysMiss(v: Value, path: bytes, i: nat, s: bytes, p: nat)
    requires !NestsLast(v) && ProperTree(v) && HasAt(s, p, Encode(v))
    requires Spells(path, i, KeySteps(MissedKeys(v)), true)
    ensures MissedKeys(v) != [] && NestedLookup(v, MissedKeys(v)).Some?
    ensures PathScan(path, i, s, p, LIST) != p + KeyOffset(v, MissedKeys(v))
    decreases v
  {
    hide HasAt, Encode, EncodeEntries, Spells, PathScan, ValueStart, InDict, KeySteps, CStr;
    var keys, j, n := MissedKeys(v), FirstContainer(v.es), |v.es| - 1;
    if j < n {
      MissedHere(v, j, path, i, s, p);
    } else {
      var next := KeyStepScan(v.es, keys, path, i, s, p);
      EncodeDict(v.es);
      Bracketed(s, p, DICTIONARY, EncodeEntries(v.es));
      CStrOfKeys(v.es);
      FirstKeyOfDistinct(v.es, n);
      DictFinds(v.es[n].key, v.es, n, s, p + 1);
      assert keys[1..] == MissedKeys(v.es[n].value);
      MissedKeysMiss(v.es[n].value, path, next, s, p + 1 + ValueStart(v.es, n));
    }
  }

  lemma MissedHere(v: Value, j: nat, path: bytes, i: nat, s: bytes, p: nat)
    requires v.Dict? && j + 1 < |v.es| && !v.es[j].value.Scalar()
    requires forall i :: 0 <= i < j ==> v.es[i].value.Scalar()
    requires ProperTree(v) && HasAt(s, p, Encode(v))
    requires Spells(path, i, KeySteps([v.es[j + 1].key]), true)
    ensures NestedLookup(v, [v.es[j + 1].key]).Some?
    ensures PathScan(path, i, s, p, LIST) != p + KeyOffset(v, [v.es[j + 1].key])
  {
    hide HasAt, Encode, EncodeEntries, Spells, PathScan, ValueStart, InDict, KeySteps, CStr;
    var keys := [v.es[j + 1].key];
    var next := KeyStepScan(v.es, keys, path, i, s, p);
    EncodeDict(v.es);
    Bracketed(s, p, DICTIONARY, EncodeEntries(v.es));
    CStrOfKeys(v.es);
    FirstKeyOfDistinct(v.es, j + 1);
    DictMissesNext(v.es, j, s, p + 1);
    assert keys[1..] == [];
    KeyStepsNone();
    PathEnds(path, next, s, InDict(keys[0], s, p + 1), LIST, true);
  }

  lemma KeyStepsNone()
    ensures KeySteps([]) == []
  {
  }

  /** Exactness of `b_get_offset` on key paths: on the encoding of a tree, whatever follows it, every
      path through nested dictionaries that exists is followed to the start of its value if and only
      if every dictionary on the way has lists and dictionaries in the last place only. */
  lemma KeyPathsExact(v: Value, rest: bytes)
    requires ProperTree(v)
    ensures (forall keys :: keys != [] && NestedLookup(v, keys).Some? ==> LedRight(v, keys, rest)) <==> NestsLast(v)
  {
    hide HasAt, Encode, EncodeList, PathScan, KeyPath, Spells, Resolve, Clear, NestsLast, ProperTree, MissedKeys,
      KeyOffset;
    var s := Encode(v) + rest;
    PrefixHasAt(Encode(v), rest);
    if NestsLast(v) {
      forall keys | keys != [] && NestedLookup(v, keys).Some? ensures LedRight(v, keys, rest) {
        KeysArePlain(v, keys);
        KeyPathIsCStr(keys);
        NestsLastIsClear(v, keys);
        KeysResolve(v, keys);
        SingleHasAt(v, s, 0);
        KeyPathText(keys);
        WholePath(KeyPath(keys), KeySteps(keys), true);
        PathLeadsTo(Siblings([v]), KeySteps(keys), true, KeyPath(keys), 0, s, 0);
      }
    } else {
      var keys := MissedKeys(v);
      KeyPathText(keys);
      WholePath(KeyPath(keys), KeySteps(keys), true);
      MissedKeysMiss(v, KeyPath(keys), 0, s, 0);
      KeysArePlain(v, keys);
      KeyPathIsCStr(keys);
      assert !LedRight(v, keys, rest);
    }
  }

  lemma EncodeDict(es: seq<Entry>)
    ensures Encode(Dict(es)) == [DICTIONARY] + EncodeEntries(es) + [END]
  {
  }

  /** Exactness for one key: unless the search is derailed on the way, the path `0.d|key|` is
      followed to the value of the first entry with the key if and only if the way meets it. */
  lemma OneKeyExact(es: seq<Entry>, key: bytes, rest: bytes)
    requires PlainKey(key) && FirstKey(key, es) < |es|
    requires forall j :: 0 <= j <= FirstKey(key, es) ==> NulFree(es[j].key)
    requires WayTo(key, es, FirstKey(key, es), false) != Derailed
    ensures NestedLookup(Dict(es), [key]).Some?
    ensures LedRight(Dict(es), [key], rest) <==> WayTo(key, es, FirstKey(key, es), false) == Met
  {
    hide HasAt, Encode, EncodeEntries, Spells, PathScan, ValueStart, InDict, KeySteps, CStr, WayTo, NulFree, KeyPath,
      PlainKey;
    var v, m, s := Dict(es), FirstKey(key, es), Encode(Dict(es)) + rest;
    KeyPathIsCStr([key]);
    KeyPathText([key]);
    WholePath(KeyPath([key]), KeySteps([key]), true);
    PrefixHasAt(Encode(v), rest);
    SplitBody(es, s, 0);
    KeyIndexIsFirstKey(key, es);
    KeyExact(key, es, m, s, 1);
    var next := KeyStepScan(es, [key], KeyPath([key]), 0, s, 0);
    assert [key][1..] == [];
    KeyStepsNone();
    PathEnds(KeyPath([key]), next, s, InDict(key, s, 1), LIST, true);
    OneKeyOffset(es, key);
  }

  lemma OneKeyOffset(es: seq<Entry>, key: bytes)
    requires FirstKey(key, es) < |es|
    ensures NestedLookup(Dict(es), [key]).Some?
    ensures KeyOffset(Dict(es), [key]) == 1 + ValueStart(es, FirstKey(key, es))
  {
    hide ValueStart;
    assert [key][1..] == [];
  }

  // ---------- keys that are not there ----------

  /** One step `0.d|key|` with an absent key, behind whose dictionary only end tokens stand. */
  lemma AbsentStep(es: seq<Entry>, key: bytes, path: bytes, i: nat, s: bytes, p: nat)
    requires PlainKey(key) && forall j :: 0 <= j < |es| ==> CStr(es[j].key) != key
    requires forall j :: 0 <= j < |es| - 1 ==> es[j].value.Scalar()
    requires HasAt(s, p, Encode(Dict(es)))
    requires forall j :: p + |Encode(Dict(es))| <= j < |s| ==> s[j] == END
    requires Spells(path, i, KeySteps([key]), true)
    ensures PathScan(path, i, s, p, LIST) == |s|
  {
    hide HasAt, Encode, EncodeEntries, InDict, PathScan, CStr, Spells;
    EncodeDict(es);
    Bracketed(s, p, DICTIONARY, EncodeEntries(es));
    DictAbsent(key, es, s, p + 1);
    var next := KeyStepScan(es, [key], path, i, s, p);
    PathEnds(path, next, s, |s|, LIST, true);
  }

  /** A key that is nowhere in a dictionary makes `b_get` report nothing, if the dictionary is the
      whole string and no value but its last is a list or a dictionary. */
  lemma AbsentKey(es: seq<Entry>, key: bytes)
    requires PlainKey(key)
    requires forall j :: 0 <= j < |es| ==> CStr(es[j].key) != key
    requires forall j :: 0 <= j < |es| - 1 ==> es[j].value.Scalar()
    ensures GetExtent(KeyPath([key]), Encode(Dict(es))) == NotFound
  {
    hide HasAt, Encode, PathScan, KeyPath, CStr, Spells;
    var s := Encode(Dict(es));
    WholeHasAt(s);
    KeyPathText([key]);
    WholePath(KeyPath([key]), KeySteps([key]), true);
    KeyPathIsCStr([key]);
    AbsentStep(es, key, KeyPath([key]), 0, s, 0);
  }

  lemma ValueEnds(es: seq<Entry>)
    requires es != []
    ensures ValueStart(es, |es| - 1) + |Encode(es[|es| - 1].value)| == |EncodeEntries(es)|
  {
    hide Encode, EncodeEntries, EncodeStr;
    EntriesSnoc(es, |es| - 1);
    assert es[..|es|] == es;
  }

  lemma {:induction false} AbsentBelow(v: Value, ks: seq<bytes>, k: bytes, path: bytes, i: nat, s: bytes, p: nat)
    requires ProperTree(v) && NestsLast(v) && PlainKey(k)
    requires NestedLookup(v, ks).Some? && NestedLookup(v, ks).value.Dict?
    requires var es := NestedLookup(v, ks).value.es; FirstKey(k, es) == |es|
    requires HasAt(s, p, Encode(v)) && forall j :: p + |Encode(v)| <= j < |s| ==> s[j] == END
    requires Spells(path, i, KeySteps(ks + [k]), true)
    ensures PathScan(path, i, s, p, LIST) == |s|
    decreases |ks|
  {
    hide HasAt, Encode, EncodeEntries, Spells, PathScan, ValueStart, InDict, KeySteps, CStr;
    CStrOfKeys(v.es);
    if ks == [] {
      assert ks + [k] == [k];
      AbsentStep(v.es, k, path, i, s, p);
    } else {
      var n := |v.es| - 1;
      var inner, q := v.es[n].value, p + 1 + ValueStart(v.es, n);
      assert FirstKey(ks[0], v.es) == n;
      assert (ks + [k])[1..] == ks[1..] + [k];
      var next := KeyStepScan(v.es, ks + [k], path, i, s, p);
      EncodeDict(v.es);
      Bracketed(s, p, DICTIONARY, EncodeEntries(v.es));
      DictFinds(ks[0], v.es, n, s, p + 1);
      ValueEnds(v.es);
      AbsentBelow(inner, ks[1..], k, path, next, s, q);
    }
  }

  /** At any depth: on the encoding of a tree in which every dictionary on the way has lists and
      dictionaries in the last place only, a key path whose last key is missing from the dictionary
      it is looked up in makes `b_get` report nothing. */
  lemma NestedAbsentKey(v: Value, ks: seq<bytes>, k: bytes)
    requires ProperTree(v) && NestsLast(v) && PlainKey(k)
    requires NestedLookup(v, ks).Some? && NestedLookup(v, ks).value.Dict?
    requires var es := NestedLookup(v, ks).value.es; FirstKey(k, es) == |es|
    ensures GetExtent(KeyPath(ks + [k]), Encode(v)) == NotFound
  {
    hide HasAt, Encode, PathScan, KeyPath, Spells, ProperTree, NestsLast, NestedLookup;
    var keys := ks + [k];
    WholeHasAt(Encode(v));
    KeyPathText(keys);
    WholePath(KeyPath(keys), KeySteps(keys), true);
    KeysArePlain(v, ks);
    KeyPathIsCStr(keys);
    AbsentBelow(v, ks, k, KeyPath(keys), 0, Encode(v), 0);
  }

  // ---------- exactly when a key path reports nothing ----------

  /** What stands around the dictionary the keys lead to, from the inside out; `outer` stands around
      the whole value. */
  function Around(v: Value, keys: seq<bytes>, outer: seq<Cursor>): (around: seq<Cursor>)
    requires NestedLookup(v, keys).Some?
    ensures outer != [] ==> around != []
    decreases |keys|
  {
    if keys == [] then outer
    else
      var m := FirstKey(keys[0], v.es);
      Around(v.es[m].value, keys[1..], [Entries(v.es[m + 1..])] + outer)
  }

  /** The tokens that the search for a last key goes over. */
  function TokensFrom(v: Value, keys: seq<bytes>, outer: seq<Cursor>): seq<Token>
    requires NestedLookup(v, keys).Some? && NestedLookup(v, keys).value.Dict?
  {
    TokensEntries(NestedLookup(v, keys).value.es) + TokensBehind(Around(v, keys, outer))
  }

  /** A dictionary and all that stands behind it end the string. */
  predicate Ends(v: Value, outer: seq<Cursor>, s: bytes, p: nat)
    requires v.Dict?
  {
    var text := [DICTIONARY] + EncodeEntries(v.es) + Behind(outer);
    outer != [] && HasAt(s, p, text) && |s| == p + |text|
  }

  lemma EndsHasAt(v: Value, outer: seq<Cursor>, s: bytes, p: nat)
    requires v.Dict? && Ends(v, outer, s, p)
    ensures HasAt(s, p, Encode(v)) && HasAt(s, p + 1, EncodeEntries(v.es) + Behind(outer))
    ensures |s| == p + 1 + |EncodeEntries(v.es) + Behind(outer)|
  {
    hide HasAt, Encode, EncodeEntries, Behind;
    var body, behind := EncodeEntries(v.es), Behind(outer);
    EndsBehind(outer);
    EncodeDict(v.es);
    assert [DICTIONARY] + body + behind == [DICTIONARY] + (body + behind);
    HasAtConcat(s, p, [DICTIONARY], body + behind);
    assert [DICTIONARY] + body + behind == Encode(v) + behind[1..];
    HasAtConcat(s, p, Encode(v), behind[1..]);
  }

  lemma EndsBehind(outer: seq<Cursor>)
    requires outer != []
    ensures Behind(outer) == [END] + Behind(outer)[1..]
  {
    hide EncodeCursor;
  }

  /** From a dictionary that ends the string into a dictionary in it. */
  lemma EndsInside(v: Value, m: nat, outer: seq<Cursor>, s: bytes, p: nat)
    requires v.Dict? && m < |v.es| && v.es[m].value.Dict? && Ends(v, outer, s, p)
    ensures Ends(v.es[m].value, [Entries(v.es[m + 1..])] + outer, s, p + 1 + ValueStart(v.es, m))
  {
    hide HasAt, Encode, EncodeEntries, EncodeStr, Behind;
    var inner, rest, around := v.es[m].value, v.es[m + 1..], [Entries(v.es[m + 1..])] + outer;
    var a, k, b := EncodeEntries(v.es[..m]), EncodeStr(v.es[m].key), EncodeEntries(rest) + Behind(outer);
    EndsHasAt(v, outer, s, p);
    assert v.es == v.es[..m] + v.es[m..] && v.es[m..][1..] == rest;
    EncodeEntriesConcat(v.es[..m], v.es[m..]);
    UnfoldEntries(v.es[m..], 0, 0);
    EncodeDict(inner.es);
    BehindInside(rest, outer);
    var text := [DICTIONARY] + EncodeEntries(inner.es) + Behind(around);
    assert EncodeEntries(v.es) + Behind(outer) == (a + k) + text;
    HasAtConcat(s, p + 1, a + k, text);
  }

  lemma BehindInside(rest: seq<Entry>, outer: seq<Cursor>)
    ensures Behind([Entries(rest)] + outer) == [END] + EncodeEntries(rest) + Behind(outer)
  {
    hide EncodeEntries;
    assert ([Entries(rest)] + outer)[1..] == outer;
  }

  lemma {:induction false} AlongWay(v: Value, ks: seq<bytes>, k: bytes, outer: seq<Cursor>, path: bytes, i: nat,
                                    s: bytes, p: nat)
    requires NestedLookup(v, ks).Some? && NestedLookup(v, ks).value.Dict? && v.Dict? && ClearWay(v, ks)
    requires PlainKey(k) && Ends(v, outer, s, p) && Spells(path, i, KeySteps(ks + [k]), true)
    requires !Search(k, TokensFrom(v, ks, outer)).Derails?
    ensures var q := PathScan(path, i, s, p, LIST);
            0 <= q <= |s| && (q == |s| <==> Search(k, TokensFrom(v, ks, outer)).Passes?)
    decreases |ks|
  {
    hide HasAt, Encode, EncodeEntries, Spells, PathScan, ValueStart, InDict, KeySteps, CStr, Search, TokensEntries,
      TokensBehind, Behind, WayTo, Ends;
    EndsHasAt(v, outer, s, p);
    var next := KeyStepScan(v.es, ks + [k], path, i, s, p);
    EndsAround(v, outer, s, p);
    if ks == [] {
      assert (ks + [k])[1..] == [];
      KeyStepsNone();
      NothingExact(k, v.es, outer, s, p + 1);
      PathEnds(path, next, s, InDict(k, s, p + 1), LIST, true);
    } else {
      var m := FirstKey(ks[0], v.es);
      assert (ks + [k])[1..] == ks[1..] + [k];
      KeyIndexIsFirstKey(ks[0], v.es);
      SplitBody(v.es, s, p);
      KeyMetFinds(ks[0], v.es, m, s, p + 1);
      EndsInside(v, m, outer, s, p);
      AlongWay(v.es[m].value, ks[1..], k, [Entries(v.es[m + 1..])] + outer, path, next, s, p + 1 + ValueStart(v.es, m));
    }
  }

  lemma EndsAround(v: Value, outer: seq<Cursor>, s: bytes, p: nat)
    requires v.Dict? && Ends(v, outer, s, p)
    ensures outer != [] && TokensBehind(outer) != []
  {
    hide TokensAhead;
  }

  lemma SplitBody(es: seq<Entry>, s: bytes, p: nat)
    requires HasAt(s, p, Encode(Dict(es)))
    ensures HasAt(s, p + 1, EncodeEntries(es))
  {
    hide HasAt, EncodeEntries;
    EncodeDict(es);
    Bracketed(s, p, DICTIONARY, EncodeEntries(es));
  }

  /** Exactness of reporting nothing, for every tree, every clear way to a dictionary in it and every
      last key, whatever values follow the tree: unless the search derails, `b_get` reports nothing
      if and only if the walk over the dictionary's tokens and all tokens behind them stops nowhere. */
  lemma AbsentKeyExact(v: Value, ks: seq<bytes>, k: bytes, later: seq<Value>)
    requires NestedLookup(v, ks).Some? && NestedLookup(v, ks).value.Dict? && ClearWay(v, ks) && PlainKey(k)
    requires !Search(k, TokensFrom(v, ks, [Siblings(later)])).Derails?
    ensures GetExtent(KeyPath(ks + [k]), Encode(v) + EncodeList(later)) == NotFound
       <==> Search(k, TokensFrom(v, ks, [Siblings(later)])).Passes?
  {
    hide HasAt, Encode, EncodeList, PathScan, KeyPath, Spells, NestedLookup, ClearWay, Search, TokensFrom, ScanClose,
      EndRun, Digits, DigitsValue, CStr;
    var keys, s, outer := ks + [k], Encode(v) + EncodeList(later), [Siblings(later)];
    WayIsDict(v, ks);
    WayIsPlain(v, ks);
    KeyPathIsCStr(keys);
    KeyPathText(keys);
    WholePath(KeyPath(keys), KeySteps(keys), true);
    RootEnds(v, later);
    AlongWay(v, ks, k, outer, KeyPath(keys), 0, s, 0);
  }

  lemma WayIsDict(v: Value, ks: seq<bytes>)
    requires NestedLookup(v, ks).Some? && NestedLookup(v, ks).value.Dict?
    ensures v.Dict?
  {
  }

  lemma {:induction false} WayIsPlain(v: Value, ks: seq<bytes>)
    requires NestedLookup(v, ks).Some? && ClearWay(v, ks)
    ensures forall k :: k in ks ==> PlainKey(k)
    decreases |ks|
  {
    hide WayTo;
    if ks == [] {
    } else {
      WayIsPlain(v.es[FirstKey(ks[0], v.es)].value, ks[1..]);
    }
  }

  lemma RootEnds(v: Value, later: seq<Value>)
    requires v.Dict?
    ensures Ends(v, [Siblings(later)], Encode(v) + EncodeList(later), 0)
  {
    hide Encode, EncodeList, EncodeEntries;
    var outer := [Siblings(later)];
    assert Behind(outer) == [END] + EncodeList(later) + Behind([]) by {
      assert outer[1..] == [];
    }
    EncodeDict(v.es);
    assert Encode(v) + EncodeList(later) == [DICTIONARY] + EncodeEntries(v.es) + Behind(outer);
    WholeHasAt(Encode(v) + EncodeList(later));
  }

  /** A NUL ends the path: for a key with a NUL in it, `b_get` delivers the value of the key's C
      string, whether or not the key itself is in the dictionary. */
  lemma NulKeyIsCut(es: seq<Entry>, key: bytes, m: nat, rest: bytes)
    requires !NulFree(key) && CStr(key) != [] && PlainKey(CStr(key))
    requires FirstWith(CStr(key), es, m) && WayTo(CStr(key), es, m, false) == Met
    ensures Gets(KeyPath([key]), Encode(Dict(es)) + rest, Payload(es[m].value))
  {
    hide HasAt, Encode, EncodeList, Gets, Payload, WayTo, CStr, KeyPath, PathText, Resolve, Clear, ValueStart, NulFree,
      PlainKey;
    var v, s, cut := Dict(es), Encode(Dict(es)) + rest, CStr(key);
    var steps := [Pick(0, DICTIONARY), Key(cut)] + [];
    PrefixHasAt(Encode(v), rest);
    SingleHasAt(v, s, 0);
    FirstWithIndex(cut, es, m);
    KeyStepResolves(v, cut, [], false);
    ResolveNothing(Siblings([es[m].value]));
    PathGets([v], steps, false, s);
    PathIsCStr(Siblings([v]), steps, false);
    CutPath(key);
    assert CStr(KeyPath([key])) == CStr(PathText(steps, false));
    GetsByCStr(KeyPath([key]), PathText(steps, false), s, Payload(es[m].value));
  }

  lemma FirstWithIndex(key: bytes, es: seq<Entry>, m: nat)
    requires FirstWith(key, es, m)
    ensures KeyIndex(key, es) == m
  {
    hide CStr;
    assert KeyIndex(key, es) <= m;
  }

  lemma GetsByCStr(path: bytes, path': bytes, s: bytes, payload: bytes)
    requires CStr(path) == CStr(path') && Gets(path', s, payload)
    ensures Gets(path, s, payload)
  {
    hide CStr, PathScan, ExtentAt;
  }

  lemma CutPath(key: bytes)
    requires !NulFree(key)
    ensures CStr(KeyPath([key])) == PathText([Pick(0, DICTIONARY), Key(CStr(key))] + [], false)
  {
    hide CStr, Dec, StepText;
    var cut, steps := CStr(key), [Pick(0, DICTIONARY), Key(CStr(key))] + [];
    assert steps[1..] == [Key(cut)] && steps[1..][1..] == [];
    PathTextCons(steps, false);
    PathTextCons(steps[1..], false);
    KeyStepText(cut);
    RootText();
    var text := PathText(steps, false);
    assert text == Dec(0) + [DOT, DICTIONARY, PATH_DELIMITER] + cut;
    assert KeyPath([key]) == Dec(0) + [DOT, DICTIONARY, PATH_DELIMITER] + key + [PATH_DELIMITER] + KeyPath([][..]);
    assert key == cut + key[|cut|..];
    CStrShorter(key);
    assert KeyPath([key]) == text + (key[|cut|..] + [PATH_DELIMITER] + KeyPath([][..]));
    CStrOfNulFree(text, key[|cut|..] + [PATH_DELIMITER] + KeyPath([][..]));
  }

  lemma CStrShorter(key: bytes)
    requires !NulFree(key)
    ensures |CStr(key)| < |key|
  {
    CStrSelf(key);
  }

  /** Two entries in a row lie one behind the other. */
  lemma AdjacentEntries(es: seq<Entry>, j: nat, s: bytes, p: nat)
    requires j + 1 < |es| && HasAt(s, p, EncodeEntries(es))
    ensures var q := p + ValueStart(es, j);
            var r := q + |Encode(es[j].value)|;
            && HasAt(s, q, Encode(es[j].value)) && HasAt(s, r, EncodeStr(es[j + 1].key))
            && HasAt(s, r + |EncodeStr(es[j + 1].key)|, Encode(es[j + 1].value))
  {
    hide HasAt, Encode, EncodeEntries, EncodeStr;
    var at := p + |EncodeEntries(es[..j])|;
    EntriesFrom(es, j, s, p);
    SplitEntries(es[j..], s, at);
    assert es[j..][1..] == es[j + 1..];
    SplitEntries(es[j + 1..], s, at + |EncodeStr(es[j].key)| + |Encode(es[j].value)|);
  }

  /** With a dictionary behind it, an absent key can be answered from there: if the dictionary a key
      path leads to lacks the last key and the next entry is a dictionary that has it, that one's
      value is delivered. */
  lemma AbsentKeyLeaks(outer: seq<Entry>, j: nat, k: bytes, m: nat, rest: bytes)
    requires ProperTree(Dict(outer)) && j + 1 < |outer| && outer[j].value.Dict? && outer[j + 1].value.Dict?
    requires forall i :: 0 <= i < j ==> outer[i].value.Scalar()
    requires var es := outer[j].value.es;
             && es != [] && FirstKey(k, es) == |es| && forall i :: 0 <= i < |es| ==> es[i].value.Scalar()
    requires var fs := outer[j + 1].value.es;
             && FirstKey(k, fs) == m < |fs| && forall i :: 0 <= i < m ==> fs[i].value.Scalar()
    ensures NestedLookup(Dict(outer), [outer[j].key, k]) == None
    ensures Gets(KeyPath([outer[j].key, k]), Encode(Dict(outer)) + rest, Payload(outer[j + 1].value.es[m].value))
  {
    hide HasAt, Encode, EncodeEntries, EncodeStr, Spells, PathScan, ValueStart, InDict, KeySteps, CStr, KeyPath,
      Payload, ExtentAt, NulFree;
    var es, fs, s := outer[j].value.es, outer[j + 1].value.es, Encode(Dict(outer)) + rest;
    var keys: seq<bytes> := [outer[j].key, k];
    FirstKeyOfDistinct(outer, j);
    NoSuchKey(outer, j, k);
    KeyPathIsCStr(keys);
    PrefixHasAt(Encode(Dict(outer)), rest);
    EncodeDict(outer);
    Bracketed(s, 0, DICTIONARY, EncodeEntries(outer));
    KeyPathText(keys);
    WholePath(KeyPath(keys), KeySteps(keys), true);
    CStrOfKeys(outer);
    var next := KeyStepScan(outer, keys, KeyPath(keys), 0, s, 0);
    DictFinds(outer[j].key, outer, j, s, 1);
    var q := 1 + ValueStart(outer, j);
    assert keys[1..] == [k];
    assert PlainKey(fs[m].key);
    var end := KeyStepScan(es, keys[1..], KeyPath(keys), next, s, q);
    var found := LeaksInto(outer, j, k, m, s);
    assert keys[1..][1..] == [];
    KeyStepsNone();
    PathEnds(KeyPath(keys), end, s, found, LIST, true);
    ExtentOfValue(fs[m].value, s, found);
  }

  lemma NoSuchKey(outer: seq<Entry>, j: nat, k: bytes)
    requires j < |outer| && FirstKey(outer[j].key, outer) == j && outer[j].value.Dict?
    requires FirstKey(k, outer[j].value.es) == |outer[j].value.es|
    ensures NestedLookup(Dict(outer), [outer[j].key, k]) == None
  {
    assert [outer[j].key, k][1..] == [k];
  }

  lemma LeaksInto(outer: seq<Entry>, j: nat, k: bytes, m: nat, s: bytes) returns (found: nat)
    requires ProperTree(Dict(outer)) && j + 1 < |outer| && outer[j].value.Dict? && outer[j + 1].value.Dict?
    requires var es := outer[j].value.es;
             && es != [] && FirstKey(k, es) == |es| && forall i :: 0 <= i < |es| ==> es[i].value.Scalar()
    requires var fs := outer[j + 1].value.es;
             && FirstKey(k, fs) == m < |fs| && forall i :: 0 <= i < m ==> fs[i].value.Scalar()
    requires HasAt(s, 1, EncodeEntries(outer))
    ensures InDict(k, s, 1 + ValueStart(outer, j) + 1) == found
    ensures HasAt(s, found, Encode(outer[j + 1].value.es[m].value))
  {
    hide HasAt, Encode, EncodeEntries, EncodeStr, ValueStart, InDict, CStr, NulFree;
    var es, fs, key := outer[j].value.es, outer[j + 1].value.es, outer[j + 1].key;
    var q := 1 + ValueStart(outer, j);
    assert ProperTree(outer[j].value) && ProperTree(outer[j + 1].value);
    CStrOfKeys(es);
    CStrOfKeys(fs);
    AdjacentEntries(outer, j, s, 1);
    EncodeDict(es);
    EncodeDict(fs);
    var r := q + 1 + |EncodeEntries(es)|;
    HasAtConcat(s, q, [DICTIONARY] + EncodeEntries(es), [END]);
    HasAtConcat(s, q, [DICTIONARY], EncodeEntries(es));
    HasAtConcat(s, r + 1 + |EncodeStr(key)|, [DICTIONARY] + EncodeEntries(fs), [END]);
    HasAtConcat(s, r + 1 + |EncodeStr(key)|, [DICTIONARY], EncodeEntries(fs));
    LeavesInto(k, es, key, fs, s, q + 1);
    DictFinds(k, fs, m, s, r + 1 + |EncodeStr(key)| + 1);
    found := r + 1 + |EncodeStr(key)| + 1 + ValueStart(fs, m);
  }

  lemma OneIntEntry(key: bytes, n: int)
    requires PlainKey(key) && NulFree(key)
    ensures ProperTree(Dict([Entry(key, Int(n))]))
  {
    assert ProperTree(Int(n));
  }

  /** In `{a:{x:1}, b:{y:2}}` the path to `y` in `a` delivers the `y` of `b`. */
  lemma NeighbourAnswers(rest: bytes)
    ensures var a: bytes, b: bytes, x: bytes, y: bytes := ['a' as int], ['b' as int], ['x' as int], ['y' as int];
            var v := Dict([Entry(a, Dict([Entry(x, Int(1))])), Entry(b, Dict([Entry(y, Int(2))]))]);
            && NestedLookup(v, [a, y]) == None
            && Gets(KeyPath([a, y]), Encode(v) + rest, ['2' as int])
  {
    hide Encode, Gets, KeyPath, NestedLookup;
    var a: bytes, b: bytes, x: bytes, y: bytes := ['a' as int], ['b' as int], ['x' as int], ['y' as int];
    var es, fs := [Entry(x, Int(1))], [Entry(y, Int(2))];
    var outer := [Entry(a, Dict(es)), Entry(b, Dict(fs))];
    assert a[0] != b[0] && x[0] != y[0];
    OneIntEntry(x, 1);
    OneIntEntry(y, 2);
    assert ProperTree(Dict(outer));
    assert FirstKey(y, es) == 1 && FirstKey(y, fs) == 0;
    assert IntText(2) == ['2' as int];
    AbsentKeyLeaks(outer, 0, y, 0, rest);
  }
}
