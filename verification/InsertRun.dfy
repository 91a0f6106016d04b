/** Building a dictionary by a run of `b_insert_key_value` calls at `0.d|`: what the buffer holds
    after it, and the finite map it refines. */
module InsertRun {
  import opened Bytes
  import opened Bencode
  import opened ListLookup
  import opened ListExact
  import opened DictWalk
  import opened Path
  import opened KeyPaths
  import opened Insert
  import opened InsertTree

  /** `0.d|`: just inside the one dictionary the string holds. */
  const ROOT: seq<PathStep> := [Pick(0, DICTIONARY)]

  /** In any string that begins with a `d`, `0.d|` leads behind it, whatever follows. */
  lemma RootLeadsInside(s: bytes)
    requires s != [] && s[0] == DICTIONARY
    ensures Follow(PathText(ROOT, true), s) == 1
  {
    hide InList, Follow, PathText;
    OnePick(0, DICTIONARY, true, s);
    InListTurn(DICTIONARY, 0, s, 0, 0, 0);
  }

  function PairOf(e: Entry): Item {
    Pair(e.key, e.value)
  }

  /** The C string after `b_create_dict` and one `b_insert_key_value` at `0.d|` for each entry. */
  function AfterInserts(ops: seq<Entry>): (s: bytes)
    ensures |s| >= 2 && s[0] == DICTIONARY && NulFree(s)
  {
    if ops == [] then [DICTIONARY, END]
    else
      var n := |ops| - 1;
      var before := AfterInserts(ops[..n]);
      InsertsInside(before, PairOf(ops[n]));
      Inserted(before, |before|, PathText(ROOT, true), InsertedText(PairOf(ops[n])))
  }

  lemma InsertsInside(s: bytes, item: Item)
    requires s != [] && s[0] == DICTIONARY && NulFree(s)
    ensures CanInsert(s, |s|, PathText(ROOT, true))
    ensures Inserted(s, |s|, PathText(ROOT, true), InsertedText(item)) == [DICTIONARY] + InsertedText(item) + s[1..]
    ensures NulFree([DICTIONARY] + InsertedText(item) + s[1..])
  {
    hide CStr, NulFree, Follow, PathText, InsertedText;
    CStrSelf(s);
    RootLeadsInside(s);
    assert s[..|s|] == s && s[..1] == [DICTIONARY];
    InsertedTextNulFree(item);
    NulFreeSpliced(s, 1, InsertedText(item));
  }

  lemma AfterLast(ops: seq<Entry>)
    requires ops != []
    ensures var n := |ops| - 1;
            AfterInserts(ops) == [DICTIONARY] + InsertedText(PairOf(ops[n])) + AfterInserts(ops[..n])[1..]
  {
    hide InsertedText, Inserted;
    InsertsInside(AfterInserts(ops[..|ops| - 1]), PairOf(ops[|ops| - 1]));
  }

  lemma {:induction false} AfterFewer(ops: seq<Entry>, i: nat)
    requires i <= |ops|
    ensures |AfterInserts(ops[..i])| <= |AfterInserts(ops)|
  {
    hide AfterInserts, InsertedText;
    if i == |ops| {
      assert ops[..i] == ops;
    } else {
      AfterFewer(ops[..|ops| - 1], i);
      assert ops[..|ops| - 1][..i] == ops[..i];
      AfterLast(ops);
    }
  }

  /** The run itself: create a dictionary, then insert each entry at `0.d|`. */
  method BuildDict(str: array<byte>, ops: seq<Entry>)
    requires |AfterInserts(ops)| < str.Length
    modifies str
    ensures Content(str) == AfterInserts(ops)
    ensures Content(str) == Encode(Dict(LatestFirst(ops))) <==> AllNoNuls(ops)
  {
    hide AfterInserts, CStr, WholeObj, PathText, Follow, Encode, LatestFirst, AllNoNuls;
    RunEncodes(ops);
    NoInserts();
    CreateDict(str);
    assert ops[..0] == [];
    for i := 0 to |ops|
      invariant Content(str) == AfterInserts(ops[..i])
    {
      var e, before := ops[i], CStr(str[..]);
      NextInsert(ops, i, str[..]);
      InsertKeyValue(str, |before|, PathText(ROOT, true), e.key, ObjText(e.value), TypeOf(e.value));
    }
    assert ops[..|ops|] == ops;
  }

  lemma NoInserts()
    ensures AfterInserts([]) == Encode(Dict([]))
  {
  }

  /** One turn of the run: the call is in order and makes the next string. */
  lemma NextInsert(ops: seq<Entry>, i: nat, buffer: bytes)
    requires i < |ops| && CStr(buffer) == AfterInserts(ops[..i])
    ensures CanInsert(buffer, |CStr(buffer)|, PathText(ROOT, true))
    ensures Inserted(buffer, |CStr(buffer)|, PathText(ROOT, true), InsertedText(PairOf(ops[i])))
         == AfterInserts(ops[..i + 1])
    ensures |CStr(buffer)| + |InsertedText(PairOf(ops[i]))| <= |AfterInserts(ops)|
  {
    hide AfterInserts, CStr, InsertedText, PathText, Follow;
    var s, next := CStr(buffer), ops[..i + 1];
    CStrSelf(s);
    assert buffer[..|s|] == s && s[..|s|] == s;
    InsertsInside(s, PairOf(ops[i]));
    assert next[..i] == ops[..i];
    AfterLast(next);
    AfterFewer(ops, i + 1);
  }

  // ---------- the tree after a run ----------

  /** The entries in the order they end up in: latest first. */
  function LatestFirst(ops: seq<Entry>): (es: seq<Entry>)
    ensures |es| == |ops| && forall j :: 0 <= j < |ops| ==> es[j] == ops[|ops| - 1 - j]
  {
    if ops == [] then [] else [ops[|ops| - 1]] + LatestFirst(ops[..|ops| - 1])
  }

  predicate AllNoNuls(ops: seq<Entry>) {
    forall i :: 0 <= i < |ops| ==> NoNulsItem(PairOf(ops[i]))
  }

  /** The entry as its C strings have it: key and string value end at their first NUL. */
  function Cut(e: Entry): Entry {
    Entry(CStr(e.key), if e.value.Str? then Str(CStr(e.value.b)) else e.value)
  }

  function CutAll(ops: seq<Entry>): (cut: seq<Entry>)
    ensures |cut| == |ops| && forall i :: 0 <= i < |ops| ==> cut[i] == Cut(ops[i])
  {
    if ops == [] then [] else CutAll(ops[..|ops| - 1]) + [Cut(ops[|ops| - 1])]
  }

  /** What is left whole when strings end at their first NUL: a list or dictionary has to hold none. */
  predicate Insertable(v: Value) {
    v.Scalar() || NoNuls(v)
  }

  lemma CutText(e: Entry)
    requires Insertable(e.value)
    ensures InsertedText(PairOf(e)) == ItemText(PairOf(Cut(e)))
    ensures NoNulsItem(PairOf(Cut(e)))
    ensures NoNulsItem(PairOf(e)) <==> Cut(e) == e
  {
    hide CStr, Encode, EncodeStr, NulFree, NoNuls;
    var v := e.value;
    NoNulsCases(v);
    EncodeCases(v);
    EncodeCases(Cut(e).value);
    CStrSelf(e.key);
    if v.Str? {
      NoNulsCases(Cut(e).value);
      CStrSelf(v.b);
    } else {
      if v.Int? {
        IntIsWhole(v.n);
      }
      NulFreeEncoding(v);
      CStrSelf(Encode(v));
    }
  }

  lemma NoNulsCases(v: Value)
    ensures v.Int? ==> NoNuls(v)
    ensures v.Str? ==> (NoNuls(v) <==> NulFree(v.b))
  {
  }

  /** What the buffer holds: the dictionary of all entries, latest first, as their C strings have
      them. */
  lemma {:induction false} RunEncodesCut(ops: seq<Entry>)
    requires forall i :: 0 <= i < |ops| ==> Insertable(ops[i].value)
    ensures AfterInserts(ops) == Encode(Dict(LatestFirst(CutAll(ops))))
    decreases |ops|
  {
    hide AfterInserts, Encode, EncodeStr, InsertedText, Insertable, Cut;
    if ops == [] {
      NoInserts();
    } else {
      var n := |ops| - 1;
      RunEncodesCut(ops[..n]);
      AfterLast(ops);
      CutText(ops[n]);
      var cut := Cut(ops[n]);
      assert CutAll(ops) == CutAll(ops[..n]) + [cut];
      assert (CutAll(ops[..n]) + [cut])[..n] == CutAll(ops[..n]);
      EncodeDictCons(cut, LatestFirst(CutAll(ops[..n])));
    }
  }

  lemma EncodeDictCons(e: Entry, es: seq<Entry>)
    ensures Encode(Dict([e] + es)) == [DICTIONARY] + ItemText(PairOf(e)) + Encode(Dict(es))[1..]
  {
    hide Encode, EncodeStr;
    assert ([e] + es)[1..] == es;
    EncodeDict(es);
    EncodeDict([e] + es);
  }

  /** Exactness of the run: the buffer encodes the dictionary of all entries, latest first, if and
      only if no key and no value holds a NUL. */
  lemma RunEncodes(ops: seq<Entry>)
    ensures AfterInserts(ops) == Encode(Dict(LatestFirst(ops))) <==> AllNoNuls(ops)
  {
    hide AfterInserts, NulFree, NoNuls, Encode;
    var es := LatestFirst(ops);
    NulFreeEncoding(Dict(es));
    NoNulsDict(es);
    if AllNoNuls(ops) {
      NothingCut(ops);
      RunEncodesCut(ops);
    } else {
      var i :| 0 <= i < |ops| && !NoNulsItem(PairOf(ops[i]));
      assert es[|ops| - 1 - i] == ops[i];
    }
  }

  lemma NoNulsDict(es: seq<Entry>)
    ensures NoNuls(Dict(es)) <==> forall i :: 0 <= i < |es| ==> NulFree(es[i].key) && NoNuls(es[i].value)
  {
  }

  lemma NothingCut(ops: seq<Entry>)
    requires AllNoNuls(ops)
    ensures CutAll(ops) == ops
    ensures forall i :: 0 <= i < |ops| ==> Insertable(ops[i].value)
  {
    hide CStr, NoNuls, NulFree;
    forall i | 0 <= i < |ops| ensures Insertable(ops[i].value) && Cut(ops[i]) == ops[i] {
      assert NoNulsItem(PairOf(ops[i]));
      CutText(ops[i]);
    }
  }

  // ---------- the finite map a run stands for ----------

  function MapOf(ops: seq<Entry>): map<bytes, Value> {
    if ops == [] then map[]
    else MapOf(ops[..|ops| - 1])[ops[|ops| - 1].key := ops[|ops| - 1].value]
  }

  lemma {:induction false} LookupIsMap(ops: seq<Entry>, k: bytes)
    ensures NestedLookup(Dict(LatestFirst(ops)), [k]) == if k in MapOf(ops) then Some(MapOf(ops)[k]) else None
    decreases |ops|
  {
    if ops == [] {
    } else {
      var last, es := ops[|ops| - 1], LatestFirst(ops[..|ops| - 1]);
      LookupIsMap(ops[..|ops| - 1], k);
      LookupCons(last, es, k);
    }
  }

  lemma LookupCons(e: Entry, es: seq<Entry>, k: bytes)
    ensures NestedLookup(Dict([e] + es), [k]) == if e.key == k then Some(e.value) else NestedLookup(Dict(es), [k])
  {
    assert ([e] + es)[1..] == es;
    assert forall v :: NestedLookup(v, [k][1..]) == Some(v);
  }

  /** A run refines a finite map. After any run whose first value may be a list or dictionary and
      whose other values are scalars, looking a key up delivers the value last inserted for it, and
      nothing if it was never inserted; keys and values are what their C strings have of them, which
      is all of them exactly when they hold no NUL. */
  lemma {:induction false} InsertsRefineMap(ops: seq<Entry>, k: bytes)
    requires forall i :: 0 <= i < |ops| ==> if i == 0 then Insertable(ops[i].value) else ops[i].value.Scalar()
    requires PlainKey(k)
    ensures k in MapOf(CutAll(ops)) ==> Gets(KeyPath([k]), AfterInserts(ops), Payload(MapOf(CutAll(ops))[k]))
    ensures k !in MapOf(CutAll(ops)) ==> GetExtent(KeyPath([k]), AfterInserts(ops)) == NotFound
    ensures CutAll(ops) == ops <==> AllNoNuls(ops)
  {
    hide Encode, Gets, GetExtent, KeyPath, AfterInserts, MapOf, CStr, NulFree, CutAll, LatestFirst, NoNuls,
      AllNoNuls, NestedLookup, ClearWay;
    var cut := CutAll(ops);
    var es := LatestFirst(cut);
    RunEntries(ops);
    LookupIsMap(cut, k);
    if k in MapOf(cut) {
      OneKeyWay(es, k);
      NestedGet(Dict(es), [k], []);
      assert Encode(Dict(es)) + [] == Encode(Dict(es));
    } else {
      NeverFound(es, k);
      AbsentKey(es, k);
    }
  }

  lemma CutKeepsKind(ops: seq<Entry>)
    requires forall i :: 0 <= i < |ops| ==> Insertable(ops[i].value)
    ensures forall i :: 0 <= i < |ops| ==> CutAll(ops)[i].value.Scalar() == ops[i].value.Scalar()
    ensures forall i :: 0 <= i < |ops| ==> NulFree(CutAll(ops)[i].key)
    ensures CutAll(ops) == ops <==> AllNoNuls(ops)
  {
    hide CStr, NoNuls, NulFree;
    forall i | 0 <= i < |ops| ensures NoNulsItem(PairOf(ops[i])) <==> CutAll(ops)[i] == ops[i] {
      CutText(ops[i]);
    }
  }

  /** The entries that a run leaves are as the key search needs them. */
  lemma RunEntries(ops: seq<Entry>)
    requires forall i :: 0 <= i < |ops| ==> if i == 0 then Insertable(ops[i].value) else ops[i].value.Scalar()
    ensures var es := LatestFirst(CutAll(ops));
            && AfterInserts(ops) == Encode(Dict(es))
            && (forall j :: 0 <= j < |es| ==> NulFree(es[j].key))
            && (forall j :: 0 <= j < |es| - 1 ==> es[j].value.Scalar())
    ensures CutAll(ops) == ops <==> AllNoNuls(ops)
  {
    hide Encode, AfterInserts, NulFree, NoNuls, Cut, CStr, AllNoNuls;
    CutKeepsKind(ops);
    RunEncodesCut(ops);
  }

  lemma OneKeyWay(es: seq<Entry>, k: bytes)
    requires forall j :: 0 <= j < |es| ==> NulFree(es[j].key)
    requires forall j :: 0 <= j < |es| - 1 ==> es[j].value.Scalar()
    requires PlainKey(k)
    ensures ClearWay(Dict(es), [k])
  {
    assert forall v :: ClearWay(v, [k][1..]);
    if FirstKey(k, es) < |es| {
      ScalarsMeet(k, es, FirstKey(k, es));
    }
  }

  lemma NeverFound(es: seq<Entry>, k: bytes)
    requires forall j :: 0 <= j < |es| ==> NulFree(es[j].key)
    requires NestedLookup(Dict(es), [k]) == None
    ensures forall j :: 0 <= j < |es| ==> CStr(es[j].key) != k
  {
    hide CStr, NulFree;
    assert forall v :: NestedLookup(v, [k][1..]) == Some(v);
    forall j | 0 <= j < |es| ensures CStr(es[j].key) != k {
      CStrSelf(es[j].key);
    }
  }

  // ---------- inputs on which a NUL is lost ----------

  lemma OneNul()
    ensures !NulFree([NUL]) && CStr([NUL]) == []
  {
    assert [NUL][0] == NUL;
  }

  lemma OneLetter(k: bytes)
    requires k == ['k' as int]
    ensures CStr(k) == k && PlainKey(k)
  {
    CStrSelf(k);
  }

  /** A string that is one NUL goes in as the empty string: the run does not encode its entry, and
      the lookup delivers nothing of the value. */
  lemma NulValueIsCut()
    ensures var ops := [Entry(['k' as int], Str([NUL]))];
            && AfterInserts(ops) != Encode(Dict(LatestFirst(ops)))
            && Gets(KeyPath([['k' as int]]), AfterInserts(ops), [])
  {
    hide AfterInserts, Encode, Gets, GetExtent, KeyPath, CStr, NulFree, LatestFirst, CutAll;
    var k: bytes := ['k' as int];
    var ops := [Entry(k, Str([NUL]))];
    OneNul();
    assert !NoNulsItem(PairOf(ops[0]));
    RunEncodes(ops);
    OneLetter(k);
    var cut := CutAll(ops);
    assert cut[0] == Entry(k, Str([]));
    assert cut[..0] == [];
    assert MapOf(cut) == MapOf([])[k := Str([])];
    InsertsRefineMap(ops, k);
  }

  /** Whatever is put in front of it, a dictionary whose first value is a NUL loses what follows. */
  lemma NulInDictIsCut(es: seq<Entry>, key: bytes, v: Value, buffer: bytes)
    requires es != [] && es[0].value == Str([NUL])
    requires Holds(buffer, |Encode(Dict(es))|, Encode(Dict(es)))
    ensures CanInsert(buffer, |Encode(Dict(es))|, PathText(ROOT, true))
    ensures Inserted(buffer, |Encode(Dict(es))|, PathText(ROOT, true), InsertedText(Pair(key, v)))
         != Encode(Dict([Entry(key, v)] + es))
  {
    hide Inserted, CanInsert, PathText, InsertedText, Encode, EncodeStr;
    RootInBuffer(es, buffer);
    var c, item := Siblings([Dict(es)]), Pair(key, v);
    EncodeOne(Dict(es));
    EncodeOne(Dict([Entry(key, v)] + es));
    RootEdit(es, item);
    OneNul();
    assert !NoNuls(Str([NUL]));
    assert !NoNuls(c.xs[0]);
    InsertionExact(c.xs, ROOT, true, item, buffer, |Encode(Dict(es))|);
  }

  lemma RootInBuffer(es: seq<Entry>, buffer: bytes)
    requires Holds(buffer, |Encode(Dict(es))|, Encode(Dict(es)))
    ensures CanInsert(buffer, |Encode(Dict(es))|, PathText(ROOT, true))
  {
    hide Encode, PathText, Follow;
    var e := Encode(Dict(es));
    EncodeDict(es);
    RootLeadsInside(e);
    assert buffer[0] == buffer[..|e|][0] == DICTIONARY;
    assert CStr(buffer) != [];
  }

  lemma RootEdit(es: seq<Entry>, item: Item)
    requires item.Pair?
    ensures var c := Siblings([Dict(es)]);
            && Editable(c, ROOT, true, item) && Clear(c, ROOT, true)
            && Edit(c, ROOT, true, item).xs == [Dict([Entry(item.key, item.value)] + es)]
  {
    hide CountOf, Nth, Reached;
    OnlyElement(Dict(es));
    var c := Siblings([Dict(es)]);
    assert ROOT[1..] == [];
    assert Resolve(Entries(es), [], true) != Nowhere;
    assert Editable(Entries(es), [], true, item);
    assert Editable(c, ROOT, true, item);
    assert Clear(c, ROOT, true);
  }
}
