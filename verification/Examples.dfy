/** Literal texts: what the program does with a few of them, character for character. */
module Examples {
  import opened Bytes
  import opened Bencode
  import opened DictWalk
  import opened ListLookup
  import opened ListExact
  import opened Path
  import opened KeyPaths
  import opened Insert
  import opened InsertTree
  import opened Torrent
  import opened Printer

  // ---------- encodings ----------

  lemma ShortStr(b: bytes)
    requires |b| < 10
    ensures EncodeStr(b) == ['0' as int + |b|, ':' as int] + b
  {
    DecDigit(|b|);
  }

  lemma Number42()
    ensures IntText(42) == Ascii("42") && EncodeInt(42) == Ascii("i42e")
  {
    hide Dec;
    DecDigit(4);
    DecStep(4, 2);
  }

  lemma LengthText()
    ensures Encode(Dict([Entry(Ascii("length"), Int(42))])) == Ascii("d6:lengthi42ee")
  {
    hide EncodeInt, EncodeEntries, EncodeStr;
    var key := Ascii("length");
    Number42();
    ShortStr(key);
    EncodeDict([Entry(key, Int(42))]);
    EncodeOneEntry(key, Int(42));
  }

  const INFO := Dict([Entry(Ascii("length"), Int(42))])
  const TORRENT := Dict([Entry(Ascii("announce"), Str(Ascii("url"))), Entry(Ascii("info"), INFO)])

  lemma EncodePair(a: Entry, b: Entry)
    ensures EncodeEntries([a, b])
         == EncodeStr(a.key) + Encode(a.value) + (EncodeStr(b.key) + Encode(b.value))
  {
    hide Encode, EncodeStr;
    assert [a, b] == [a] + [b];
    EncodeEntriesConcat([a], [b]);
    EncodeOneEntry(a.key, a.value);
    EncodeOneEntry(b.key, b.value);
  }

  lemma TorrentText()
    ensures Encode(TORRENT) == Ascii("d8:announce3:url4:infod6:lengthi42eee")
  {
    hide EncodeEntries, EncodeStr;
    var announce, url, info := Ascii("announce"), Ascii("url"), Ascii("info");
    ShortStr(announce);
    ShortStr(url);
    ShortStr(info);
    LengthText();
    EncodeDict(TORRENT.es);
    EncodePair(Entry(announce, Str(url)), Entry(info, INFO));
    UrlText(Encode(INFO), EncodeStr(announce), EncodeStr(url), EncodeStr(info));
  }

  lemma UrlText(info: bytes, a: bytes, b: bytes, c: bytes)
    requires info == Ascii("d6:lengthi42ee")
    requires a == ['8' as int, ':' as int] + Ascii("announce") && b == ['3' as int, ':' as int] + Ascii("url")
    requires c == ['4' as int, ':' as int] + Ascii("info")
    ensures ['d' as int] + (a + b + (c + info)) + ['e' as int]
         == Ascii("d8:announce3:url4:infod6:lengthi42eee")
  {
    hide Ascii;
    FrontText();
    BackText();
    JoinedText();
    Regrouped(['d' as int], a, b, c, info, ['e' as int]);
  }

  lemma Regrouped(o: bytes, a: bytes, b: bytes, c: bytes, d: bytes, e: bytes)
    ensures o + (a + b + (c + d)) + e == (o + a + b) + (c + (d + e))
  {
  }

  lemma FrontText()
    ensures (['d' as int] + (['8' as int, ':' as int] + Ascii("announce"))) + (['3' as int, ':' as int] + Ascii("url"))
         == Ascii("d8:announce3:url")
  {
  }

  lemma BackText()
    ensures (['4' as int, ':' as int] + Ascii("info")) + (Ascii("d6:lengthi42ee") + ['e' as int])
         == Ascii("4:infod6:lengthi42eee")
  {
  }

  lemma JoinedText()
    ensures Ascii("d8:announce3:url") + Ascii("4:infod6:lengthi42eee") == Ascii("d8:announce3:url4:infod6:lengthi42eee")
  {
  }

  // ---------- what b_get delivers ----------

  lemma PlainLiteral(t: string)
    requires forall i :: 0 <= i < |t| ==> t[i] != '|' && 0 < t[i] as int < 256
    ensures PlainKey(Ascii(t)) && NulFree(Ascii(t))
  {
  }

  /** The length field of a torrent's info dictionary. */
  lemma LengthDelivered()
    ensures Gets(Ascii("0.d|length|"), Ascii("d6:lengthi42ee"), Ascii("42"))
  {
    hide Encode, Gets, KeyPath, WayTo, PlainKey, NulFree, Ascii;
    var key := Ascii("length");
    var v := Dict([Entry(key, Int(42))]);
    PlainLiteral("length");
    LengthText();
    Number42();
    FirstFound(v, key);
    NestedGet(v, [key], []);
    OneKey("length", "0.d|length|");
    assert Encode(v) + [] == Encode(v);
  }

  lemma FirstFound(v: Value, key: bytes)
    requires v.Dict? && v.es != [] && v.es[0].key == key && PlainKey(key) && NulFree(key)
    ensures NestedLookup(v, [key]) == Some(v.es[0].value) && ClearWay(v, [key])
  {
    hide PlainKey, NulFree;
    assert [key][1..] == [];
  }

  lemma SecondFound(v: Value, key: bytes)
    requires v.Dict? && |v.es| >= 2 && v.es[0].key != key && v.es[1].key == key && v.es[0].value.Scalar()
    requires PlainKey(key) && NulFree(key) && NulFree(v.es[0].key)
    ensures NestedLookup(v, [key]) == Some(v.es[1].value) && ClearWay(v, [key])
    ensures forall inner :: NestedLookup(v, [key, inner]) == NestedLookup(v.es[1].value, [inner])
    ensures forall inner :: ClearWay(v, [key, inner]) <==> ClearWay(v.es[1].value, [inner])
  {
    hide PlainKey, NulFree, WayTo;
    ScalarsMeet(key, v.es, 1);
    SecondKey(v.es, key);
    assert [key][1..] == [];
    forall inner ensures [key, inner][1..] == [inner] {
    }
  }

  lemma SecondKey(es: seq<Entry>, key: bytes)
    requires |es| >= 2 && es[0].key != key && es[1].key == key
    ensures FirstKey(key, es) == 1
  {
  }

  /** From a torrent text: a string, a number one level down, and a whole dictionary. */
  lemma TorrentDelivered()
    ensures var s := Ascii("d8:announce3:url4:infod6:lengthi42eee");
            && Gets(Ascii("0.d|announce|"), s, Ascii("url"))
            && Gets(Ascii("0.d|info|0.d|length|"), s, Ascii("42"))
            && Gets(Ascii("0.d|info|"), s, Ascii("d6:lengthi42ee"))
  {
    hide Encode, Gets, KeyPath, ClearWay, NestedLookup, PlainKey, NulFree, Ascii, Payload;
    var announce, info, length := Ascii("announce"), Ascii("info"), Ascii("length");
    PlainLiteral("announce");
    PlainLiteral("info");
    PlainLiteral("length");
    TorrentText();
    LengthText();
    Number42();
    FirstFound(TORRENT, announce);
    SecondFound(TORRENT, info);
    FirstFound(INFO, length);
    OneKey("announce", "0.d|announce|");
    OneKey("info", "0.d|info|");
    TwoKeys("length", "0.d|info|0.d|length|");
    PayloadsAre();
    NestedGet(TORRENT, [announce], []);
    NestedGet(TORRENT, [info], []);
    NestedGet(TORRENT, [info, length], []);
    assert Encode(TORRENT) + [] == Encode(TORRENT);
  }

  lemma PayloadsAre()
    ensures Payload(Int(42)) == IntText(42) && Payload(Str(Ascii("url"))) == Ascii("url")
    ensures Payload(INFO) == Encode(INFO)
  {
    hide Encode;
  }

  // ---------- lists ----------

  lemma TwoPickText(a: byte, n: nat, b: byte)
    requires n < 10
    ensures PathText([Pick(0, a), Pick(n, b)], false)
         == ['0' as int, '.' as int, a, '|' as int, '0' as int + n, '.' as int, b]
  {
    hide Dec;
    var steps := [Pick(0, a), Pick(n, b)];
    DecDigit(0);
    DecDigit(n);
    PathTextCons(steps, false);
    PathTextCons(steps[1..], false);
    assert |steps[1..][1..]| == 0;
  }

  /** An element of a list of two scalars of one type is on a clear way. */
  lemma PairInList(x: Value, y: Value, n: nat)
    requires x.Scalar() && y.Scalar() && TypeOf(x) == TypeOf(y) && n < 2
    ensures var xs, steps := [List([x, y])], [Pick(0, LIST), Pick(n, TypeOf(x))];
            var t := Resolve(Siblings(xs), steps, false);
            && t.Place? && t.ahead == Siblings([x, y][n..]) && Clear(Siblings(xs), steps, false)
  {
    hide CountOf, Nth, Reached, TypeOf, ElemStart;
    var inner, steps := [x, y], [Pick(0, LIST), Pick(n, TypeOf(x))];
    assert steps[1..] == [Pick(n, TypeOf(x))] && |steps[1..][1..]| == 0;
    ListType(inner);
    OnlyElement(List(inner));
    PairReached(x, y, n);
    assert EndsOn(inner[n], steps[1..], false);
    assert Resolve(Siblings(inner), steps[1..], false) == Place(ElemStart(inner, n), Siblings(inner[n..]));
    assert Clear(Siblings(inner), steps[1..], false);
    var c := Siblings([List(inner)]);
    assert Resolve(c, steps, false) == Resolve(Siblings(inner), steps[1..], false).Behind(ElemStart(c.xs, 0) + 1);
  }

  lemma ListType(xs: seq<Value>)
    ensures TypeOf(List(xs)) == LIST
  {
  }

  lemma PairReached(x: Value, y: Value, n: nat)
    requires x.Scalar() && y.Scalar() && TypeOf(x) == TypeOf(y) && n < 2
    ensures n < CountOf(TypeOf(x), [x, y]) && Nth(TypeOf(x), n, [x, y]) == n
    ensures Reached(TypeOf(x), n, [x, y])
  {
    hide TypeOf, TypesList;
    var ty, xs := TypeOf(x), [x, y];
    SameTypeRun(ty, n, Tops(xs));
    TopsAreTokens(ty, xs);
    TopsAreTokens(ty, xs[..n]);
    if n == 1 {
      SameTypeRun(ty, 0, Tops(xs[..1]));
      assert CountIn(ty, Tops(xs[..1])) == 1;
    }
  }

  /** The second number of a list, and the first string of another. */
  lemma ListDelivered()
    ensures Gets(Ascii("0.l|1.i"), Ascii("li7ei8ee"), Ascii("8"))
    ensures Gets(Ascii("0.l|0.o"), Ascii("l1:x1:ye"), Ascii("x"))
  {
    hide Encode, EncodeList, Resolve, Clear, PathText, Gets, HasAt, Payload, Ascii;
    PairDelivered(Int(7), Int(8), 1);
    PairDelivered(Str(Ascii("x")), Str(Ascii("y")), 0);
    TwoPickText(LIST, 1, INTEGER);
    TwoPickText(LIST, 0, OTHER);
    PathLetters();
    NumbersText();
    StringsText();
    ElementPayloads();
  }

  lemma PairDelivered(x: Value, y: Value, n: nat)
    requires x.Scalar() && y.Scalar() && TypeOf(x) == TypeOf(y) && n < 2
    ensures Gets(PathText([Pick(0, LIST), Pick(n, TypeOf(x))], false), Encode(List([x, y])), Payload([x, y][n]))
  {
    hide Encode, EncodeList, Resolve, Clear, PathText, Gets, HasAt, Payload, TypeOf;
    var s := Encode(List([x, y]));
    PairInList(x, y, n);
    WholeHasAt(s);
    SingleHasAt(List([x, y]), s, 0);
    PathGets([List([x, y])], [Pick(0, LIST), Pick(n, TypeOf(x))], false, s);
  }

  lemma PathLetters()
    ensures Ascii("0.l|1.i") == ['0' as int, '.' as int, LIST, '|' as int, '0' as int + 1, '.' as int, INTEGER]
    ensures Ascii("0.l|0.o") == ['0' as int, '.' as int, LIST, '|' as int, '0' as int + 0, '.' as int, OTHER]
    ensures TypeOf(Int(7)) == INTEGER && TypeOf(Str(Ascii("x"))) == OTHER && TypeOf(Str(Ascii("y"))) == OTHER
    ensures TypeOf(Int(8)) == INTEGER
  {
  }

  lemma EncodeTwo(x: Value, y: Value)
    ensures Encode(List([x, y])) == ['l' as int] + Encode(x) + Encode(y) + ['e' as int]
  {
    hide Encode, EncodeList;
    assert [x, y] == [x] + [y];
    EncodeListConcat([x], [y]);
    EncodeOne(x);
    EncodeOne(y);
    EncodeCases(List([x, y]));
  }

  lemma NumbersText()
    ensures Encode(List([Int(7), Int(8)])) == Ascii("li7ei8ee")
  {
    hide Dec;
    DecDigit(7);
    DecDigit(8);
    EncodeTwo(Int(7), Int(8));
  }

  lemma StringsText()
    ensures Encode(List([Str(Ascii("x")), Str(Ascii("y"))])) == Ascii("l1:x1:ye")
  {
    hide EncodeStr;
    ShortStr(Ascii("x"));
    ShortStr(Ascii("y"));
    EncodeTwo(Str(Ascii("x")), Str(Ascii("y")));
  }

  lemma ElementPayloads()
    ensures Payload([Int(7), Int(8)][1]) == Ascii("8")
    ensures Payload([Str(Ascii("x")), Str(Ascii("y"))][0]) == Ascii("x")
  {
    hide Dec;
    DecDigit(8);
  }

  /** The path the header gives as an example (src/headers/bencode.h:60), with the delimiter that the
      code uses: through a dictionary, a dictionary and a list to an integer. */
  lemma DocumentedPath()
    ensures PathText([Pick(2, DICTIONARY), Key(Ascii("first")), Pick(0, DICTIONARY), Key(Ascii("inner")),
                      Pick(0, LIST), Pick(3, INTEGER)], false)
         == Ascii("2.d|first|0.d|inner|0.l|3.i")
  {
    hide Dec, PathText, Ascii;
    var first, inner := Ascii("first"), Ascii("inner");
    var tail := [Pick(0, LIST), Pick(3, INTEGER)];
    var middle := [Pick(0, DICTIONARY), Key(inner)] + tail;
    var all := [Pick(2, DICTIONARY), Key(first)] + middle;
    TwoPickText(LIST, 3, INTEGER);
    KeyText(0, inner, tail);
    KeyText(2, first, middle);
    assert all == [Pick(2, DICTIONARY), Key(first), Pick(0, DICTIONARY), Key(inner), Pick(0, LIST), Pick(3, INTEGER)];
    InnerText();
    OuterText();
  }

  lemma InnerText()
    ensures ['0' as int + 0, '.' as int, 'd' as int, '|' as int] + Ascii("inner") + ['|' as int]
          + ['0' as int, '.' as int, LIST, '|' as int, '0' as int + 3, '.' as int, INTEGER]
         == Ascii("0.d|inner|0.l|3.i")
  {
  }

  lemma OuterText()
    ensures ['0' as int + 2, '.' as int, 'd' as int, '|' as int] + Ascii("first") + ['|' as int]
          + Ascii("0.d|inner|0.l|3.i") == Ascii("2.d|first|0.d|inner|0.l|3.i")
  {
  }

  lemma KeyText(n: nat, key: bytes, rest: seq<PathStep>)
    requires n < 10 && rest != []
    ensures PathText([Pick(n, DICTIONARY), Key(key)] + rest, false)
         == ['0' as int + n, '.' as int, 'd' as int, '|' as int] + key + ['|' as int] + PathText(rest, false)
  {
    hide Dec, PathText;
    var steps := [Pick(n, DICTIONARY), Key(key)] + rest;
    DecDigit(n);
    PathTextCons(steps, false);
    assert steps[1..] == [Key(key)] + rest;
    PathTextCons(steps[1..], false);
    assert steps[1..][1..] == rest;
  }

  // ---------- an insertion ----------

  function WithInfo(xs: seq<Value>): Value {
    Dict([Entry(Ascii("info"), List(xs)), Entry(Ascii("announce"), Str(Ascii("http")))])
  }

  const NO_STEPS: seq<PathStep> := []
  const LIST_STEPS: seq<PathStep> := [Pick(0, DICTIONARY), Key(Ascii("info")), Pick(0, LIST)]

  /** A call as in the sequence sketched in src/temp.c:21-25: -17 goes into the list under `info`, and
      nothing else changes. */
  lemma NumberInserted()
    ensures var s, path := Ascii("d4:infole8:announce4:httpe"), Ascii("0.d|info|0.l|");
            && CanInsert(s, |s|, path)
            && Inserted(s, |s|, path, Ascii("i-17e")) == Ascii("d4:infoli-17ee8:announce4:httpe")
  {
    hide Encode, EncodeList, Edit, Editable, Clear, PathText, Inserted, CanInsert, Ascii, NoNulsAhead, NoNulsItem,
      InsertedText, WithInfo;
    var v, v', item := WithInfo([]), WithInfo([Int(-17)]), Elem(Int(-17));
    var s := Encode(v);
    InfoTexts();
    ListStepsText();
    NumberText(item);
    EncodeOne(v);
    EncodeOne(v');
    NumberGoes(item);
    NoNulsThere(item);
    assert s[..|s|] == s;
    InsertionExact([v], LIST_STEPS, true, item, s, |s|);
  }

  lemma NumberText(item: Item)
    requires item == Elem(Int(-17))
    ensures InsertedText(item) == Ascii("i-17e") && EncodeInt(-17) == Ascii("i-17e")
  {
    hide Dec, CStr;
    DecDigit(1);
    DecStep(1, 7);
    IntIsWhole(-17);
  }

  lemma NoNulsThere(item: Item)
    requires item == Elem(Int(-17))
    ensures NoNulsItem(item) && NoNulsAhead(Siblings([WithInfo([])]))
  {
    hide PlainKey, Ascii, NulFree;
    PlainLiteral("info");
    PlainLiteral("announce");
    PlainLiteral("http");
    assert NoNuls(Str(Ascii("http"))) && NoNuls(List([]));
  }

  lemma NumberGoes(item: Item)
    requires item == Elem(Int(-17))
    ensures var c := Siblings([WithInfo([])]);
            && Editable(c, LIST_STEPS, true, item) && Clear(c, LIST_STEPS, true)
            && Edit(c, LIST_STEPS, true, item).xs == [WithInfo([Int(-17)])]
  {
    hide CountOf, Nth, Reached, WayTo, Ascii, NulFree, PlainKey, CStr, ElemStart, ValueStart;
    var info := Ascii("info");
    var v, inner := WithInfo([]), List([]);
    var tail := LIST_STEPS[1..];
    PlainLiteral("info");
    CStrSelf(info);
    assert KeyIndex(info, v.es) == 0;
    OnlyElement(v);
    OnlyElement(inner);
    ScalarsMeet(info, v.es, 0);
    assert tail == [Key(info), Pick(0, LIST)] && tail[1..] == [Pick(0, LIST)];
    ListGoes(item);
    assert Editable(Entries(v.es), tail, true, item);
    assert Resolve(Siblings([v]), LIST_STEPS, true) == Resolve(Entries(v.es), tail, true).Behind(ElemStart([v], 0) + 1);
    assert Editable(Siblings([v]), LIST_STEPS, true, item);
    assert Edit(Entries(v.es), tail, true, item).es == WithInfo([Int(-17)]).es;
    var v' := WithInfo([Int(-17)]);
    assert [v][0 := v'] == [v'];
  }

  lemma ListGoes(item: Item)
    requires item == Elem(Int(-17))
    ensures var c, steps := Siblings([List([])]), [Pick(0, LIST)];
            && Resolve(c, steps, true) != Nowhere && Editable(c, steps, true, item) && Clear(c, steps, true)
            && Edit(c, steps, true, item).xs == [List([Int(-17)])]
  {
    hide CountOf, Nth, Reached, ElemStart;
    OnlyElement(List([]));
    assert [Pick(0, LIST)][1..] == NO_STEPS;
    assert [item.value] + [] == [Int(-17)];
    assert Edit(Siblings([]), NO_STEPS, true, item).xs == [Int(-17)];
    var x: Value, x': Value := List([]), List([Int(-17)]);
    assert [x][0 := x'] == [x'];
  }

  lemma ListStepsText()
    ensures PathText(LIST_STEPS, true) == Ascii("0.d|info|0.l|")
  {
    hide Dec, PathText, StepText, Ascii;
    var tail := [Pick(0, LIST)];
    PathTextCons(LIST_STEPS, true);
    assert LIST_STEPS[1..][1..] == tail;
    PathTextCons(LIST_STEPS[1..], true);
    PathTextCons(tail, true);
    assert |tail[1..]| == 0;
    NoText();
    KeyStepText(Ascii("info"));
    StepLetters();
    ListPathText();
  }

  lemma StepLetters()
    ensures StepText(Pick(0, DICTIONARY)) == ['0' as int, '.' as int, 'd' as int]
    ensures StepText(Pick(0, LIST)) == ['0' as int, '.' as int, 'l' as int]
  {
    hide Dec;
    DecDigit(0);
  }

  lemma ListPathText()
    ensures ['0' as int, '.' as int, 'd' as int] + [PATH_DELIMITER]
          + (Ascii("info") + [PATH_DELIMITER] + (['0' as int, '.' as int, 'l' as int] + [PATH_DELIMITER] + []))
         == Ascii("0.d|info|0.l|")
  {
  }

  lemma InfoTexts()
    ensures Encode(WithInfo([])) == Ascii("d4:infole8:announce4:httpe")
    ensures Encode(WithInfo([Int(-17)])) == Ascii("d4:infoli-17ee8:announce4:httpe")
  {
    hide EncodeEntries, EncodeStr, EncodeInt, EncodeList, Ascii;
    var info, announce, http := Ascii("info"), Ascii("announce"), Ascii("http");
    ShortStr(info);
    ShortStr(announce);
    ShortStr(http);
    NumberText(Elem(Int(-17)));
    EncodeOne(Int(-17));
    EncodePair(Entry(info, List([])), Entry(announce, Str(http)));
    EncodePair(Entry(info, List([Int(-17)])), Entry(announce, Str(http)));
    EncodeDict(WithInfo([]).es);
    EncodeDict(WithInfo([Int(-17)]).es);
    EmptyList();
    InfoListText();
  }

  lemma EmptyList()
    ensures EncodeList([]) == []
  {
  }

  lemma InfoListText()
    ensures var info := ['4' as int, ':' as int] + Ascii("info");
            var announce := ['8' as int, ':' as int] + Ascii("announce");
            var rest := announce + (['4' as int, ':' as int] + Ascii("http"));
            && ['d' as int] + (info + (['l' as int] + [] + ['e' as int]) + rest) + ['e' as int]
            == Ascii("d4:infole8:announce4:httpe")
            && ['d' as int] + (info + (['l' as int] + Ascii("i-17e") + ['e' as int]) + rest) + ['e' as int]
            == Ascii("d4:infoli-17ee8:announce4:httpe")
  {
    hide Ascii;
    var info, announce := ['4' as int, ':' as int] + Ascii("info"), ['8' as int, ':' as int] + Ascii("announce");
    var rest := announce + (['4' as int, ':' as int] + Ascii("http"));
    StartText();
    EndText();
    BeforeText();
    AfterText();
    Enclosing(['d' as int], info, ['l' as int], [], ['e' as int], rest);
    Enclosing(['d' as int], info, ['l' as int], Ascii("i-17e"), ['e' as int], rest);
  }

  lemma Enclosing(o: bytes, a: bytes, l: bytes, x: bytes, e: bytes, r: bytes)
    ensures o + (a + (l + x + e) + r) + e == (o + a + l) + x + (e + r + e)
  {
  }

  lemma StartText()
    ensures ['d' as int] + (['4' as int, ':' as int] + Ascii("info")) + ['l' as int] == Ascii("d4:infol")
  {
  }

  lemma EndText()
    ensures ['e' as int] + ((['8' as int, ':' as int] + Ascii("announce")) + (['4' as int, ':' as int] + Ascii("http")))
          + ['e' as int] == Ascii("e8:announce4:httpe")
  {
  }

  lemma BeforeText()
    ensures Ascii("d4:infol") + [] + Ascii("e8:announce4:httpe") == Ascii("d4:infole8:announce4:httpe")
  {
  }

  lemma AfterText()
    ensures Ascii("d4:infol") + Ascii("i-17e") + Ascii("e8:announce4:httpe") == Ascii("d4:infoli-17ee8:announce4:httpe")
  {
  }

  // ---------- printing ----------

  /** A number, a string and a dictionary, as `b_print` walks over them. */
  lemma ThreeShown()
    ensures Tree(Ascii("i7e1:xd1:yi8ee"), 0, 'l' as int)
         == Walk(14, ListNode([Number(Ascii("7")), Text(Ascii("x")),
                               DictNode([Text(Ascii("y")), Number(Ascii("8"))])]))
  {
    hide Tree, EncodeList, DisplayList, Ascii;
    var xs := [Int(7), Str(Ascii("x")), Dict([Entry(Ascii("y"), Int(8))])];
    ThreeText(xs);
    PrintShowsAll(xs);
    ThreeDisplayed(xs);
  }

  lemma ThreeText(xs: seq<Value>)
    requires xs == [Int(7), Str(Ascii("x")), Dict([Entry(Ascii("y"), Int(8))])]
    ensures EncodeList(xs) == Ascii("i7e1:xd1:yi8ee") && |EncodeList(xs)| == 14
  {
    hide Dec, EncodeStr, EncodeInt, EncodeEntries, EncodeList, Ascii;
    var x, y := Ascii("x"), Ascii("y");
    OneDigit(7);
    OneDigit(8);
    ShortStr(x);
    ShortStr(y);
    EncodeDict([Entry(y, Int(8))]);
    EncodeOneEntry(y, Int(8));
    ThreeEncoded(xs);
    ThreeLetters();
  }

  lemma OneDigit(n: nat)
    requires n < 10
    ensures EncodeInt(n) == ['i' as int, '0' as int + n, 'e' as int]
  {
    hide Dec;
    DecDigit(n);
  }

  lemma ThreeLetters()
    ensures ['i' as int, '0' as int + 7, 'e' as int] + (['0' as int + 1, ':' as int] + Ascii("x"))
          + (['d' as int] + ((['0' as int + 1, ':' as int] + Ascii("y")) + ['i' as int, '0' as int + 8, 'e' as int])
             + ['e' as int])
         == Ascii("i7e1:xd1:yi8ee")
  {
  }

  lemma ThreeEncoded(xs: seq<Value>)
    requires |xs| == 3
    ensures EncodeList(xs) == Encode(xs[0]) + Encode(xs[1]) + Encode(xs[2])
  {
    hide Encode, EncodeList;
    assert xs == [xs[0]] + [xs[1]] + [xs[2]];
    EncodeListConcat([xs[0]] + [xs[1]], [xs[2]]);
    EncodeListConcat([xs[0]], [xs[1]]);
    EncodeOne(xs[0]);
    EncodeOne(xs[1]);
    EncodeOne(xs[2]);
  }

  lemma ThreeDisplayed(xs: seq<Value>)
    requires xs == [Int(7), Str(Ascii("x")), Dict([Entry(Ascii("y"), Int(8))])]
    ensures DisplayList(xs) == [Number(Ascii("7")), Text(Ascii("x")),
                                DictNode([Text(Ascii("y")), Number(Ascii("8"))])]
  {
    hide Dec;
    DecDigit(7);
    DecDigit(8);
    var es := xs[2].es;
    assert IntText(7) == Ascii("7") && IntText(8) == Ascii("8");
    assert es[1..] == [] && DisplayEntries(es[1..]) == [];
    assert Display(Int(8)) == Number(Ascii("8"));
    assert DisplayEntries(es) == [Text(es[0].key), Display(es[0].value)] + DisplayEntries(es[1..]);
    assert DisplayEntries(es) == [Text(Ascii("y")), Number(Ascii("8"))];
    assert Display(xs[2]) == DictNode(DisplayEntries(es));
    assert xs[1..][1..] == [xs[2]] && [xs[2]][1..] == [];
    assert DisplayList([xs[2]]) == [Display(xs[2])];
    assert DisplayList(xs[1..]) == [Display(xs[1])] + DisplayList([xs[2]]);
  }
}
