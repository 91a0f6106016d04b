/** The recursive walkers `b_print_*`: a second parser of the same grammar. Kept are the control
    flow, the consumed length and the bytes each node passes; left out is the printed layout. */
module Printer {
  import opened Bytes
  import opened Bencode
  import opened Scan
  import opened ListLookup
  import opened DictLookup

  /** What a walker shows: no values are decoded, and a dictionary is a flat list of nodes. */
  datatype Node =
    | Text(b: bytes)
    | Number(text: bytes)
    | ListNode(nodes: seq<Node>)
    | DictNode(nodes: seq<Node>)
    | Unknown(ty: byte)

  /** Where a walk ends and what it has shown. */
  datatype Walk<T> = Walk(next: nat, shown: T)

  /** One turn of the loop of `b_print_list` and of `b_print_dict` at a byte that is no end token. */
  function Item(s: bytes, p: nat): (w: Walk<Node>)
    requires p < |s|
    ensures w.next > p
    decreases |s| - p, 0
  {
    if GetType(s[p]) == OTHER then Walk(TextEnd(s, p), Text(Between(s, p + |Digits(s, p)| + 1, TextEnd(s, p))))
    else Tree(s, p + 1, GetType(s[p]))
  }

  /** That loop, up to the end token or the end of the string. */
  function Items(s: bytes, p: nat): (w: Walk<seq<Node>>)
    ensures w.next >= p
    decreases |s| - p, 1
  {
    if p >= |s| then Walk(p, [])
    else if s[p] == END then Walk(p + 1, [])
    else
      var one := Item(s, p);
      var rest := Items(s, one.next);
      Walk(rest.next, [one.shown] + rest.shown)
  }

  /** `b_print_tree`, just behind a type token. */
  function Tree(s: bytes, p: nat, ty: byte): (w: Walk<Node>)
    requires p <= |s|
    ensures w.next >= p
    decreases |s| - p, 2
  {
    if ty == LIST then
      var w := Items(s, p);
      Walk(w.next, ListNode(w.shown))
    else if ty == DICTIONARY then
      var w := Items(s, p);
      Walk(w.next, DictNode(w.shown))
    else if ty == INTEGER then
      var n := EndRun(s, p);
      Walk(p + n + 1, Number(s[p..p + n]))
    else Walk(p, Unknown(ty))
  }

  method PrintTree(str: bytes, at: nat, ty: byte) returns (i: nat, shown: Node)
    requires at <= |str|
    ensures Walk(at + i, shown) == Tree(str, at, ty)
    decreases |str| - at, 2
  {
    i := 0;
    if ty == LIST {
      var nodes;
      i, nodes := PrintList(str, at);
      shown := ListNode(nodes);
    } else if ty == DICTIONARY {
      var nodes;
      i, nodes := PrintDict(str, at);
      shown := DictNode(nodes);
    } else if ty == INTEGER {
      var text;
      i, text := PrintInteger(str, at);
      shown := Number(text);
    } else {
      shown := Unknown(ty);
    }
  }

  method PrintInteger(str: bytes, at: nat) returns (consumed: nat, text: bytes)
    requires at <= |str|
    ensures consumed == EndRun(str, at) + 1 && text == str[at..at + EndRun(str, at)]
  {
    var i := 0;
    text := [];
    while at + i < |str| && str[at + i] != END
      invariant at + i <= |str| && text == str[at..at + i]
      invariant EndRun(str, at) == i + EndRun(str, at + i)
    {
      text := text + [str[at + i]];
      i := i + 1;
    }
    return i + 1, text;
  }

  method PrintList(str: bytes, at: nat) returns (i: nat, shown: seq<Node>)
    requires at <= |str|
    ensures Walk(at + i, shown) == Items(str, at)
    decreases |str| - at, 1
  {
    hide Digits, DigitsValue, Between, Tree, GetType;
    ghost var goal := Items(str, at);
    i, shown := 0, [];
    while at + i < |str|
      invariant goal.next == Items(str, at + i).next && goal.shown == shown + Items(str, at + i).shown
      decreases |str| - at - i
    {
      ghost var rest := Items(str, at + i);
      if str[at + i] == END {
        assert shown + [] == shown;
        return i + 1, shown;
      }
      var one, node := PrintItem(str, at + i);
      i := i + one;
      shown := shown + [node];
      assert rest.shown == [node] + Items(str, at + i).shown;
    }
    assert shown + [] == shown;
  }

  method PrintDict(str: bytes, at: nat) returns (i: nat, shown: seq<Node>)
    requires at <= |str|
    ensures Walk(at + i, shown) == Items(str, at)
    decreases |str| - at, 1
  {
    hide Digits, DigitsValue, Between, Tree, GetType;
    ghost var goal := Items(str, at);
    i, shown := 0, [];
    var keyValueToggle := 0;
    while at + i < |str|
      invariant goal.next == Items(str, at + i).next && goal.shown == shown + Items(str, at + i).shown
      invariant keyValueToggle == |shown| % 2
      decreases |str| - at - i
    {
      ghost var rest := Items(str, at + i);
      if str[at + i] == END {
        assert shown + [] == shown;
        return i + 1, shown;
      }
      var one, node := PrintItem(str, at + i);
      i := i + one;
      shown := shown + [node];
      assert rest.shown == [node] + Items(str, at + i).shown;
      keyValueToggle := if keyValueToggle == 1 then 0 else 1;
    }
    assert shown + [] == shown;
  }

  /** The branch both loops share. */
  method PrintItem(str: bytes, at: nat) returns (i: nat, node: Node)
    requires at < |str|
    ensures i > 0 && Walk(at + i, node) == Item(str, at)
    decreases |str| - at, 0
  {
    hide Digits, DigitsValue, Tree;
    var ty := GetType(str[at]);
    if ty == OTHER {
      var strObjLen := ReadDigits(str, at);
      var objLen := DigitsValue(strObjLen);
      i := |strObjLen| + 1;
      node := Text(Between(str, at + i, at + i + objLen));
      i := i + objLen;
    } else {
      i := 1;
      var n;
      n, node := PrintTree(str, at + i, ty);
      i := i + n;
    }
  }

  // ---------- the walkers read back exactly what was encoded ----------

  function Display(v: Value): Node
    decreases v, 0
  {
    match v
    case Int(n) => Number(IntText(n))
    case Str(b) => Text(b)
    case List(xs) => ListNode(DisplayList(xs))
    case Dict(es) => DictNode(DisplayEntries(es))
  }

  function DisplayList(xs: seq<Value>): seq<Node>
    decreases xs, 1
  {
    if xs == [] then [] else [Display(xs[0])] + DisplayList(xs[1..])
  }

  function DisplayEntries(es: seq<Entry>): seq<Node>
    decreases es, 1
  {
    if es == [] then [] else [Text(es[0].key), Display(es[0].value)] + DisplayEntries(es[1..])
  }

  lemma UnfoldDisplay(v: Value)
    ensures v.List? ==> Encode(v) == [LIST] + EncodeList(v.xs) + [END] && Display(v) == ListNode(DisplayList(v.xs))
    ensures v.Dict? ==>
              Encode(v) == [DICTIONARY] + EncodeEntries(v.es) + [END] && Display(v) == DictNode(DisplayEntries(v.es))
  {
  }

  lemma UnfoldItems(s: bytes, p: nat)
    requires p < |s|
    ensures s[p] == END ==> Items(s, p) == Walk(p + 1, [])
    ensures s[p] != END ==>
              var one := Item(s, p);
              var rest := Items(s, one.next);
              Items(s, p) == Walk(rest.next, [one.shown] + rest.shown)
  {
  }

  lemma UnfoldItem(s: bytes, p: nat)
    requires p < |s|
    ensures s[p] == LIST || s[p] == DICTIONARY ==>
              var w := Items(s, p + 1);
              Item(s, p) == Walk(w.next, if s[p] == LIST then ListNode(w.shown) else DictNode(w.shown))
  {
  }

  lemma ItemOfInt(n: int, s: bytes, p: nat)
    requires HasAt(s, p, EncodeInt(n))
    ensures p < |s| && Item(s, p) == Walk(p + |EncodeInt(n)|, Number(IntText(n)))
  {
    hide HasAt, EndRun, IntText, Between, Digits, DigitsValue, Items;
    HasAtByte(s, p, EncodeInt(n), 0);
    IntExtent(s, p, n);
    HasAtConcat(s, p + 1, IntText(n), [END]);
    SliceAt(s, p + 1, IntText(n));
  }

  lemma ItemOfStr(b: bytes, s: bytes, p: nat)
    requires HasAt(s, p, EncodeStr(b))
    ensures p < |s| && Item(s, p) == Walk(p + |EncodeStr(b)|, Text(b))
  {
    hide HasAt, Digits, DigitsValue, Dec, Between, Tree;
    HasAtByte(s, p, EncodeStr(b), 0);
    StrPrefix(s, p, b);
    SliceAt(s, p + |Dec(|b|)| + 1, b);
  }

  lemma ItemOfScalar(v: Value, s: bytes, p: nat)
    requires v.Scalar() && HasAt(s, p, Encode(v))
    ensures p < |s| && Item(s, p) == Walk(p + |Encode(v)|, Display(v))
  {
    hide HasAt, EncodeStr, EncodeInt, Item;
    if v.Int? {
      ItemOfInt(v.n, s, p);
    } else {
      ItemOfStr(v.b, s, p);
    }
  }

  /** At the encoding of any value the walker shows that value and stops just behind it, whatever
      bytes follow. */
  lemma {:induction false} ItemOf(v: Value, s: bytes, p: nat)
    requires HasAt(s, p, Encode(v))
    ensures p < |s| && Item(s, p) == Walk(p + |Encode(v)|, Display(v))
    decreases v, 0
  {
    hide HasAt, Encode, EncodeList, EncodeEntries, Display, DisplayList, DisplayEntries, Item, Items;
    UnfoldDisplay(v);
    match v
    case Int(_) =>
      ItemOfScalar(v, s, p);
    case Str(_) =>
      ItemOfScalar(v, s, p);
    case List(xs) =>
      Bracketed(s, p, LIST, EncodeList(xs));
      ItemsOfList(xs, s, p + 1);
      UnfoldItem(s, p);
    case Dict(es) =>
      Bracketed(s, p, DICTIONARY, EncodeEntries(es));
      ItemsOfEntries(es, s, p + 1);
      UnfoldItem(s, p);
  }

  lemma {:induction false} ItemsOfList(xs: seq<Value>, s: bytes, p: nat)
    requires HasAt(s, p, EncodeList(xs)) && ByteAt(s, p + |EncodeList(xs)|) == END
    ensures Items(s, p) == Walk(p + |EncodeList(xs)| + 1, DisplayList(xs))
    decreases xs, 1
  {
    hide HasAt, Encode, Display, Item, Items;
    if xs == [] {
      UnfoldItems(s, p);
    } else {
      SplitList(xs, s, p);
      FirstByte(xs[0], s, p);
      ItemOf(xs[0], s, p);
      ItemsOfList(xs[1..], s, p + |Encode(xs[0])|);
      UnfoldItems(s, p);
    }
  }

  /** Over siblings that end the string, without an end token. */
  lemma {:induction false} ItemsToEnd(xs: seq<Value>, s: bytes, p: nat)
    requires HasAt(s, p, EncodeList(xs)) && |s| == p + |EncodeList(xs)|
    ensures Items(s, p) == Walk(|s|, DisplayList(xs))
    decreases |xs|
  {
    hide HasAt, Encode, Display, Item, Items;
    if xs == [] {
      ItemsAtEnd(s);
    } else {
      SplitList(xs, s, p);
      FirstByte(xs[0], s, p);
      ItemOf(xs[0], s, p);
      ItemsToEnd(xs[1..], s, p + |Encode(xs[0])|);
      UnfoldItems(s, p);
    }
  }

  lemma ItemsAtEnd(s: bytes)
    ensures Items(s, |s|) == Walk(|s|, [])
  {
  }

  /** `b_print` on any values one behind the other shows all of them and ends with the string. */
  lemma PrintShowsAll(xs: seq<Value>)
    ensures Tree(EncodeList(xs), 0, 'l' as int) == Walk(|EncodeList(xs)|, ListNode(DisplayList(xs)))
  {
    hide HasAt, EncodeList, Items;
    WholeHasAt(EncodeList(xs));
    ItemsToEnd(xs, EncodeList(xs), 0);
  }

  predicate Alien(c: byte) {
    !('0' as int <= c <= '9' as int) && c !in {'i' as int, 'l' as int, 'd' as int, 'e' as int, 'o' as int}
  }

  /** Bytes that start no token are shown one by one. */
  lemma {:induction false} AliensShown(s: bytes, p: nat)
    requires p <= |s| && forall i :: p <= i < |s| ==> Alien(s[i])
    ensures var w := Items(s, p);
            && w.next == |s| && |w.shown| == |s| - p
            && forall i :: p <= i < |s| ==> w.shown[i - p] == Unknown(s[i])
    decreases |s| - p
  {
    hide Items;
    if p == |s| {
      ItemsAtEnd(s);
    } else {
      AliensShown(s, p + 1);
      UnfoldItems(s, p);
      assert Item(s, p) == Walk(p + 1, Unknown(s[p]));
    }
  }

  /** A string that announces more bytes than there are is shown as far as it goes. */
  lemma CutStringShown(s: bytes, p: nat, n: nat, t: bytes)
    requires HasAt(s, p, Dec(n) + [':' as int] + t) && |s| == p + |Dec(n)| + 1 + |t| && |t| <= n
    ensures Item(s, p) == Walk(p + |Dec(n)| + 1 + n, Text(t))
  {
    hide HasAt, Dec, Digits, DigitsValue, Tree;
    var d := Dec(n);
    HasAtConcat(s, p, d + [':' as int], t);
    HasAtConcat(s, p, d, [':' as int]);
    HasAtByte(s, p, d, 0);
    HasAtByte(s, p + |d|, [':' as int], 0);
    DigitsAre(s, p, d);
    DigitsValueOfDec(n);
    SliceAt(s, p + |d| + 1, t);
    assert s[p + |d| + 1..] == t;
  }

  lemma {:induction false} ItemsOfEntries(es: seq<Entry>, s: bytes, p: nat)
    requires HasAt(s, p, EncodeEntries(es)) && ByteAt(s, p + |EncodeEntries(es)|) == END
    ensures Items(s, p) == Walk(p + |EncodeEntries(es)| + 1, DisplayEntries(es))
    decreases es, 1
  {
    hide HasAt, Encode, EncodeStr, Item, Items;
    if es == [] {
      UnfoldItems(s, p);
    } else {
      var key, v := Str(es[0].key), es[0].value;
      EncodeOfStr(es[0].key);
      SplitEntries(es, s, p);
      var q := p + |Encode(key)|;
      FirstByte(key, s, p);
      FirstByte(v, s, q);
      ItemOfScalar(key, s, p);
      ItemOf(v, s, q);
      ItemsOfEntries(es[1..], s, q + |Encode(v)|);
      UnfoldItems(s, p);
      UnfoldItems(s, q);
      var rest := DisplayEntries(es[1..]);
      assert [Display(key)] + ([Display(v)] + rest) == [Display(key), Display(v)] + rest;
    }
  }

  /** The two parsers agree on the extent of every list and dictionary: behind the type token the
      recursive walker stops where the nesting counter of `b_get` does. */
  lemma WalkerAgreesWithCounter(v: Value, s: bytes, p: nat)
    requires !v.Scalar() && HasAt(s, p, Encode(v))
    ensures p < |s|
    ensures Tree(s, p + 1, TypeOf(v)).next == ScanClose(s, Mark(p + 1, 0)) == p + |Encode(v)|
  {
    hide HasAt, Encode, ScanClose, Tree;
    ItemOf(v, s, p);
    ScanCloseContainer(v, s, p);
    TypeOfEncoding(v);
    HasAtByte(s, p, Encode(v), 0);
  }

  // ---------- unique decodability ----------

  lemma {:induction false} DisplayInjective(v: Value, w: Value)
    requires Display(v) == Display(w)
    ensures v == w
    decreases v, 0
  {
    match v
    case Int(n) =>
      AtoiOfIntText(n);
      AtoiOfIntText(w.n);
    case Str(_) =>
    case List(xs) =>
      DisplayListInjective(xs, w.xs);
    case Dict(es) =>
      DisplayEntriesInjective(es, w.es);
  }

  lemma {:induction false} DisplayListInjective(xs: seq<Value>, ys: seq<Value>)
    requires DisplayList(xs) == DisplayList(ys)
    ensures xs == ys
    decreases xs, 1
  {
    if xs == [] || ys == [] {
    } else {
      var a, b := DisplayList(xs), DisplayList(ys);
      assert a[0] == Display(xs[0]) && a[1..] == DisplayList(xs[1..]);
      assert b[0] == Display(ys[0]) && b[1..] == DisplayList(ys[1..]);
      DisplayInjective(xs[0], ys[0]);
      DisplayListInjective(xs[1..], ys[1..]);
      assert xs == [xs[0]] + xs[1..] && ys == [ys[0]] + ys[1..];
    }
  }

  lemma {:induction false} DisplayEntriesInjective(es: seq<Entry>, fs: seq<Entry>)
    requires DisplayEntries(es) == DisplayEntries(fs)
    ensures es == fs
    decreases es, 1
  {
    if es == [] || fs == [] {
    } else {
      var a, b := DisplayEntries(es), DisplayEntries(fs);
      assert a[0] == Text(es[0].key) && a[1] == Display(es[0].value) && a[2..] == DisplayEntries(es[1..]);
      assert b[0] == Text(fs[0].key) && b[1] == Display(fs[0].value) && b[2..] == DisplayEntries(fs[1..]);
      DisplayInjective(es[0].value, fs[0].value);
      DisplayEntriesInjective(es[1..], fs[1..]);
      assert es == [es[0]] + es[1..] && fs == [fs[0]] + fs[1..];
    }
  }

  /** Encodings are prefix-free: the bytes determine the value and where it ends. */
  lemma UniquelyDecodable(v: Value, rest: bytes, w: Value, rest': bytes)
    requires Encode(v) + rest == Encode(w) + rest'
    ensures v == w && rest == rest'
  {
    hide Encode, Display, Item;
    var s := Encode(v) + rest;
    assert s[0..|Encode(v)|] == Encode(v) && s[0..|Encode(w)|] == Encode(w);
    ItemOf(v, s, 0);
    ItemOf(w, s, 0);
    DisplayInjective(v, w);
    assert rest == s[|Encode(v)|..] == rest';
  }
}
