/** What the insertions do to the tree a buffer encodes, and exactly when they do it. */
module InsertTree {
  import opened Bytes
  import opened Bencode
  import opened ListLookup
  import opened Path
  import opened KeyPaths
  import opened Insert

  // ---------- the same insertion made in the tree ----------

  datatype Item = Elem(value: Value) | Pair(key: bytes, value: Value)

  function ItemText(item: Item): bytes {
    match item
    case Elem(v) => Encode(v)
    case Pair(k, v) => EncodeStr(k) + Encode(v)
  }

  /** An element may go between the elements of a list, a pair between the entries of a
      dictionary; nothing may go between a key and its value. */
  predicate Editable(c: Cursor, steps: seq<PathStep>, closed: bool, item: Item)
    decreases |steps|
  {
    && Resolve(c, steps, closed) != Nowhere
    && if steps == [] then c.Siblings? <==> item.Elem?
       else if c.Siblings? then
         var x := c.xs[Nth(steps[0].ty, steps[0].count, c.xs)];
         if EndsOn(x, steps, closed) then item.Elem? else Editable(Body(x), steps[1..], closed, item)
       else
         var v := c.es[KeyIndex(steps[0].key, c.es)].value;
         && Editable(Siblings([v]), steps[1..], closed, item)
         && steps[1..] != [] && !EndsOn(v, steps[1..], closed)
  }

  function Rebuilt(v: Value, body: Cursor): Value
    requires !v.Scalar() && body.Siblings? == v.List?
  {
    if v.List? then List(body.xs) else Dict(body.es)
  }

  lemma EditEnters(v: Value, steps: seq<PathStep>, closed: bool, item: Item)
    requires steps != [] && Editable(Siblings([v]), steps, closed, item)
    ensures steps[0].Pick? && steps[0].count < CountOf(steps[0].ty, [v])
    ensures Nth(steps[0].ty, steps[0].count, [v]) == 0
  {
  }

  /** The tree with `item` put at the place the path names and nothing else changed. */
  function Edit(c: Cursor, steps: seq<PathStep>, closed: bool, item: Item): (c': Cursor)
    requires Editable(c, steps, closed, item)
    ensures c'.Siblings? == c.Siblings?
    ensures c.Siblings? && steps != [] && !EndsOn(c.xs[Nth(steps[0].ty, steps[0].count, c.xs)], steps, closed) ==>
              |c'.xs| == |c.xs|
    decreases |steps|
  {
    if steps == [] then
      if c.Siblings? then Siblings([item.value] + c.xs) else Entries([Entry(item.key, item.value)] + c.es)
    else if c.Siblings? then
      var k := Nth(steps[0].ty, steps[0].count, c.xs);
      if EndsOn(c.xs[k], steps, closed) then Siblings(c.xs[..k] + [item.value] + c.xs[k..])
      else Siblings(c.xs[k := Rebuilt(c.xs[k], Edit(Body(c.xs[k]), steps[1..], closed, item))])
    else
      var m := KeyIndex(steps[0].key, c.es);
      var v, rest := c.es[m].value, steps[1..];
      EditEnters(v, rest, closed, item);
      Entries(c.es[m := Entry(c.es[m].key, Edit(Siblings([v]), rest, closed, item).xs[0])])
  }

  lemma SpliceMiddle(a: bytes, m: bytes, b: bytes, offset: nat, t: bytes)
    requires offset <= |m|
    ensures Spliced(a + m + b, |a| + offset, t) == a + Spliced(m, offset, t) + b
  {
    var s := a + m + b;
    assert s[..|a| + offset] == a + m[..offset];
    assert s[|a| + offset..] == m[offset..] + b;
  }

  lemma ListAround(xs: seq<Value>, k: nat, x: Value)
    requires k < |xs|
    ensures EncodeList(xs) == EncodeList(xs[..k]) + Encode(xs[k]) + EncodeList(xs[k + 1..])
    ensures EncodeList(xs[k := x]) == EncodeList(xs[..k]) + Encode(x) + EncodeList(xs[k + 1..])
  {
    hide Encode, EncodeList;
    var a, b := xs[..k], xs[k + 1..];
    assert xs == a + [xs[k]] + b;
    assert xs[k := x] == a + [x] + b;
    ElemBetween(a, xs[k], b);
    ElemBetween(a, x, b);
  }

  lemma ElemBetween(a: seq<Value>, x: Value, b: seq<Value>)
    ensures EncodeList(a + [x] + b) == EncodeList(a) + Encode(x) + EncodeList(b)
  {
    hide Encode, EncodeList;
    EncodeListConcat(a + [x], b);
    EncodeListConcat(a, [x]);
    EncodeOne(x);
  }

  lemma EntriesAround(es: seq<Entry>, m: nat, v: Value)
    requires m < |es|
    ensures EncodeEntries(es)
         == EncodeEntries(es[..m]) + EncodeStr(es[m].key) + Encode(es[m].value) + EncodeEntries(es[m + 1..])
    ensures EncodeEntries(es[m := Entry(es[m].key, v)])
         == EncodeEntries(es[..m]) + EncodeStr(es[m].key) + Encode(v) + EncodeEntries(es[m + 1..])
  {
    hide Encode, EncodeStr, EncodeEntries;
    var a, b, key := es[..m], es[m + 1..], es[m].key;
    assert es == a + [Entry(key, es[m].value)] + b;
    assert es[m := Entry(key, v)] == a + [Entry(key, v)] + b;
    EntryBetween(a, key, es[m].value, b);
    EntryBetween(a, key, v, b);
  }

  lemma EntryBetween(a: seq<Entry>, key: bytes, v: Value, b: seq<Entry>)
    ensures EncodeEntries(a + [Entry(key, v)] + b)
         == EncodeEntries(a) + EncodeStr(key) + Encode(v) + EncodeEntries(b)
  {
    hide Encode, EncodeStr, EncodeEntries;
    EncodeEntriesConcat(a + [Entry(key, v)], b);
    EncodeEntriesConcat(a, [Entry(key, v)]);
    EncodeOneEntry(key, v);
  }

  lemma EncodeOneEntry(key: bytes, v: Value)
    ensures EncodeEntries([Entry(key, v)]) == EncodeStr(key) + Encode(v)
  {
    assert EncodeEntries([Entry(key, v)]) == EncodeStr(key) + Encode(v) + EncodeEntries([][..]);
  }

  /** Splicing an item's encoding in at the place a path names is the encoding of the tree with the
      item inserted there. */
  lemma {:induction false} EditIsSplice(c: Cursor, steps: seq<PathStep>, closed: bool, item: Item)
    requires Editable(c, steps, closed, item)
    ensures var o := Resolve(c, steps, closed).offset;
            && o <= |EncodeCursor(c)|
            && EncodeCursor(Edit(c, steps, closed, item)) == Spliced(EncodeCursor(c), o, ItemText(item))
    decreases |steps|
  {
    hide Encode, EncodeList, EncodeEntries, EncodeStr, ElemStart, ValueStart, Spliced, CStr, KeyIndex, Nth,
      CountOf;
    if steps == [] {
      EditAtFront(c, item);
    } else if c.Siblings? {
      var k := Nth(steps[0].ty, steps[0].count, c.xs);
      if EndsOn(c.xs[k], steps, closed) {
        EditBefore(c.xs, k, item.value);
      } else {
        EditIsSplice(Body(c.xs[k]), steps[1..], closed, item);
        EditInside(c.xs, k, Resolve(Body(c.xs[k]), steps[1..], closed).offset,
                   Edit(Body(c.xs[k]), steps[1..], closed, item), ItemText(item));
      }
    } else {
      var m := KeyIndex(steps[0].key, c.es);
      var v := Siblings([c.es[m].value]);
      EditIsSplice(v, steps[1..], closed, item);
      EditEnters(c.es[m].value, steps[1..], closed, item);
      var edited := Edit(v, steps[1..], closed, item).xs;
      assert edited == [edited[0]];
      EncodeOne(c.es[m].value);
      EncodeOne(edited[0]);
      EditUnderKey(c.es, m, Resolve(v, steps[1..], closed).offset, edited[0], ItemText(item));
    }
  }

  lemma EncodeOne(v: Value)
    ensures EncodeList([v]) == Encode(v)
  {
    assert EncodeList([v]) == Encode(v) + EncodeList([][..]);
  }

  /** The cursor's tree with `item` put at an address: child indices down to a boundary index. */
  function Put(c: Cursor, address: seq<nat>, item: Item): Option<Cursor>
    decreases |address|
  {
    if address == [] then None
    else
      var k := address[0];
      if |address| == 1 then
        if c.Siblings? && item.Elem? && k <= |c.xs| then Some(Siblings(c.xs[..k] + [item.value] + c.xs[k..]))
        else if c.Entries? && item.Pair? && k <= |c.es| then
          Some(Entries(c.es[..k] + [Entry(item.key, item.value)] + c.es[k..]))
        else None
      else if c.Siblings? && k < |c.xs| && !c.xs[k].Scalar() then
        var body := Put(Body(c.xs[k]), address[1..], item);
        if body.None? || body.value.Siblings? != c.xs[k].List? then None
        else Some(Siblings(c.xs[k := Rebuilt(c.xs[k], body.value)]))
      else if c.Entries? && k < |c.es| && !c.es[k].value.Scalar() then
        var body := Put(Body(c.es[k].value), address[1..], item);
        if body.None? || body.value.Siblings? != c.es[k].value.List? then None
        else Some(Entries(c.es[k := Entry(c.es[k].key, Rebuilt(c.es[k].value, body.value))]))
      else None
  }

  /** Where that boundary lies in the encoding. */
  function Boundary(c: Cursor, address: seq<nat>, item: Item): nat
    requires Put(c, address, item).Some?
    decreases |address|
  {
    var k := address[0];
    if |address| == 1 then if c.Siblings? then ElemStart(c.xs, k) else |EncodeEntries(c.es[..k])|
    else if c.Siblings? then ElemStart(c.xs, k) + 1 + Boundary(Body(c.xs[k]), address[1..], item)
    else ValueStart(c.es, k) + 1 + Boundary(Body(c.es[k].value), address[1..], item)
  }

  /** Splicing an encoding in at any boundary between the elements or entries of any list or
      dictionary, at any depth, is inserting it there in the tree and nothing else. */
  lemma {:induction false} PutIsSplice(c: Cursor, address: seq<nat>, item: Item)
    requires Put(c, address, item).Some?
    ensures Boundary(c, address, item) <= |EncodeCursor(c)|
    ensures EncodeCursor(Put(c, address, item).value)
         == Spliced(EncodeCursor(c), Boundary(c, address, item), ItemText(item))
    decreases |address|
  {
    hide Encode, EncodeList, EncodeEntries, EncodeStr, ElemStart, ValueStart, Spliced;
    var k := address[0];
    if |address| == 1 {
      if c.Siblings? {
        EditBefore(c.xs, k, item.value);
      } else {
        EntryBefore(c.es, k, item.key, item.value);
      }
    } else if c.Siblings? {
      var inner, body := Body(c.xs[k]), Put(Body(c.xs[k]), address[1..], item).value;
      PutIsSplice(inner, address[1..], item);
      EditInside(c.xs, k, Boundary(inner, address[1..], item), body, ItemText(item));
    } else {
      var v := c.es[k].value;
      var body, o := Put(Body(v), address[1..], item).value, Boundary(Body(v), address[1..], item);
      PutIsSplice(Body(v), address[1..], item);
      EditBody(v, o, body, ItemText(item));
      EditUnderKey(c.es, k, 1 + o, Rebuilt(v, body), ItemText(item));
    }
  }

  lemma EntryBefore(es: seq<Entry>, k: nat, key: bytes, v: Value)
    requires k <= |es|
    ensures |EncodeEntries(es[..k])| <= |EncodeEntries(es)|
    ensures EncodeEntries(es[..k] + [Entry(key, v)] + es[k..])
         == Spliced(EncodeEntries(es), |EncodeEntries(es[..k])|, EncodeStr(key) + Encode(v))
  {
    hide Encode, EncodeStr, EncodeEntries;
    var a, b := es[..k], es[k..];
    EntryBetween(a, key, v, b);
    EncodeEntriesConcat(a, b);
    assert a + b == es;
  }

  lemma EditAtFront(c: Cursor, item: Item)
    requires c.Siblings? <==> item.Elem?
    ensures EncodeCursor(Edit(c, [], true, item)) == Spliced(EncodeCursor(c), 0, ItemText(item))
    ensures Edit(c, [], true, item) == Edit(c, [], false, item)
  {
    hide Encode, EncodeStr;
    if c.Siblings? {
      assert ([item.value] + c.xs)[1..] == c.xs;
    } else {
      assert ([Entry(item.key, item.value)] + c.es)[1..] == c.es;
    }
  }

  lemma EditBefore(xs: seq<Value>, k: nat, x: Value)
    requires k <= |xs|
    ensures ElemStart(xs, k) <= |EncodeList(xs)|
    ensures EncodeList(xs[..k] + [x] + xs[k..]) == Spliced(EncodeList(xs), ElemStart(xs, k), Encode(x))
  {
    hide Encode, EncodeList;
    var a, b := xs[..k], xs[k..];
    ElemBetween(a, x, b);
    EncodeListConcat(a, b);
    assert a + b == xs;
  }

  lemma EditInside(xs: seq<Value>, k: nat, o: nat, body: Cursor, t: bytes)
    requires k < |xs| && !xs[k].Scalar() && body.Siblings? == xs[k].List?
    requires o <= |EncodeCursor(Body(xs[k]))| && EncodeCursor(body) == Spliced(EncodeCursor(Body(xs[k])), o, t)
    ensures ElemStart(xs, k) + 1 + o <= |EncodeList(xs)|
    ensures EncodeList(xs[k := Rebuilt(xs[k], body)]) == Spliced(EncodeList(xs), ElemStart(xs, k) + 1 + o, t)
  {
    hide EncodeList, EncodeEntries, Encode, Spliced;
    var x, x' := xs[k], Rebuilt(xs[k], body);
    EditBody(x, o, body, t);
    ListAround(xs, k, x');
    SpliceMiddle(EncodeList(xs[..k]), Encode(x), EncodeList(xs[k + 1..]), 1 + o, t);
  }

  lemma EditBody(x: Value, o: nat, body: Cursor, t: bytes)
    requires !x.Scalar() && body.Siblings? == x.List?
    requires o <= |EncodeCursor(Body(x))| && EncodeCursor(body) == Spliced(EncodeCursor(Body(x)), o, t)
    ensures 1 + o <= |Encode(x)| && Encode(Rebuilt(x, body)) == Spliced(Encode(x), 1 + o, t)
  {
    hide EncodeList, EncodeEntries, Spliced;
    var open, old' := if x.List? then LIST else DICTIONARY, EncodeCursor(Body(x));
    SpliceMiddle([open], old', [END], o, t);
  }

  lemma EditUnderKey(es: seq<Entry>, m: nat, o: nat, v: Value, t: bytes)
    requires m < |es|
    requires o <= |Encode(es[m].value)| && Encode(v) == Spliced(Encode(es[m].value), o, t)
    ensures ValueStart(es, m) + o <= |EncodeEntries(es)|
    ensures EncodeEntries(es[m := Entry(es[m].key, v)]) == Spliced(EncodeEntries(es), ValueStart(es, m) + o, t)
  {
    hide Encode, EncodeStr, EncodeEntries;
    EntriesAround(es, m, v);
    SpliceMiddle(EncodeEntries(es[..m]) + EncodeStr(es[m].key), Encode(es[m].value), EncodeEntries(es[m + 1..]), o, t);
  }

  lemma EditableResolves(c: Cursor, steps: seq<PathStep>, closed: bool, item: Item)
    requires Editable(c, steps, closed, item)
    ensures Resolve(c, steps, closed) != Nowhere
  {
  }

  /** On the encoding of a tree, a clear path takes `b_get_offset` to a boundary of the string, and
      splicing the item's encoding in there gives the encoding of the tree with the item at the
      place the path names. */
  lemma EditByPath(xs: seq<Value>, steps: seq<PathStep>, closed: bool, item: Item)
    requires Editable(Siblings(xs), steps, closed, item) && Clear(Siblings(xs), steps, closed)
    ensures var s := EncodeList(xs);
            var o := Follow(PathText(steps, closed), s);
            && 0 <= o <= |s|
            && Spliced(s, o, ItemText(item)) == EncodeList(Edit(Siblings(xs), steps, closed, item).xs)
  {
    hide EncodeList, EncodeEntries, CStr, NulFree, PathScan, PathText, Spliced, Spells, Clear, HasAt, Edit, Editable,
      Resolve, ItemText;
    var s := EncodeList(xs);
    EditableResolves(Siblings(xs), steps, closed, item);
    PathIsCStr(Siblings(xs), steps, closed);
    WholeHasAt(s);
    WholePath(PathText(steps, closed), steps, closed);
    PathLeadsTo(Siblings(xs), steps, closed, PathText(steps, closed), 0, s, 0);
    EditIsSplice(Siblings(xs), steps, closed, item);
  }

  // ---------- exactly when the program makes that insertion ----------

  /** No string or key anywhere in the value holds a NUL. */
  predicate NoNuls(v: Value) {
    match v
    case Int(_) => true
    case Str(b) => NulFree(b)
    case List(xs) => forall i :: 0 <= i < |xs| ==> NoNuls(xs[i])
    case Dict(es) => forall i :: 0 <= i < |es| ==> NulFree(es[i].key) && NoNuls(es[i].value)
  }

  predicate NoNulsAhead(c: Cursor) {
    match c
    case Siblings(xs) => forall i :: 0 <= i < |xs| ==> NoNuls(xs[i])
    case Entries(es) => forall i :: 0 <= i < |es| ==> NulFree(es[i].key) && NoNuls(es[i].value)
  }

  predicate NoNulsItem(item: Item) {
    NoNuls(item.value) && (item.Pair? ==> NulFree(item.key))
  }

  /** An encoding is free of NULs exactly when the tree is. */
  lemma {:induction false} NulFreeEncoding(v: Value)
    ensures NulFree(Encode(v)) <==> NoNuls(v)
    decreases v, 0
  {
    hide Encode, EncodeList, EncodeEntries, NulFree, IntText, Dec;
    EncodeCases(v);
    match v
    case Int(n) =>
      IntIsWhole(n);
    case Str(b) =>
      NulFreeStr(b);
    case List(xs) =>
      NulFreeList(xs);
      NulFreeBracketed(LIST, EncodeList(xs));
    case Dict(es) =>
      NulFreeEntries(es);
      NulFreeBracketed(DICTIONARY, EncodeEntries(es));
  }

  lemma EncodeCases(v: Value)
    ensures match v
            case Int(n) => Encode(v) == EncodeInt(n)
            case Str(b) => Encode(v) == EncodeStr(b)
            case List(xs) => Encode(v) == [LIST] + EncodeList(xs) + [END]
            case Dict(es) => Encode(v) == [DICTIONARY] + EncodeEntries(es) + [END]
  {
  }

  lemma NulFreeStr(b: bytes)
    ensures NulFree(EncodeStr(b)) <==> NulFree(b)
  {
    hide Dec;
    NulFreeConcat(Dec(|b|) + [COLON], b);
  }

  lemma NulFreeBracketed(open: byte, body: bytes)
    requires open != NUL
    ensures NulFree([open] + body + [END]) <==> NulFree(body)
  {
    NulFreeConcat([open] + body, [END]);
    NulFreeConcat([open], body);
  }

  lemma {:induction false} NulFreeList(xs: seq<Value>)
    ensures NulFree(EncodeList(xs)) <==> NoNulsAhead(Siblings(xs))
    decreases xs, 1
  {
    hide Encode, NulFree, NoNuls;
    if xs == [] {
      assert NulFree([]) by { NulFreeNothing(); }
    } else {
      NulFreeEncoding(xs[0]);
      NulFreeList(xs[1..]);
      NulFreeConcat(Encode(xs[0]), EncodeList(xs[1..]));
      assert xs == [xs[0]] + xs[1..];
    }
  }

  lemma NulFreeNothing()
    ensures NulFree([])
  {
  }

  lemma {:induction false} NulFreeEntries(es: seq<Entry>)
    ensures NulFree(EncodeEntries(es)) <==> NoNulsAhead(Entries(es))
    decreases es, 1
  {
    hide Encode, EncodeStr, NulFree, NoNuls;
    if es == [] {
      assert NulFree([]) by { NulFreeNothing(); }
    } else {
      var k, v, rest := EncodeStr(es[0].key), Encode(es[0].value), EncodeEntries(es[1..]);
      NulFreeStr(es[0].key);
      NulFreeEncoding(es[0].value);
      NulFreeEntries(es[1..]);
      NulFreeConcat(k + v, rest);
      NulFreeConcat(k, v);
      assert es == [es[0]] + es[1..];
    }
  }

  lemma NulFreeCursor(c: Cursor)
    ensures NulFree(EncodeCursor(c)) <==> NoNulsAhead(c)
  {
    hide NulFree, NoNulsAhead, EncodeList, EncodeEntries;
    if c.Siblings? {
      NulFreeList(c.xs);
    } else {
      NulFreeEntries(c.es);
    }
  }

  lemma NulFreeItem(item: Item)
    ensures NulFree(ItemText(item)) <==> NoNulsItem(item)
  {
    hide NulFree, Encode, EncodeStr, NoNuls;
    NulFreeEncoding(item.value);
    if item.Pair? {
      NulFreeStr(item.key);
      NulFreeConcat(EncodeStr(item.key), Encode(item.value));
    }
  }

  /** The object a caller passes for a value: a string's bytes, and the encoding of anything else. */
  function ObjText(v: Value): bytes {
    if v.Str? then v.b else Encode(v)
  }

  /** What the program splices in for an item: `b_insert_element` and `b_insert_int` for an element,
      `b_insert_key_value` for a pair. */
  function InsertedText(item: Item): bytes {
    match item
    case Elem(v) => WholeObj(ObjText(v), TypeOf(v))
    case Pair(k, v) => WholeObj(k, OTHER) + WholeObj(ObjText(v), TypeOf(v))
  }

  lemma InsertedTextNulFree(item: Item)
    ensures NulFree(InsertedText(item))
  {
    hide NulFree, WholeObj;
    WholeObjNulFree(ObjText(item.value), TypeOf(item.value));
    if item.Pair? {
      WholeObjNulFree(item.key, OTHER);
      NulFreeConcat(WholeObj(item.key, OTHER), WholeObj(ObjText(item.value), TypeOf(item.value)));
    }
  }

  lemma InsertedTextIsItem(item: Item)
    requires NoNulsItem(item)
    ensures InsertedText(item) == ItemText(item)
  {
    hide NulFree, Encode, EncodeStr, CStr;
    var v := item.value;
    EncodeCases(v);
    NulFreeEncoding(v);
    CStrSelf(ObjText(v));
    assert WholeObj(ObjText(v), TypeOf(v)) == Encode(v);
    if item.Pair? {
      CStrSelf(item.key);
    }
  }

  /** The buffer holds the encoding `e` in its first `n` bytes and a NUL behind it. */
  predicate Holds(buffer: bytes, n: nat, e: bytes) {
    n <= |buffer| && buffer[..n] == e && (n < |buffer| ==> buffer[n] == NUL)
  }

  lemma HeldContent(buffer: bytes, n: nat, e: bytes)
    requires Holds(buffer, n, e)
    ensures CStr(buffer) == e <==> NulFree(e)
  {
    hide CStr;
    if NulFree(e) {
      assert buffer == e + buffer[n..];
      CStrOfNulFree(e, buffer[n..]);
    }
  }

  /** A splice of C strings is the splice of an encoding and an item exactly when neither holds a
      NUL, whatever the encoding and the item are. */
  lemma SpliceExact(buffer: bytes, n: nat, e: bytes, o: nat, item: Item)
    requires Holds(buffer, n, e) && o <= |e|
    ensures NulFree(e) ==> o <= |CStr(buffer)|
    ensures o <= |CStr(buffer)| ==>
              (Spliced(CStr(buffer), o, InsertedText(item)) == Spliced(e, o, ItemText(item))
              <==> NulFree(e) && NoNulsItem(item))
  {
    hide CStr, NulFree, InsertedText, ItemText, Spliced, NoNulsItem, Holds;
    HeldContent(buffer, n, e);
    if o <= |CStr(buffer)| {
      InsertedTextNulFree(item);
      NulFreeSpliced(CStr(buffer), o, InsertedText(item));
      NulFreeSpliced(e, o, ItemText(item));
      NulFreeItem(item);
      if NoNulsItem(item) {
        InsertedTextIsItem(item);
      }
    }
  }

  /** Exactness of `b_insert_obj` at any boundary between the elements or entries of any list or
      dictionary, at any depth: the buffer then encodes the tree with the item inserted there and
      nothing else changed if and only if neither the tree nor the item holds a NUL. */
  lemma PutExact(c: Cursor, address: seq<nat>, item: Item, buffer: bytes, n: nat)
    requires Put(c, address, item).Some? && Holds(buffer, n, EncodeCursor(c))
    ensures var o := Boundary(c, address, item);
            && (NoNulsAhead(c) ==> o <= |CStr(buffer)|)
            && (o <= |CStr(buffer)| ==>
                  (Spliced(CStr(buffer), o, InsertedText(item)) == EncodeCursor(Put(c, address, item).value)
                  <==> NoNulsAhead(c) && NoNulsItem(item)))
  {
    hide CStr, NulFree, InsertedText, Spliced, NoNulsItem, NoNulsAhead, Holds, EncodeCursor, Put, Boundary;
    PutIsSplice(c, address, item);
    SpliceExact(buffer, n, EncodeCursor(c), Boundary(c, address, item), item);
    NulFreeCursor(c);
  }

  /** Exactness of insertion by path: when the buffer holds the encoding of a tree, the path is clear
      and leads to a place in the C string, the insertion leaves the encoding of the tree with the
      item at the place the path names if and only if neither the tree nor the item holds a NUL. */
  lemma InsertionExact(xs: seq<Value>, steps: seq<PathStep>, closed: bool, item: Item, buffer: bytes, n: nat)
    requires Editable(Siblings(xs), steps, closed, item) && Clear(Siblings(xs), steps, closed)
    requires Holds(buffer, n, EncodeList(xs))
    ensures NoNulsAhead(Siblings(xs)) ==> CanInsert(buffer, n, PathText(steps, closed))
    ensures CanInsert(buffer, n, PathText(steps, closed)) ==>
              (Inserted(buffer, n, PathText(steps, closed), InsertedText(item))
               == EncodeList(Edit(Siblings(xs), steps, closed, item).xs)
              <==> NoNulsAhead(Siblings(xs)) && NoNulsItem(item))
  {
    hide CStr, NulFree, InsertedText, Spliced, NoNulsItem, NoNulsAhead, EncodeList, Edit, Editable, Clear, Follow,
      PathText;
    EditByPath(xs, steps, closed, item);
    NulFreeCursor(Siblings(xs));
    SpliceExact(buffer, n, EncodeList(xs), PlaceIn(buffer, n, PathText(steps, closed)), item);
  }
}
