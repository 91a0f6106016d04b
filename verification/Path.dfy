/** Paths such as `0.d|info|0.d|length|`: the text, what it means on the tree, and the two readers
    `b_get_offset` and `b_get` that follow it over flat bytes. */
module Path {
  import opened Bytes
  import opened Bencode
  import opened Scan
  import opened Spelling
  import opened ListLookup
  import opened ListExact
  import opened DictLookup
  import opened DictWalk

  const PATH_DELIMITER: byte := '|' as int

  // ---------- b_get_offset ----------

  /** The key a dictionary step reads: up to the delimiter or the end of the path. */
  function KeyPart(path: bytes, i: nat): (k: bytes)
    decreases |path| - i
  {
    if i < |path| && path[i] != PATH_DELIMITER then [path[i]] + KeyPart(path, i + 1) else []
  }

  predicate Container(ty: byte) {
    ty == LIST || ty == DICTIONARY
  }

  /** The loop of `b_get_offset`; `container` is the kind of container the path stands in. */
  function PathScan(path: bytes, i: nat, s: bytes, offset: int, container: byte): int
    requires i < |path| && Container(container) ==> offset >= 0
    decreases |path| - i
  {
    if i >= |path| then offset
    else if container == LIST then
      var count := Digits(path, i);
      var t := i + |count| + 1;
      var ty := ByteAt(path, t);
      var here := offset + InList(ty, DigitsValue(count), s, offset, 0, 0);
      var inner := if t + 1 < |path| && Container(ty) then here + 1 else here;
      PathScan(path, t + 2, s, inner, ty)
    else if container == DICTIONARY then
      var key := KeyPart(path, i);
      PathScan(path, i + |key| + 1, s, InDict(key, s, offset), LIST)
    else PathScan(path, i + 1, s, offset, container)
  }

  /** Where `b_get_offset` is led by the C string that starts `path`. */
  function Follow(path: bytes, s: bytes): int {
    PathScan(CStr(path), 0, s, 0, LIST)
  }

  method GetOffset(pathStr: bytes, str: bytes) returns (offset: int)
    ensures offset == Follow(pathStr, str)
  {
    hide InList, InDict, Digits, DigitsValue, CStr;
    var path := CStr(pathStr);
    ghost var goal := PathScan(path, 0, str, 0, LIST);
    offset := 0;
    var containerType := LIST;
    var i := 0;
    while i < |path|
      invariant i < |path| && Container(containerType) ==> offset >= 0
      invariant goal == PathScan(path, i, str, offset, containerType)
    {
      if containerType == LIST {
        var strCount := ReadDigits(path, i);
        var count := DigitsValue(strCount);
        i := i + |strCount| + 1;
        var objectType := ByteAt(path, i);
        i := i + 1;
        var inList := GetInListOffset(objectType, count, str, offset);
        offset := offset + inList;
        if i < |path| && (objectType == LIST || objectType == DICTIONARY) {
          offset := offset + 1;
        }
        containerType := objectType;
      } else if containerType == DICTIONARY {
        var key := ReadKeyPart(path, i);
        i := i + |key|;
        KeyPartNulFree(path, i - |key|);
        CStrSelf(key);
        var inDict := GetInDictOffset(key, str, offset);
        offset := offset + inDict;
        containerType := LIST;
      }
      i := i + 1;
    }
  }

  lemma {:induction false} KeyPartNulFree(path: bytes, i: nat)
    requires NulFree(path)
    ensures NulFree(KeyPart(path, i))
    decreases |path| - i
  {
    if i >= |path| || path[i] == PATH_DELIMITER {
    } else {
      KeyPartNulFree(path, i + 1);
    }
  }

  method ReadKeyPart(path: bytes, i: nat) returns (key: bytes)
    ensures key == KeyPart(path, i)
  {
    key := [];
    while i + |key| < |path| && path[i + |key|] != PATH_DELIMITER
      invariant KeyPart(path, i) == key + KeyPart(path, i + |key|)
    {
      key := key + [path[i + |key|]];
    }
  }

  // ---------- b_get ----------

  /** What `b_get` finds: nothing, the bytes to copy, a token that starts no value, for which the C
      code leaves the length unset, or a place before the string, which it then reads. */
  datatype Extent = NotFound | Found(start: nat, len: nat) | NoValue | Outside

  function ExtentAt(s: bytes, offset: int): Extent {
    if offset >= |s| then NotFound
    else if offset < 0 then Outside
    else
      var ty := GetType(s[offset]);
      if ty == INTEGER then Found(offset + 1, EndRun(s, offset + 1))
      else if ty == OTHER then
        var d := Digits(s, offset);
        Found(offset + |d| + 1, DigitsValue(d))
      else if Container(ty) then Found(offset, ScanClose(s, Mark(offset + 1, 0)) - offset)
      else NoValue
  }

  function GetExtent(path: bytes, s: bytes): Extent {
    ExtentAt(s, Follow(path, s))
  }

  /** What `b_get` asks of its caller: the path leads to a value that lies in the string, or to
      nothing, and the copy fits `out`. */
  predicate Fits(e: Extent, s: bytes, capacity: nat, isOutStr: bool) {
    e.NotFound? || (e.Found? && e.start + e.len <= |s| && e.len + (if isOutStr then 1 else 0) <= capacity)
  }

  method Get(path: bytes, str: bytes, out: array<byte>, isOutStr: bool) returns (objLen: nat)
    requires Fits(GetExtent(path, str), str, out.Length, isOutStr)
    modifies out
    ensures match GetExtent(path, str)
            case Found(start, len) =>
              && objLen == len && out[..len] == str[start..start + len] && (isOutStr ==> out[len] == 0)
              && (forall k :: (if isOutStr then len + 1 else len) <= k < out.Length ==> out[k] == old(out[k]))
            case _ => objLen == 0 && out[..] == old(out[..])
  {
    hide Follow, ScanClose, Digits, DigitsValue, EndRun, Copied;
    var found := GetOffset(path, str);
    if found >= |str| {
      return 0;
    }
    var offset: nat := found;
    var ty := GetType(str[offset]);
    if ty == INTEGER {
      objLen := IntegerLen(str, offset);
      offset := offset + 1;
    } else if ty == OTHER {
      var strObjLen := ReadDigits(str, offset);
      objLen := DigitsValue(strObjLen);
      offset := offset + |strObjLen| + 1;
    } else {
      objLen := ContainerLen(str, offset);
    }
    CopyOut(out, str[offset..offset + objLen], isOutStr);
  }

  /** `buffer` after `b` is copied to its front, with a NUL behind it if `isOutStr`. */
  function Copied(buffer: bytes, b: bytes, isOutStr: bool): bytes
    requires |b| + (if isOutStr then 1 else 0) <= |buffer|
  {
    if isOutStr then b + [NUL] + buffer[|b| + 1..] else b + buffer[|b|..]
  }

  method CopyOut(out: array<byte>, b: bytes, isOutStr: bool)
    requires |b| + (if isOutStr then 1 else 0) <= out.Length
    modifies out
    ensures out[..] == Copied(old(out[..]), b, isOutStr)
    ensures out[..|b|] == b && (isOutStr ==> out[|b|] == 0)
    ensures forall k :: (if isOutStr then |b| + 1 else |b|) <= k < out.Length ==> out[k] == old(out[k])
  {
    forall k | 0 <= k < |b| {
      out[k] := b[k];
    }
    if isOutStr {
      out[|b|] := NUL;
    }
  }

  /** The loop of `b_get` over the text of an integer, without its two tokens. */
  method IntegerLen(str: bytes, offset: nat) returns (objLen: nat)
    requires offset < |str|
    ensures objLen == EndRun(str, offset + 1)
  {
    var integerPtr := 1;
    while offset + integerPtr < |str| && str[offset + integerPtr] != END
      invariant 1 <= integerPtr <= |str| - offset
      invariant EndRun(str, offset + 1) == integerPtr - 1 + EndRun(str, offset + integerPtr)
    {
      integerPtr := integerPtr + 1;
    }
    return integerPtr - 1;
  }

  /** The nesting loop of `b_get`. */
  method ContainerLen(str: bytes, offset: nat) returns (objLen: nat)
    requires offset < |str|
    ensures offset + objLen == ScanClose(str, Mark(offset + 1, 0))
  {
    hide SkipLen, GetType, Step;
    ghost var goal := ScanClose(str, Mark(offset + 1, 0));
    objLen := 1;
    var nesting := 0;
    while offset + objLen < |str| && nesting >= 0
      invariant goal == ScanClose(str, Mark(offset + objLen, nesting))
      decreases |str| - offset - objLen
    {
      StepCases(str, Mark(offset + objLen, nesting));
      var token := str[offset + objLen];
      if token == END {
        nesting := nesting - 1;
        objLen := objLen + 1;
      } else if token == LIST || token == DICTIONARY {
        nesting := nesting + 1;
        objLen := objLen + 1;
      } else {
        var skip := SkipObj(GetType(token), str, offset + objLen);
        objLen := objLen + skip;
      }
    }
  }

  // ---------- what a path means on the tree ----------

  datatype PathStep =
    | Pick(count: nat, ty: byte) // `number.type`
    | Key(key: bytes)

  function StepText(step: PathStep): bytes {
    match step
    case Pick(count, ty) => Dec(count) + [DOT] + [ty]
    case Key(key) => key
  }

  /** The steps separated by delimiters; `closed` when a delimiter also ends the path. */
  function PathText(steps: seq<PathStep>, closed: bool): bytes {
    if steps == [] then []
    else StepText(steps[0]) + (if |steps| > 1 || closed then [PATH_DELIMITER] else []) + PathText(steps[1..], closed)
  }

  function Kind(c: Cursor): byte {
    if c.Siblings? then LIST else DICTIONARY
  }

  function Body(v: Value): Cursor
    requires !v.Scalar()
  {
    match v
    case List(xs) => Siblings(xs)
    case Dict(es) => Entries(es)
  }

  /** The first entry whose key, as a C string, is `key`; the number of entries if there is none. */
  function KeyIndex(key: bytes, es: seq<Entry>): (m: nat)
    ensures m <= |es| && (m < |es| ==> CStr(es[m].key) == key)
    ensures forall j :: 0 <= j < m ==> CStr(es[j].key) != key
  {
    if es == [] || CStr(es[0].key) == key then 0 else 1 + KeyIndex(key, es[1..])
  }

  datatype Target = Nowhere | Place(offset: nat, ahead: Cursor) {
    function Behind(n: nat): Target {
      if Nowhere? then this else Place(n + offset, ahead)
    }
  }

  /** Whether the pick that starts `steps` ends the path on the element, or enters it. */
  predicate EndsOn(v: Value, steps: seq<PathStep>, closed: bool) {
    |steps| == 1 && (!closed || v.Scalar())
  }

  /** The place a path names, by nested lookup in the tree. A closed path that ends with a
      container names the first place inside it. */
  function Resolve(c: Cursor, steps: seq<PathStep>, closed: bool): Target
    decreases |steps|
  {
    if steps == [] then Place(0, c)
    else if c.Siblings? && steps[0].Pick? && steps[0].count < CountOf(steps[0].ty, c.xs) then
      var k := Nth(steps[0].ty, steps[0].count, c.xs);
      if EndsOn(c.xs[k], steps, closed) then Place(ElemStart(c.xs, k), Siblings(c.xs[k..]))
      else if c.xs[k].Scalar() then Nowhere
      else Resolve(Body(c.xs[k]), steps[1..], closed).Behind(ElemStart(c.xs, k) + 1)
    else if c.Entries? && steps[0].Key? && KeyIndex(steps[0].key, c.es) < |c.es| then
      var m := KeyIndex(steps[0].key, c.es);
      Resolve(Siblings([c.es[m].value]), steps[1..], closed).Behind(ValueStart(c.es, m))
    else Nowhere
  }

  /** A key that a path can spell: a C string without a delimiter. */
  predicate PlainKey(key: bytes) {
    NulFree(key) && forall i :: 0 <= i < |key| ==> key[i] != PATH_DELIMITER
  }

  /** What the scans as written need on the way: a picked element that the loop over the token types
      reaches; a wanted key that the key search meets. */
  predicate Clear(c: Cursor, steps: seq<PathStep>, closed: bool)
    decreases |steps|
  {
    steps != [] && Resolve(c, steps, closed) != Nowhere ==>
      if c.Siblings? then
        var k := Nth(steps[0].ty, steps[0].count, c.xs);
        && Reached(steps[0].ty, steps[0].count, c.xs)
        && (!EndsOn(c.xs[k], steps, closed) ==> Clear(Body(c.xs[k]), steps[1..], closed))
      else
        var m := KeyIndex(steps[0].key, c.es);
        && PlainKey(steps[0].key) && (steps[0].key != [] || |steps| > 1 || closed)
        && WayTo(steps[0].key, c.es, m, false) == Met
        && Clear(Siblings([c.es[m].value]), steps[1..], closed)
  }

  /** The rest of `path` from `i` on spells `steps`. */
  predicate Spells(path: bytes, i: nat, steps: seq<PathStep>, closed: bool) {
    if steps == [] then i >= |path|
    else HasAt(path, i, PathText(steps, closed)) && i + |PathText(steps, closed)| == |path|
  }

  lemma {:induction false} KeyPartIs(path: bytes, i: nat, key: bytes)
    requires HasAt(path, i, key) && PlainKey(key)
    requires i + |key| == |path| || (i + |key| < |path| && path[i + |key|] == PATH_DELIMITER)
    ensures KeyPart(path, i) == key
    decreases |key|
  {
    if key == [] {
    } else {
      assert key == [key[0]] + key[1..];
      HasAtConcat(path, i, [key[0]], key[1..]);
      HasAtByte(path, i, key, 0);
      KeyPartIs(path, i + 1, key[1..]);
    }
  }

  /** Any key that is a C string without `|` can be spelled, and is read back whole. */
  lemma AnyKeySpelled(key: bytes, rest: bytes)
    requires 0 !in key && '|' as int !in key
    ensures PlainKey(key) && KeyPart(key, 0) == key && KeyPart(key + ['|' as int] + rest, 0) == key
  {
    hide HasAt;
    var path := key + ['|' as int] + rest;
    WholeHasAt(key);
    PrefixHasAt(key, ['|' as int] + rest);
    assert path == key + (['|' as int] + rest);
    KeyPartIs(key, 0, key);
    KeyPartIs(path, 0, key);
  }

  lemma PathTextCons(steps: seq<PathStep>, closed: bool)
    requires steps != []
    ensures PathText(steps, closed)
         == StepText(steps[0]) + (if |steps| > 1 || closed then [PATH_DELIMITER] else []) + PathText(steps[1..], closed)
    ensures PathText([], closed) == []
  {
  }

  /** How the first step of the text is cut off. */
  lemma FirstStep(path: bytes, i: nat, steps: seq<PathStep>, closed: bool)
    requires steps != [] && Spells(path, i, steps, closed)
    ensures var n := i + |StepText(steps[0])|;
            && HasAt(path, i, StepText(steps[0])) && n <= |path|
            && Spells(path, n + 1, steps[1..], closed)
            && (n < |path| <==> |steps| > 1 || closed)
            && (n < |path| ==> path[n] == PATH_DELIMITER)
  {
    hide HasAt, StepText, PathText;
    var a := StepText(steps[0]);
    var b := if |steps| > 1 || closed then [PATH_DELIMITER] else [];
    var rest := PathText(steps[1..], closed);
    PathTextCons(steps, closed);
    HasAtConcat(path, i, a + b, rest);
    HasAtConcat(path, i, a, b);
    if b != [] {
      HasAtByte(path, i + |a|, b, 0);
    }
  }

  lemma PickStep(path: bytes, i: nat, count: nat, ty: byte)
    requires HasAt(path, i, StepText(Pick(count, ty)))
    ensures Digits(path, i) == Dec(count) && DigitsValue(Digits(path, i)) == count
    ensures i < |path| && ByteAt(path, i + |Dec(count)| + 1) == ty
  {
    hide HasAt, Dec, Digits, DigitsValue;
    var d := Dec(count);
    assert StepText(Pick(count, ty)) == d + [DOT] + [ty];
    HasAtConcat(path, i, d + [DOT], [ty]);
    HasAtConcat(path, i, d, [DOT]);
    HasAtByte(path, i + |d|, [DOT], 0);
    HasAtByte(path, i + |d| + 1, [ty], 0);
    DigitsAre(path, i, d);
    DigitsValueOfDec(count);
  }

  /** `b_get_offset` follows a clear path to the place it names, whatever follows in the string. */
  /** A path that leads anywhere is a C string. */
  lemma {:induction false} PathIsCStr(c: Cursor, steps: seq<PathStep>, closed: bool)
    requires Resolve(c, steps, closed) != Nowhere
    ensures NulFree(PathText(steps, closed)) && CStr(PathText(steps, closed)) == PathText(steps, closed)
    decreases |steps|
  {
    hide NulFree, CStr, ElemStart, ValueStart, Nth, CountOf, StepText;
    PathTextNulFree(steps, closed);
    CStrSelf(PathText(steps, closed));
    if steps == [] {
    } else if c.Siblings? {
      var x := c.xs[Nth(steps[0].ty, steps[0].count, c.xs)];
      PickNulFree(steps[0].count, x);
      if !EndsOn(x, steps, closed) {
        PathIsCStr(Body(x), steps[1..], closed);
      } else {
        PathTextNulFree(steps[1..], closed);
      }
    } else {
      KeyStepText(steps[0].key);
      PathIsCStr(Siblings([c.es[KeyIndex(steps[0].key, c.es)].value]), steps[1..], closed);
    }
  }

  lemma PathTextNulFree(steps: seq<PathStep>, closed: bool)
    ensures steps == [] ==> NulFree(PathText(steps, closed))
    ensures steps != [] && NulFree(StepText(steps[0])) && NulFree(PathText(steps[1..], closed)) ==>
              NulFree(PathText(steps, closed))
  {
    hide StepText;
    if steps != [] {
      PathTextCons(steps, closed);
      assert NulFree([PATH_DELIMITER]);
    }
  }

  lemma PickNulFree(count: nat, x: Value)
    ensures NulFree(StepText(Pick(count, TypeOf(x))))
  {
    hide Dec;
  }

  lemma KeyStepText(key: bytes)
    ensures StepText(Key(key)) == key
  {
  }

  lemma {:induction false} PathLeadsTo(c: Cursor, steps: seq<PathStep>, closed: bool, path: bytes, i: nat,
                                       s: bytes, p: nat)
    requires Resolve(c, steps, closed) != Nowhere && Clear(c, steps, closed)
    requires Spells(path, i, steps, closed) && HasAt(s, p, EncodeCursor(c))
    ensures var t := Resolve(c, steps, closed);
            && PathScan(path, i, s, p, Kind(c)) == p + t.offset
            && HasAt(s, p + t.offset, EncodeCursor(t.ahead))
    decreases |steps|
  {
    hide Spells, HasAt, InList, InDict, Digits, DigitsValue, KeyPart, EncodeList, EncodeEntries, CStr;
    if steps == [] {
      PathEnds(path, i, s, p, Kind(c), closed);
    } else if c.Siblings? {
      PickLeadsTo(c.xs, steps, closed, path, i, s, p);
    } else {
      KeyLeadsTo(c.es, steps, closed, path, i, s, p);
    }
  }

  lemma PathEnds(path: bytes, i: nat, s: bytes, p: int, kind: byte, closed: bool)
    requires Spells(path, i, [], closed)
    ensures PathScan(path, i, s, p, kind) == p
  {
  }

  /** Picking the element a clear path asks for. */
  lemma PickFinds(ty: byte, count: nat, xs: seq<Value>, s: bytes, p: nat)
    requires HasAt(s, p, EncodeList(xs)) && count < CountOf(ty, xs)
    requires Reached(ty, count, xs)
    ensures InList(ty, count, s, p, 0, 0) == ElemStart(xs, Nth(ty, count, xs))
    ensures var q := p + ElemStart(xs, Nth(ty, count, xs));
            && HasAt(s, q, EncodeList(xs[Nth(ty, count, xs)..]))
            && HasAt(s, q, Encode(xs[Nth(ty, count, xs)]))
  {
    hide HasAt, Encode, EncodeList, InList, ElemStart, Reached;
    InListExact(ty, count, xs, s, p);
    ElemHasAt(xs, Nth(ty, count, xs), s, p);
  }

  lemma BodyHasAt(v: Value, s: bytes, p: nat)
    requires !v.Scalar() && HasAt(s, p, Encode(v))
    ensures HasAt(s, p + 1, EncodeCursor(Body(v))) && Kind(Body(v)) == TypeOf(v)
  {
    hide HasAt, EncodeList, EncodeEntries;
    Bracketed(s, p, TypeOf(v), EncodeCursor(Body(v)));
  }

  lemma {:induction false} PickLeadsTo(xs: seq<Value>, steps: seq<PathStep>, closed: bool, path: bytes, i: nat,
                                       s: bytes, p: nat)
    requires steps != [] && Resolve(Siblings(xs), steps, closed) != Nowhere && Clear(Siblings(xs), steps, closed)
    requires Spells(path, i, steps, closed) && HasAt(s, p, EncodeList(xs))
    ensures var t := Resolve(Siblings(xs), steps, closed);
            && PathScan(path, i, s, p, LIST) == p + t.offset
            && HasAt(s, p + t.offset, EncodeCursor(t.ahead))
    decreases |steps|, 0
  {
    hide Spells, HasAt, Encode, InList, InDict, Digits, DigitsValue, KeyPart, EncodeList, EncodeEntries, ElemStart,
      StepText, Dec, CStr, Reached, Nth, CountOf;
    var ty, count := steps[0].ty, steps[0].count;
    var k := Nth(ty, count, xs);
    FirstStep(path, i, steps, closed);
    PickStep(path, i, count, ty);
    PickTextLength(count, ty);
    PickFinds(ty, count, xs, s, p);
    var q := p + ElemStart(xs, k);
    var next := i + |StepText(steps[0])| + 1;
    TypeIsKind(xs[k]);
    if EndsOn(xs[k], steps, closed) {
      assert PathScan(path, i, s, p, LIST) == PathScan(path, next, s, q, ty);
      PathEnds(path, next, s, q, ty, closed);
    } else {
      BodyHasAt(xs[k], s, q);
      assert PathScan(path, i, s, p, LIST) == PathScan(path, next, s, q + 1, ty);
      PathLeadsTo(Body(xs[k]), steps[1..], closed, path, next, s, q + 1);
    }
  }

  lemma PickTextLength(count: nat, ty: byte)
    ensures |StepText(Pick(count, ty))| == |Dec(count)| + 2
  {
  }

  lemma TypeIsKind(v: Value)
    ensures Container(TypeOf(v)) <==> !v.Scalar()
  {
  }

  lemma {:induction false} KeyLeadsTo(es: seq<Entry>, steps: seq<PathStep>, closed: bool, path: bytes, i: nat,
                                       s: bytes, p: nat)
    requires steps != [] && Resolve(Entries(es), steps, closed) != Nowhere && Clear(Entries(es), steps, closed)
    requires Spells(path, i, steps, closed) && HasAt(s, p, EncodeEntries(es))
    ensures var t := Resolve(Entries(es), steps, closed);
            && PathScan(path, i, s, p, DICTIONARY) == p + t.offset
            && HasAt(s, p + t.offset, EncodeCursor(t.ahead))
    decreases |steps|, 0
  {
    hide Spells, HasAt, Encode, InList, InDict, Digits, DigitsValue, KeyPart, EncodeList, EncodeEntries, ValueStart,
      EncodeCursor, CStr, KeyIndex, WayTo;
    var key := steps[0].key;
    var m := KeyIndex(key, es);
    FirstStep(path, i, steps, closed);
    assert i < |path|;
    KeyPartIs(path, i, key);
    KeyMetFinds(key, es, m, s, p);
    var q := p + ValueStart(es, m);
    SingleHasAt(es[m].value, s, q);
    var next := i + |key| + 1;
    assert PathScan(path, i, s, p, DICTIONARY) == PathScan(path, next, s, q, LIST);
    PathLeadsTo(Siblings([es[m].value]), steps[1..], closed, path, next, s, q);
  }

  lemma SingleHasAt(v: Value, s: bytes, p: nat)
    requires HasAt(s, p, Encode(v))
    ensures HasAt(s, p, EncodeCursor(Siblings([v])))
  {
    assert EncodeList([v]) == Encode(v) + EncodeList([]);
  }

  // ---------- what b_get copies ----------

  /** The bytes `b_get` is to deliver for a value: an integer's text, a string's content, and the
      whole encoding of a list or dictionary. */
  function Payload(v: Value): bytes {
    match v
    case Int(n) => IntText(n)
    case Str(b) => b
    case _ => Encode(v)
  }

  predicate Gets(path: bytes, s: bytes, payload: bytes) {
    var e := GetExtent(path, s);
    e.Found? && e.start + e.len <= |s| && s[e.start..e.start + e.len] == payload
  }

  /** At the start of a value, exactly its payload is cut out, whatever bytes follow. */
  lemma ExtentOfValue(v: Value, s: bytes, p: nat)
    requires HasAt(s, p, Encode(v))
    ensures var e := ExtentAt(s, p);
            e.Found? && e.start + e.len <= |s| && s[e.start..e.start + e.len] == Payload(v)
  {
    hide HasAt, Encode, EncodeStr, EncodeInt, ScanClose, ExtentAt;
    match v
    case Int(n) =>
      ExtentOfInt(n, s, p);
    case Str(b) =>
      ExtentOfStr(b, s, p);
    case _ =>
      HasAtByte(s, p, Encode(v), 0);
      TypeOfEncoding(v);
      ScanCloseContainer(v, s, p);
      SliceAt(s, p, Encode(v));
      ExtentOfContainer(s, p);
  }

  lemma ExtentOfInt(n: int, s: bytes, p: nat)
    requires HasAt(s, p, Encode(Int(n)))
    ensures p + 1 + |IntText(n)| <= |s| && ExtentAt(s, p) == Found(p + 1, |IntText(n)|)
    ensures s[p + 1..p + 1 + |IntText(n)|] == IntText(n)
  {
    hide HasAt, Dec, EndRun;
    HasAtByte(s, p, EncodeInt(n), 0);
    IntExtent(s, p, n);
    HasAtConcat(s, p + 1, IntText(n), [END]);
    SliceAt(s, p + 1, IntText(n));
  }

  lemma ExtentOfStr(b: bytes, s: bytes, p: nat)
    requires HasAt(s, p, Encode(Str(b)))
    ensures var start := p + |Dec(|b|)| + 1;
            start + |b| <= |s| && ExtentAt(s, p) == Found(start, |b|) && s[start..start + |b|] == b
  {
    hide HasAt, Dec, Digits, DigitsValue;
    HasAtByte(s, p, EncodeStr(b), 0);
    StrPrefix(s, p, b);
    SliceAt(s, p + |Dec(|b|)| + 1, b);
  }

  lemma ExtentOfContainer(s: bytes, p: nat)
    requires p < |s| && (s[p] == LIST || s[p] == DICTIONARY)
    ensures ExtentAt(s, p) == Found(p, ScanClose(s, Mark(p + 1, 0)) - p)
  {
    hide ScanClose;
  }

  /** A clear path to a value makes `b_get` deliver that value's payload. */
  lemma PathGets(xs: seq<Value>, steps: seq<PathStep>, closed: bool, s: bytes)
    requires HasAt(s, 0, EncodeList(xs))
    requires var t := Resolve(Siblings(xs), steps, closed);
             t.Place? && t.ahead.Siblings? && t.ahead.xs != []
    requires Clear(Siblings(xs), steps, closed)
    ensures Gets(PathText(steps, closed), s, Payload(Resolve(Siblings(xs), steps, closed).ahead.xs[0]))
  {
    hide HasAt, Resolve, Clear, PathText, Encode, ExtentAt, PathScan, Payload, CStr, NulFree;
    PathIsCStr(Siblings(xs), steps, closed);
    var t, path := Resolve(Siblings(xs), steps, closed), PathText(steps, closed);
    WholePath(path, steps, closed);
    PathLeadsTo(Siblings(xs), steps, closed, path, 0, s, 0);
    SplitList(t.ahead.xs, s, t.offset);
    ExtentOfValue(t.ahead.xs[0], s, t.offset);
  }

  // ---------- elements that are not there ----------

  /** A path of one step, in any string. */
  lemma OnePick(count: nat, ty: byte, closed: bool, s: bytes)
    requires ty != NUL
    ensures Follow(PathText([Pick(count, ty)], closed), s)
         == InList(ty, count, s, 0, 0, 0) + if closed && Container(ty) then 1 else 0
  {
    hide HasAt, InList, InDict, Digits, DigitsValue, StepText, Dec, CStr, Spells, NulFree;
    var steps, path := [Pick(count, ty)], PathText([Pick(count, ty)], closed);
    assert steps[1..] == [];
    PickTextNulFree(count, ty);
    PathTextNulFree([], closed);
    PathTextNulFree(steps, closed);
    CStrSelf(path);
    WholePath(path, steps, closed);
    FirstStep(path, 0, steps, closed);
    PickStep(path, 0, count, ty);
    PickTextLength(count, ty);
    var r, next := InList(ty, count, s, 0, 0, 0), |StepText(steps[0])| + 1;
    var q := if closed && Container(ty) then r + 1 else r;
    assert PathScan(path, 0, s, 0, LIST) == PathScan(path, next, s, q, ty);
    PathEnds(path, next, s, q, ty, closed);
  }

  lemma PickTextNulFree(count: nat, ty: byte)
    requires ty != NUL
    ensures NulFree(StepText(Pick(count, ty)))
  {
    hide Dec;
  }

  /** -1 is added to the offset like any other result. For a path of one step that names an element
      that is not there, `b_get` is led before the string; and it is only for those for which the
      loop has no turn left. */
  lemma AbsentElement(xs: seq<Value>, count: nat, ty: byte)
    requires ty != NUL
    ensures GetExtent(PathText([Pick(count, ty)], false), EncodeList(xs)) == Outside
       <==> TurnCount(ty, TypesList(xs)) <= count
  {
    hide HasAt, InList, EncodeList, TokensList, Types, TurnCount, PathText, Follow, ScanClose, EndRun, Digits,
      DigitsValue;
    var s := EncodeList(xs);
    OnePick(count, ty, false, s);
    AbsentInWhole(xs, count, ty);
  }

  lemma AbsentInWhole(xs: seq<Value>, count: nat, ty: byte)
    ensures InList(ty, count, EncodeList(xs), 0, 0, 0) == -1 <==> TurnCount(ty, TypesList(xs)) <= count
  {
    hide InList, EncodeList, TokensList, Types, TurnCount;
    var s := EncodeList(xs);
    WholeHasAt(s);
    assert s + Behind([]) == s;
    assert TokensList(xs) + TokensBehind([]) == TokensList(xs);
    InListAbsent(ty, count, xs, [], s, 0);
  }

  /** If a list or dictionary is asked for and the path is closed, the step into it makes up for the
      -1: an absent one is answered with the first element of the string. */
  lemma AbsentContainer(xs: seq<Value>, count: nat, ty: byte)
    requires Container(ty) && xs != [] && TurnCount(ty, TypesList(xs)) <= count
    ensures Gets(PathText([Pick(count, ty)], true), EncodeList(xs), Payload(xs[0]))
  {
    hide HasAt, InList, Encode, EncodeList, TypesList, TurnCount, PathText, Follow, ExtentAt, Payload;
    var s := EncodeList(xs);
    OnePick(count, ty, true, s);
    AbsentInWhole(xs, count, ty);
    WholeHasAt(s);
    SplitList(xs, s, 0);
    ExtentOfValue(xs[0], s, 0);
  }

  /** In a nested list the search runs on over the list's end token. Where it runs out, the -1 leads
      from the list's body to its opening token: an absent element is answered with the whole list. */
  lemma AbsentInside(xs: seq<Value>, count: nat, ty: byte)
    requires ty != NUL
    ensures var path, s := PathText([Pick(0, LIST), Pick(count, ty)], false), Encode(List(xs));
            && (Follow(path, s) == 0 <==> TurnCount(ty, TypesList(xs) + [END]) <= count)
            && (Follow(path, s) == 0 ==> Gets(path, s, Encode(List(xs))))
  {
    hide HasAt, InList, Encode, EncodeList, TypesList, TurnCount, PathText, Follow, ExtentAt;
    var path, s := PathText([Pick(0, LIST), Pick(count, ty)], false), Encode(List(xs));
    TwoPicks(count, ty, s);
    WholeList(xs, s);
    InListAbsent(ty, count, xs, [Siblings([])], s, 1);
    InListTurn(LIST, 0, s, 0, 0, 0);
    WholeHasAt(s);
    ExtentOfValue(List(xs), s, 0);
  }

  lemma WholeList(xs: seq<Value>, s: bytes)
    requires s == Encode(List(xs))
    ensures s[0] == LIST && GetType(s[0]) == LIST
    ensures var text := EncodeList(xs) + Behind([Siblings([])]); HasAt(s, 1, text) && |s| == 1 + |text|
    ensures Types(TokensList(xs) + TokensBehind([Siblings([])])) == TypesList(xs) + [END]
  {
    hide EncodeList, TokensList, Types;
    NothingBehind();
    TypesConcat(TokensList(xs), [Close]);
    assert s == [LIST] + (EncodeList(xs) + [END]);
    assert s[1..] == EncodeList(xs) + [END];
  }

  lemma NothingBehind()
    ensures Behind([Siblings([])]) == [END]
    ensures TokensBehind([Siblings([])]) == [Close] && Types([Close]) == [END]
  {
    var around := [Siblings([])];
    assert around[1..] == [];
    assert Types([Close]) == [END];
  }

  /** A path of two steps, in any string that begins with a list. */
  lemma TwoPicks(count: nat, ty: byte, s: bytes)
    requires ty != NUL
    ensures var r := InList(LIST, 0, s, 0, 0, 0);
            r >= 0 ==>
              Follow(PathText([Pick(0, LIST), Pick(count, ty)], false), s)
              == r + 1 + InList(ty, count, s, r + 1, 0, 0)
  {
    hide HasAt, InList, InDict, Digits, DigitsValue, StepText, Dec, CStr, Spells, NulFree;
    var steps := [Pick(0, LIST), Pick(count, ty)];
    var path := PathText(steps, false);
    assert steps[1..] == [Pick(count, ty)] && steps[1..][1..] == [];
    PickTextNulFree(0, LIST);
    PickTextNulFree(count, ty);
    PathTextNulFree([], false);
    PathTextNulFree(steps[1..], false);
    PathTextNulFree(steps, false);
    CStrSelf(path);
    WholePath(path, steps, false);
    FirstStep(path, 0, steps, false);
    PickStep(path, 0, 0, LIST);
    PickTextLength(0, LIST);
    var r, next := InList(LIST, 0, s, 0, 0, 0), |StepText(steps[0])| + 1;
    if r >= 0 {
      FirstStep(path, next, steps[1..], false);
      PickStep(path, next, count, ty);
      PickTextLength(count, ty);
      var q := r + 1 + InList(ty, count, s, r + 1, 0, 0);
      var end := next + |StepText(steps[1])| + 1;
      assert PathScan(path, 0, s, 0, LIST) == PathScan(path, next, s, r + 1, LIST);
      assert PathScan(path, next, s, r + 1, LIST) == PathScan(path, end, s, q, ty);
      PathEnds(path, end, s, q, ty, false);
    }
  }

  lemma WholePath(path: bytes, steps: seq<PathStep>, closed: bool)
    requires path == PathText(steps, closed)
    ensures Spells(path, 0, steps, closed)
  {
  }
}
