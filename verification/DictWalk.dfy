/** What `b_get_in_dict_offset` as written does, token by token, for one key: exactly when it finds
    the key's value, and exactly when it finds nothing. */
module DictWalk {
  import opened Bytes
  import opened Bencode
  import opened Scan
  import opened Spelling
  import opened DictLookup

  /** Where the search goes over a token sequence: it stops at a token, passes all of them and holds
      that nesting, toggle and key behind them, or reads an integer as a key, which takes it out of
      step with the tokens. */
  datatype Course = Stops(k: nat) | Passes(nesting: int, r: Reader) | Derails {
    function Later(n: nat): Course {
      if Stops? then Stops(n + k) else this
    }
  }

  /** One turn on a token. An integer `i0e` read as a key costs no more than itself, unless the
      empty key is wanted. */
  function Turn(wanted: bytes, t: Token, n: int, r: Reader): (c: Course)
    ensures !c.Stops?
  {
    match t
    case OpenList => Passes(n + 1, r)
    case OpenDict => Passes(n + 1, r)
    case Close => Passes(n - 1, r)
    case Num(k) =>
      if n != 0 then Passes(n, r)
      else if r.valueDue then Passes(0, Reader(false, r.key))
      else if k == 0 && wanted != [] then Passes(0, Reader(false, []))
      else Derails
    case Word(b) =>
      if n != 0 then Passes(n, r)
      else if r.valueDue then Passes(0, Reader(false, r.key))
      else Passes(0, Reader(true, CStr(b)))
  }

  /** The loop from its second turn on. */
  function Walk(wanted: bytes, ts: seq<Token>, n: int, r: Reader): (c: Course)
    ensures c.Stops? ==> c.k < |ts|
  {
    if ts == [] then Passes(n, r)
    else if n == 0 && r.key == wanted then Stops(0)
    else
      match Turn(wanted, ts[0], n, r)
      case Passes(n', r') => Walk(wanted, ts[1..], n', r').Later(1)
      case _ => Derails
  }

  /** The whole search; its first turn is taken without a test. */
  function Search(wanted: bytes, ts: seq<Token>): (c: Course)
    requires ts != []
    ensures c.Stops? ==> 0 < c.k < |ts|
  {
    match Turn(wanted, ts[0], 0, Reader(false, []))
    case Passes(n, r) => Walk(wanted, ts[1..], n, r).Later(1)
    case _ => Derails
  }

  // ---------- the scan follows the walk ----------

  /** `i0e` where a key is due: its first byte is read as an empty key, the rest as a value. */
  lemma ZeroTurn(wanted: bytes, s: bytes, p: nat, r: Reader)
    requires HasAt(s, p, EncodeInt(0)) && !r.valueDue && wanted != []
    ensures DictScan(wanted, s, NextMark(s, Mark(p, 0), r), NextReader(s, Mark(p, 0), r))
         == DictScan(wanted, s, Mark(p + |EncodeInt(0)|, 0), Reader(false, []))
  {
    hide DictScan, NextMark, NextReader, SkipLen, CStr;
    var zero := ['0' as int];
    assert EncodeInt(0) == [INTEGER] + zero + [END];
    HasAtByte(s, p, EncodeInt(0), 0);
    HasAtByte(s, p, EncodeInt(0), 1);
    HasAtByte(s, p, EncodeInt(0), 2);
    ZeroSkips(s, p + 1);
    NoDigits(s, p);
    DictTurn(wanted, s, Mark(p, 0), r);
    DictTurn(wanted, s, Mark(p + 1, 0), Reader(true, []));
  }

  lemma ZeroSkips(s: bytes, p: nat)
    requires p + 1 < |s| && s[p] == '0' as int && s[p + 1] == END
    ensures SkipLen(GetType(s[p]), s, p) == 2
  {
    DigitsAre(s, p, Dec(0));
    DigitsValueOfDec(0);
  }

  lemma NoDigits(s: bytes, p: nat)
    requires p + 1 < |s| && s[p] == INTEGER
    ensures TextEnd(s, p) == p + 1 && KeyText(s, p) == []
  {
    assert Digits(s, p) == [];
  }

  /** The turn that the tree predicts is the turn the scan makes. */
  lemma TurnFollows(wanted: bytes, t: Token, s: bytes, p: nat, n: int, r: Reader)
    requires HasAt(s, p, TokenText(t))
    ensures var c := Turn(wanted, t, n, r);
            c.Passes? ==>
              DictScan(wanted, s, NextMark(s, Mark(p, n), r), NextReader(s, Mark(p, n), r))
              == DictScan(wanted, s, Mark(p + |TokenText(t)|, c.nesting), c.r)
  {
    hide HasAt, DictScan, NextMark, NextReader, Step, EncodeInt, EncodeStr, CStr;
    StepToken(t, s, p, n);
    ScalarOrNot(s, Mark(p, n), r);
    if t.Word? && n == 0 && !r.valueDue {
      ReadKey(s, p, t.b, r);
    } else if t.Num? && t.n == 0 && n == 0 && !r.valueDue && wanted != [] {
      ZeroTurn(wanted, s, p, r);
    }
  }

  lemma ScalarOrNot(s: bytes, m: Mark, r: Reader)
    requires m.pos < |s|
    ensures m.nesting != 0 || s[m.pos] in {LIST, DICTIONARY, END} ==>
              NextMark(s, m, r) == Step(s, m) && NextReader(s, m, r) == r
    ensures m.nesting == 0 && s[m.pos] !in {LIST, DICTIONARY, END} && r.valueDue ==>
              NextMark(s, m, r) == Step(s, m) && NextReader(s, m, r) == Reader(false, r.key)
  {
    hide Step;
  }

  /** What a course says about the scan. */
  predicate Follows(c: Course, ts: seq<Token>, wanted: bytes, s: bytes, p: nat, q: nat) {
    match c
    case Stops(k) => k <= |ts| && q == p + TokenStart(ts, k)
    case Passes(n, r) => q == DictScan(wanted, s, Mark(p + |Spell(ts)|, n), r)
    case Derails => true
  }

  lemma FollowsLater(c: Course, ts: seq<Token>, wanted: bytes, s: bytes, p: nat, q: nat)
    requires ts != [] && HasAt(s, p, Spell(ts)) && Follows(c, ts[1..], wanted, s, p + |TokenText(ts[0])|, q)
    ensures Follows(c.Later(1), ts, wanted, s, p, q)
  {
    hide HasAt, Spell, TokenText, DictScan, TokenStart;
    SpellHead(ts, s, p);
    if c.Stops? {
      TokenStartBehind(ts, 1, c.k);
    }
  }

  lemma {:induction false} WalkFollows(wanted: bytes, ts: seq<Token>, s: bytes, p: nat, n: int, r: Reader)
    requires HasAt(s, p, Spell(ts))
    ensures Follows(Walk(wanted, ts, n, r), ts, wanted, s, p, DictScan(wanted, s, Mark(p, n), r))
    decreases |ts|
  {
    hide HasAt, Spell, TokenText, DictScan, TokenStart, NextMark, NextReader, Turn;
    if ts == [] {
      SpellOne(Close);
    } else {
      var t := ts[0];
      SpellHead(ts, s, p);
      DictTurn(wanted, s, Mark(p, n), r);
      if n == 0 && r.key == wanted {
        DictStop(wanted, s, Mark(p, n), r);
      } else {
        TurnFollows(wanted, t, s, p, n, r);
        var c := Turn(wanted, t, n, r);
        if c.Passes? {
          WalkFollows(wanted, ts[1..], s, p + |TokenText(t)|, c.nesting, c.r);
          FollowsLater(Walk(wanted, ts[1..], c.nesting, c.r), ts, wanted, s, p, DictScan(wanted, s, Mark(p, n), r));
        }
      }
    }
  }

  /** Over any tokens of at least one, `b_get_in_dict_offset` follows the walk. */
  lemma SearchFollows(wanted: bytes, ts: seq<Token>, s: bytes, p: nat)
    requires NulFree(wanted) && ts != [] && HasAt(s, p, Spell(ts))
    ensures Follows(Search(wanted, ts), ts, wanted, s, p, InDict(wanted, s, p))
  {
    hide HasAt, Spell, TokenText, DictScan, TokenStart, NextMark, NextReader, Turn, Walk;
    var t, r := ts[0], Reader(false, []);
    SpellHead(ts, s, p);
    TurnFollows(wanted, t, s, p, 0, r);
    var c := Turn(wanted, t, 0, r);
    if c.Passes? {
      WalkFollows(wanted, ts[1..], s, p + |TokenText(t)|, c.nesting, c.r);
      FollowsLater(Walk(wanted, ts[1..], c.nesting, c.r), ts, wanted, s, p, InDict(wanted, s, p));
    }
  }

  // ---------- exactly when one key is found ----------

  /** What becomes of the search for a key on its way to the entry that has it. */
  datatype Way = Met | Missed | Derailed

  /** The way to entry `m`, the first with the wanted key. In step, a list or dictionary value takes
      the search out of step. Out of step, a list or dictionary value brings it back, a string value
      is taken for a key, and an integer for an empty key and then some more, unless it is `i0e`. */
  function WayTo(wanted: bytes, es: seq<Entry>, m: nat, out: bool): Way
    requires m < |es|
    decreases m
  {
    if m == 0 then if out then Missed else Met
    else
      match es[0].value
      case Str(b) => if out && CStr(b) == wanted then Missed else WayTo(wanted, es[1..], m - 1, out)
      case Int(n) =>
        if out && wanted == [] then Missed
        else if out && n != 0 then Derailed
        else WayTo(wanted, es[1..], m - 1, false)
      case _ => WayTo(wanted, es[1..], m - 1, !out)
  }

  predicate FirstWith(wanted: bytes, es: seq<Entry>, m: nat) {
    m < |es| && CStr(es[m].key) == wanted && forall j :: 0 <= j < m ==> CStr(es[j].key) != wanted
  }

  lemma WayCases(wanted: bytes, es: seq<Entry>, m: nat, out: bool)
    requires m < |es|
    ensures m == 0 ==> WayTo(wanted, es, m, out) == if out then Missed else Met
    ensures m > 0 && !out ==>
              WayTo(wanted, es, m, out) == WayTo(wanted, es[1..], m - 1, !es[0].value.Scalar())
    ensures m > 0 && out && !es[0].value.Scalar() ==>
              WayTo(wanted, es, m, out) == WayTo(wanted, es[1..], m - 1, false)
    ensures m > 0 && out && es[0].value.Str? ==>
              WayTo(wanted, es, m, out)
              == if CStr(es[0].value.b) == wanted then Missed else WayTo(wanted, es[1..], m - 1, true)
    ensures m > 0 && out && es[0].value.Int? ==>
              WayTo(wanted, es, m, out)
              == if wanted == [] then Missed
                 else if es[0].value.n != 0 then Derailed
                 else WayTo(wanted, es[1..], m - 1, false)
  {
    hide CStr;
  }

  lemma FirstWithTail(wanted: bytes, es: seq<Entry>, m: nat)
    requires FirstWith(wanted, es, m)
    ensures m == 0 ==> CStr(es[0].key) == wanted
    ensures m > 0 ==> CStr(es[0].key) != wanted && FirstWith(wanted, es[1..], m - 1)
  {
    hide CStr;
  }

  predicate Agrees(way: Way, q: nat, goal: nat) {
    way != Derailed ==> (q == goal <==> way == Met)
  }

  lemma ValueStartCons(es: seq<Entry>, m: nat)
    requires m < |es|
    ensures m == 0 ==> ValueStart(es, m) == |EncodeStr(es[0].key)|
    ensures m > 0 ==>
              ValueStart(es, m) == |EncodeStr(es[0].key)| + |Encode(es[0].value)| + ValueStart(es[1..], m - 1)
    ensures ValueStart(es, m) > 0
  {
    hide Encode, EncodeStr;
    EncodeNoEntries();
    assert |EncodeStr(es[m].key)| > 0 by { KeyLength(es[m].key); }
    if m > 0 {
      assert es[..m][1..] == es[1..][..m - 1];
      assert EncodeEntries(es[..m])
          == EncodeStr(es[0].key) + Encode(es[0].value) + EncodeEntries(es[1..][..m - 1]);
    }
  }

  lemma KeyLength(key: bytes)
    ensures |EncodeStr(key)| > 0
  {
  }

  /** In step: a key is read. */
  lemma {:induction false} WayInStep(wanted: bytes, es: seq<Entry>, m: nat, s: bytes, p: nat, key: bytes)
    requires m < |es| && FirstWith(wanted, es, m) && HasAt(s, p, EncodeEntries(es)) && key != wanted
    ensures var q := DictScan(wanted, s, Mark(p, 0), Reader(false, key));
            Agrees(WayTo(wanted, es, m, false), q, p + ValueStart(es, m))
    decreases m, 1
  {
    hide HasAt, Encode, EncodeStr, EncodeEntries, DictScan, CStr, NextMark, NextReader, WayTo, FirstWith, ValueStart;
    SplitEntries(es, s, p);
    var q := p + |EncodeStr(es[0].key)|;
    ReadKey(s, p, es[0].key, Reader(false, key));
    DictTurn(wanted, s, Mark(p, 0), Reader(false, key));
    WayPastKey(wanted, es, m, s, p);
  }

  /** Behind a key that has been read: the search ends there or passes the value. */
  lemma {:induction false} WayPastKey(wanted: bytes, es: seq<Entry>, m: nat, s: bytes, p: nat)
    requires m < |es| && FirstWith(wanted, es, m) && HasAt(s, p, EncodeEntries(es))
    ensures var q := DictScan(wanted, s, Mark(p + |EncodeStr(es[0].key)|, 0), Reader(true, CStr(es[0].key)));
            Agrees(WayTo(wanted, es, m, false), q, p + ValueStart(es, m))
    decreases m, 0
  {
    hide HasAt, Encode, EncodeStr, EncodeEntries, DictScan, CStr, ValueStart, WayTo, FirstWith;
    WayCases(wanted, es, m, false);
    FirstWithTail(wanted, es, m);
    var q, k := p + |EncodeStr(es[0].key)|, CStr(es[0].key);
    var r := q + |Encode(es[0].value)|;
    SplitEntries(es, s, p);
    ValueStartCons(es, m);
    if m == 0 {
      DictStop(wanted, s, Mark(q, 0), Reader(true, k));
    } else if es[0].value.Scalar() {
      PassScalar(wanted, es[0].value, s, q, k);
      WayInStep(wanted, es[1..], m - 1, s, r, k);
    } else {
      PassContainer(wanted, es[0].value, s, q, Reader(true, k));
      WayOutOfStep(wanted, es[1..], m - 1, s, r, k);
    }
  }

  /** Out of step: the key is passed as a value. */
  lemma {:induction false} WayOutOfStep(wanted: bytes, es: seq<Entry>, m: nat, s: bytes, p: nat, key: bytes)
    requires m < |es| && FirstWith(wanted, es, m) && HasAt(s, p, EncodeEntries(es)) && key != wanted
    ensures var q := DictScan(wanted, s, Mark(p, 0), Reader(true, key));
            Agrees(WayTo(wanted, es, m, true), q, p + ValueStart(es, m))
    decreases m, 1
  {
    hide HasAt, Encode, EncodeStr, EncodeEntries, DictScan, CStr, ValueStart, WayTo, FirstWith;
    SplitEntries(es, s, p);
    if m == 0 {
      WayCases(wanted, es, m, true);
      ValueStartCons(es, m);
      OutOfStep(wanted, es, s, p, key);
    } else {
      EncodeOfStr(es[0].key);
      PassScalar(wanted, Str(es[0].key), s, p, key);
      WayThroughValue(wanted, es, m, s, p, key);
    }
  }

  /** And a value is read as a key. */
  lemma {:induction false} WayThroughValue(wanted: bytes, es: seq<Entry>, m: nat, s: bytes, p: nat, key: bytes)
    requires 0 < m < |es| && FirstWith(wanted, es, m) && HasAt(s, p, EncodeEntries(es)) && key != wanted
    ensures var q := DictScan(wanted, s, Mark(p + |EncodeStr(es[0].key)|, 0), Reader(false, key));
            Agrees(WayTo(wanted, es, m, true), q, p + ValueStart(es, m))
    decreases m, 0
  {
    hide HasAt, Encode, EncodeInt, EncodeStr, EncodeEntries, DictScan, CStr, ValueStart, NextMark, NextReader, WayTo,
      FirstWith, Halted;
    var q := p + |EncodeStr(es[0].key)|;
    var r := q + |Encode(es[0].value)|;
    var reader := Reader(false, key);
    WayCases(wanted, es, m, true);
    FirstWithTail(wanted, es, m);
    SplitEntries(es, s, p);
    ValueStartCons(es, m);
    ValueStartCons(es[1..], m - 1);
    UnfoldTokens(es[0].value);
    match es[0].value {
      case Str(b) =>
        StrAsKey(wanted, b, s, q, key);
        if CStr(b) != wanted {
          WayOutOfStep(wanted, es[1..], m - 1, s, r, CStr(b));
        }
      case Int(n) =>
        IntAsKey(wanted, n, s, q, key);
        if wanted != [] && n == 0 {
          WayInStep(wanted, es[1..], m - 1, s, r, []);
        }
      case _ =>
        PassContainer(wanted, es[0].value, s, q, reader);
        WayInStep(wanted, es[1..], m - 1, s, r, key);
    }
  }

  lemma StrAsKey(wanted: bytes, b: bytes, s: bytes, p: nat, key: bytes)
    requires HasAt(s, p, EncodeStr(b)) && key != wanted
    ensures var q := DictScan(wanted, s, Mark(p, 0), Reader(false, key));
            q == if CStr(b) == wanted then p + |EncodeStr(b)|
                 else DictScan(wanted, s, Mark(p + |EncodeStr(b)|, 0), Reader(true, CStr(b)))
  {
    hide HasAt, EncodeStr, DictScan, CStr, NextMark, NextReader;
    EncodeOfStr(b);
    FirstByte(Str(b), s, p);
    ReadKey(s, p, b, Reader(false, key));
    DictTurn(wanted, s, Mark(p, 0), Reader(false, key));
    DictStop(wanted, s, Mark(p + |EncodeStr(b)|, 0), Reader(true, CStr(b)));
  }

  lemma IntAsKey(wanted: bytes, n: int, s: bytes, p: nat, key: bytes)
    requires HasAt(s, p, EncodeInt(n)) && key != wanted
    ensures |EncodeInt(n)| > 1
    ensures var q := DictScan(wanted, s, Mark(p, 0), Reader(false, key));
            && (wanted == [] ==> q == p + 1)
            && (wanted != [] && n == 0 ==> q == DictScan(wanted, s, Mark(p + |EncodeInt(n)|, 0), Reader(false, [])))
  {
    hide HasAt, EncodeInt, DictScan, NextMark, NextReader;
    IntStarts(n, s, p, Reader(false, key));
    DictTurn(wanted, s, Mark(p, 0), Reader(false, key));
    DictStop(wanted, s, Mark(p + 1, 0), Reader(true, []));
    if wanted != [] && n == 0 {
      ZeroTurn(wanted, s, p, Reader(false, key));
    }
  }

  lemma IntStarts(n: int, s: bytes, p: nat, r: Reader)
    requires HasAt(s, p, EncodeInt(n)) && !r.valueDue
    ensures |EncodeInt(n)| > 1 && p < |s|
    ensures NextMark(s, Mark(p, 0), r) == Mark(p + 1, 0) && NextReader(s, Mark(p, 0), r) == Reader(true, [])
  {
    hide IntText;
    HasAtByte(s, p, EncodeInt(n), 0);
    HasAtByte(s, p, EncodeInt(n), 1);
    NoDigits(s, p);
  }

  /** Exactness of `b_get_in_dict_offset` for one key, whatever follows the dictionary: unless it is
      derailed, the search ends at the value of the first entry with the key if and only if the way
      meets it. */
  lemma KeyExact(wanted: bytes, es: seq<Entry>, m: nat, s: bytes, p: nat)
    requires m < |es| && FirstWith(wanted, es, m) && HasAt(s, p, EncodeEntries(es))
    requires WayTo(wanted, es, m, false) != Derailed
    ensures InDict(wanted, s, p) == p + ValueStart(es, m) <==> WayTo(wanted, es, m, false) == Met
  {
    hide HasAt, EncodeStr, EncodeEntries, DictScan, CStr, NextMark, NextReader, WayTo;
    SplitEntries(es, s, p);
    ReadKey(s, p, es[0].key, Reader(false, []));
    WayPastKey(wanted, es, m, s, p);
  }

  lemma KeyMetFinds(wanted: bytes, es: seq<Entry>, m: nat, s: bytes, p: nat)
    requires FirstWith(wanted, es, m) && WayTo(wanted, es, m, false) == Met
    requires HasAt(s, p, EncodeEntries(es))
    ensures InDict(wanted, s, p) == p + ValueStart(es, m)
    ensures HasAt(s, p + ValueStart(es, m), Encode(es[m].value))
  {
    hide HasAt, Encode, EncodeStr, EncodeEntries, InDict, CStr, WayTo;
    KeyExact(wanted, es, m, s, p);
    EntriesFrom(es, m, s, p);
    SplitEntries(es[m..], s, p + |EncodeEntries(es[..m])|);
  }

  /** Scalars on the way are never in it. */
  lemma {:induction false} ScalarsMeet(wanted: bytes, es: seq<Entry>, m: nat)
    requires m < |es| && forall j :: 0 <= j < m ==> es[j].value.Scalar()
    ensures WayTo(wanted, es, m, false) == Met
    decreases m
  {
    if m == 0 {
    } else {
      ScalarsMeet(wanted, es[1..], m - 1);
    }
  }

  /** A second list brings the search back in step: in the body `1:a le 1:b le 1:c i1e` the key `c`
      is found. */
  lemma SecondListRestoresStep(s: bytes, p: nat)
    requires var a: bytes, b: bytes, c: bytes := ['a' as int], ['b' as int], ['c' as int];
             HasAt(s, p, EncodeEntries([Entry(a, List([])), Entry(b, List([])), Entry(c, Int(1))]))
    ensures var a: bytes, b: bytes, c: bytes := ['a' as int], ['b' as int], ['c' as int];
            InDict(c, s, p) == p + ValueStart([Entry(a, List([])), Entry(b, List([])), Entry(c, Int(1))], 2)
  {
    hide HasAt, EncodeEntries, InDict, ValueStart;
    var a: bytes, b: bytes, c: bytes := ['a' as int], ['b' as int], ['c' as int];
    var es := [Entry(a, List([])), Entry(b, List([])), Entry(c, Int(1))];
    assert a[0] != c[0] && b[0] != c[0];
    CStrOfKeys(es);
    assert WayTo(c, es, 2, false) == WayTo(c, es[1..], 1, true) == WayTo(c, es[1..][1..], 0, false);
    KeyExact(c, es, 2, s, p);
  }

  // ---------- exactly when nothing is found ----------

  /** Exactness of the search that finds nothing, in any dictionary, nested in others or not: unless
      it derails, it ends at the end of the string if and only if the walk over the dictionary and
      everything behind it stops nowhere. */
  lemma NothingExact(wanted: bytes, es: seq<Entry>, around: seq<Cursor>, s: bytes, p: nat)
    requires NulFree(wanted) && around != []
    requires !Search(wanted, TokensEntries(es) + TokensBehind(around)).Derails?
    requires var text := EncodeEntries(es) + Behind(around); HasAt(s, p, text) && |s| == p + |text|
    ensures InDict(wanted, s, p) == |s| <==> Search(wanted, TokensEntries(es) + TokensBehind(around)).Passes?
    ensures InDict(wanted, s, p) <= |s|
  {
    hide HasAt, EncodeEntries, TokensEntries, TokensAhead, Spell, TokenStart, Search, InDict, DictScan, Behind;
    var ts := TokensEntries(es) + TokensBehind(around);
    SpellBehind(Entries(es), around);
    AheadOfEntries(es);
    SearchFollows(wanted, ts, s, p);
    assert ts[..|ts|] == ts;
    match Search(wanted, ts)
    case Stops(k) =>
      TokenStartMonotone(ts, k, |ts|);
      SpellWhole(ts);
    case Passes(n, r) =>
      DictStop(wanted, s, Mark(|s|, n), r);
  }

  lemma AheadOfEntries(es: seq<Entry>)
    ensures TokensAhead(Entries(es)) == TokensEntries(es) && EncodeCursor(Entries(es)) == EncodeEntries(es)
  {
  }

  lemma SpellWhole(ts: seq<Token>)
    ensures TokenStart(ts, |ts|) == |Spell(ts)|
  {
    assert ts[..|ts|] == ts;
  }
}
