/** Token stepping over flat bencoded bytes, and its agreement with the tree.
    A C pointer `str + at` is modelled by the buffer `str` and the position `at`. */
module Scan {
  import opened Bytes
  import opened Bencode

  // ---------- b_skip_obj ----------

  /** How many bytes lie between `p` and the next end token (or the end of the buffer). */
  function EndRun(s: bytes, p: nat): (r: nat)
    ensures p <= |s| ==> p + r <= |s|
    decreases |s| - p
  {
    if p < |s| && s[p] != END then 1 + EndRun(s, p + 1) else 0
  }

  function SkipLen(ty: byte, s: bytes, p: nat): (r: nat)
    ensures r >= 1
  {
    if ty == OTHER then |Digits(s, p)| + DigitsValue(Digits(s, p)) + 1
    else if ty == INTEGER then EndRun(s, p) + 1
    else 1
  }

  /** The inner loop every reader of a length prefix runs. */
  method ReadDigits(str: bytes, at: nat) returns (d: bytes)
    ensures d == Digits(str, at)
  {
    d := [];
    while IsDigit(ByteAt(str, at + |d|))
      invariant AllDigits(d) && Digits(str, at) == d + Digits(str, at + |d|)
      decreases |str| - at - |d|
    {
      d := d + [str[at + |d|]];
    }
  }

  method SkipObj(ty: byte, str: bytes, at: nat) returns (r: nat)
    ensures r == SkipLen(ty, str, at)
  {
    var offset := 0;
    if ty == OTHER {
      var strOffset := ReadDigits(str, at);
      offset := |strOffset| + DigitsValue(strOffset);
    } else if ty == INTEGER {
      while at + offset < |str| && str[at + offset] != END
        invariant EndRun(str, at) == offset + EndRun(str, at + offset)
      {
        offset := offset + 1;
      }
    }
    return offset + 1;
  }

  lemma {:induction false} EndRunIs(s: bytes, p: nat, t: bytes)
    requires HasAt(s, p, t + [END]) && END !in t
    ensures EndRun(s, p) == |t|
    decreases |t|
  {
    if t == [] {
      HasAtByte(s, p, t + [END], 0);
    } else {
      assert t + [END] == [t[0]] + (t[1..] + [END]);
      HasAtConcat(s, p, [t[0]], t[1..] + [END]);
      HasAtByte(s, p, t + [END], 0);
      EndRunIs(s, p + 1, t[1..]);
    }
  }

  /** At the encoding of a string the digit run is exactly the length prefix. */
  lemma StrPrefix(s: bytes, p: nat, b: bytes)
    requires HasAt(s, p, EncodeStr(b))
    ensures Digits(s, p) == Dec(|b|) && DigitsValue(Digits(s, p)) == |b|
    ensures IsDigit(s[p])
    ensures HasAt(s, p + |Dec(|b|)| + 1, b)
  {
    hide HasAt, Dec, Digits, DigitsValue;
    var d := Dec(|b|);
    HasAtConcat(s, p, d + [COLON], b);
    HasAtConcat(s, p, d, [COLON]);
    HasAtByte(s, p + |d|, [COLON], 0);
    HasAtByte(s, p, d, 0);
    DigitsAre(s, p, d);
    DigitsValueOfDec(|b|);
  }

  /** At the encoding of an integer the scan for the end token stops at its own. */
  lemma IntExtent(s: bytes, p: nat, n: int)
    requires HasAt(s, p, EncodeInt(n))
    ensures s[p] == INTEGER
    ensures EndRun(s, p) == |IntText(n)| + 1
    ensures EndRun(s, p + 1) == |IntText(n)|
    ensures HasAt(s, p + 1, IntText(n) + [END])
  {
    var t := IntText(n);
    HasAtByte(s, p, EncodeInt(n), 0);
    assert EncodeInt(n) == [INTEGER] + (t + [END]);
    HasAtConcat(s, p, [INTEGER], t + [END]);
    EndRunIs(s, p + 1, t);
  }

  /** One call of `b_skip_obj` at a scalar passes exactly its encoding. */
  lemma SkipScalar(v: Value, s: bytes, p: nat)
    requires v.Scalar() && HasAt(s, p, Encode(v))
    ensures SkipLen(GetType(s[p]), s, p) == |Encode(v)|
    ensures s[p] != END && s[p] != LIST && s[p] != DICTIONARY
  {
    HasAtByte(s, p, Encode(v), 0);
    TypeOfEncoding(v);
    if v.Int? {
      IntExtent(s, p, v.n);
    } else {
      StrPrefix(s, p, v.b);
    }
  }

  lemma FirstByte(v: Value, s: bytes, p: nat)
    requires HasAt(s, p, Encode(v))
    ensures p < |s| && GetType(s[p]) == TypeOf(v) && s[p] != END
  {
    hide HasAt, Encode, GetType, TypeOf;
    TypeOfEncoding(v);
    HasAtByte(s, p, Encode(v), 0);
  }

  // ---------- one turn of the scanning loops ----------

  /** A token boundary and the nesting depth the counter holds there. */
  datatype Mark = Mark(pos: nat, nesting: int)

  function Step(s: bytes, m: Mark): (m': Mark)
    ensures m.pos < m'.pos
  {
    var c := ByteAt(s, m.pos);
    if c == END then Mark(m.pos + 1, m.nesting - 1)
    else if c == LIST || c == DICTIONARY then Mark(m.pos + 1, m.nesting + 1)
    else Mark(m.pos + SkipLen(GetType(c), s, m.pos), m.nesting)
  }

  lemma StepCases(s: bytes, m: Mark)
    ensures var c, m' := ByteAt(s, m.pos), Step(s, m);
            if c == END then m' == Mark(m.pos + 1, m.nesting - 1)
            else if c == LIST || c == DICTIONARY then m' == Mark(m.pos + 1, m.nesting + 1)
            else m' == Mark(m.pos + SkipLen(GetType(c), s, m.pos), m.nesting)
  {
  }

  /** A byte that starts no token is passed alone, at the depth it is met. */
  lemma OtherByte(s: bytes, m: Mark)
    requires m.pos < |s| && !('0' as int <= s[m.pos] <= '9' as int)
    requires s[m.pos] !in {'i' as int, 'l' as int, 'd' as int, 'e' as int}
    ensures SkipLen(GetType(s[m.pos]), s, m.pos) == 1 && Step(s, m) == Mark(m.pos + 1, m.nesting)
  {
    hide EndRun;
    StepCases(s, m);
    assert Digits(s, m.pos) == [];
  }

  // ---------- where the tree says tokens start ----------

  /** The token starts of a value encoded at `p`, each with its depth below `d`. */
  function Marks(v: Value, p: nat, d: int): seq<Mark>
    decreases v, 0
  {
    match v
    case Int(_) => [Mark(p, d)]
    case Str(_) => [Mark(p, d)]
    case List(xs) => [Mark(p, d)] + MarksList(xs, p + 1, d + 1) + [Mark(p + 1 + |EncodeList(xs)|, d + 1)]
    case Dict(es) => [Mark(p, d)] + MarksEntries(es, p + 1, d + 1) + [Mark(p + 1 + |EncodeEntries(es)|, d + 1)]
  }

  function MarksList(xs: seq<Value>, p: nat, d: int): seq<Mark>
    decreases xs, 1
  {
    if xs == [] then [] else Marks(xs[0], p, d) + MarksList(xs[1..], p + |Encode(xs[0])|, d)
  }

  function MarksEntries(es: seq<Entry>, p: nat, d: int): seq<Mark>
    decreases es, 1
  {
    if es == [] then []
    else
      var q := p + |EncodeStr(es[0].key)|;
      [Mark(p, d)] + Marks(es[0].value, q, d) + MarksEntries(es[1..], q + |Encode(es[0].value)|, d)
  }

  /** The `i`-th mark, or the one after the last. */
  function MarkAt(ms: seq<Mark>, last: Mark, i: nat): Mark {
    if i < |ms| then ms[i] else last
  }

  /** Stepping from `first` visits exactly `ms`, in order, and then reaches `last`. */
  predicate Visits(s: bytes, first: Mark, ms: seq<Mark>, last: Mark) {
    && MarkAt(ms, last, 0) == first
    && forall i :: 0 <= i < |ms| ==> Step(s, ms[i]) == MarkAt(ms, last, i + 1)
  }

  /** Every mark lies in `lo..hi` at depth `floor` or deeper. */
  predicate Inside(ms: seq<Mark>, lo: nat, hi: nat, floor: int) {
    forall i :: 0 <= i < |ms| ==> lo <= ms[i].pos < hi && ms[i].nesting >= floor
  }

  lemma VisitsConcat(s: bytes, a: Mark, ms: seq<Mark>, b: Mark, ns: seq<Mark>, c: Mark)
    requires Visits(s, a, ms, b) && Visits(s, b, ns, c)
    ensures Visits(s, a, ms + ns, c)
  {
    forall i | 0 <= i < |ms + ns|
      ensures Step(s, (ms + ns)[i]) == MarkAt(ms + ns, c, i + 1)
    {
      if i < |ms| {
        assert Step(s, ms[i]) == MarkAt(ms, b, i + 1);
      } else {
        assert Step(s, ns[i - |ms|]) == MarkAt(ns, c, i - |ms| + 1);
      }
    }
  }

  lemma VisitsTail(s: bytes, a: Mark, ms: seq<Mark>, b: Mark)
    requires Visits(s, a, ms, b) && ms != []
    ensures a == ms[0] && Visits(s, Step(s, a), ms[1..], b)
  {
    assert Step(s, ms[0]) == MarkAt(ms, b, 1);
    forall i | 0 <= i < |ms[1..]|
      ensures Step(s, ms[1..][i]) == MarkAt(ms[1..], b, i + 1)
    {
      assert Step(s, ms[i + 1]) == MarkAt(ms, b, i + 2);
    }
  }

  lemma Join(s: bytes, a: Mark, ms: seq<Mark>, b: Mark, ns: seq<Mark>, c: Mark, floor: int)
    requires Visits(s, a, ms, b) && Inside(ms, a.pos, b.pos, floor)
    requires Visits(s, b, ns, c) && Inside(ns, b.pos, c.pos, floor)
    requires a.pos <= b.pos <= c.pos
    ensures Visits(s, a, ms + ns, c) && Inside(ms + ns, a.pos, c.pos, floor)
  {
    VisitsConcat(s, a, ms, b, ns, c);
  }

  lemma VisitsOne(s: bytes, a: Mark)
    ensures Visits(s, a, [a], Step(s, a)) && Inside([a], a.pos, Step(s, a).pos, a.nesting)
  {
  }

  /** Synchronisation: the counter scan over the encoding of a value stops exactly at the tree's
      token starts, holds the tree's depth there, stays strictly deeper than its start at every
      later token of the value, and ends just past the value's last byte at the depth it began. */
  lemma {:induction false} Synchronised(v: Value, s: bytes, p: nat, d: int)
    requires HasAt(s, p, Encode(v))
    ensures Visits(s, Mark(p, d), Marks(v, p, d), Mark(p + |Encode(v)|, d))
    ensures |Marks(v, p, d)| >= 1
    ensures Inside(Marks(v, p, d), p, p + |Encode(v)|, d)
    ensures Inside(Marks(v, p, d)[1..], p + 1, p + |Encode(v)|, d + 1)
    decreases v, 0
  {
    hide Encode, EncodeList, EncodeEntries, Marks, MarksList, MarksEntries, HasAt, Visits;
    UnfoldValue(v, p, d);
    match v
    case Int(_) =>
      SynchronisedScalar(v, s, p, d);
    case Str(_) =>
      SynchronisedScalar(v, s, p, d);
    case List(xs) =>
      var body := EncodeList(xs);
      Bracketed(s, p, LIST, body);
      SynchronisedList(xs, s, p + 1, d + 1);
      Brackets(s, p, LIST, body, d, MarksList(xs, p + 1, d + 1));
    case Dict(es) =>
      var body := EncodeEntries(es);
      Bracketed(s, p, DICTIONARY, body);
      SynchronisedEntries(es, s, p + 1, d + 1);
      Brackets(s, p, DICTIONARY, body, d, MarksEntries(es, p + 1, d + 1));
  }

  lemma UnfoldValue(v: Value, p: nat, d: int)
    ensures v.Scalar() ==> Marks(v, p, d) == [Mark(p, d)]
    ensures v.List? ==>
              var body := EncodeList(v.xs);
              && Encode(v) == [LIST] + body + [END]
              && Marks(v, p, d) == [Mark(p, d)] + MarksList(v.xs, p + 1, d + 1) + [Mark(p + 1 + |body|, d + 1)]
    ensures v.Dict? ==>
              var body := EncodeEntries(v.es);
              && Encode(v) == [DICTIONARY] + body + [END]
              && Marks(v, p, d) == [Mark(p, d)] + MarksEntries(v.es, p + 1, d + 1) + [Mark(p + 1 + |body|, d + 1)]
  {
  }

  lemma UnfoldList(xs: seq<Value>, p: nat, d: int)
    requires xs != []
    ensures EncodeList(xs) == Encode(xs[0]) + EncodeList(xs[1..])
    ensures MarksList(xs, p, d) == Marks(xs[0], p, d) + MarksList(xs[1..], p + |Encode(xs[0])|, d)
  {
  }

  lemma UnfoldEntries(es: seq<Entry>, p: nat, d: int)
    requires es != []
    ensures EncodeEntries(es) == EncodeStr(es[0].key) + Encode(es[0].value) + EncodeEntries(es[1..])
    ensures var q := p + |EncodeStr(es[0].key)|;
            MarksEntries(es, p, d) == [Mark(p, d)] + Marks(es[0].value, q, d)
                                    + MarksEntries(es[1..], q + |Encode(es[0].value)|, d)
    ensures Encode(Str(es[0].key)) == EncodeStr(es[0].key)
    ensures Marks(Str(es[0].key), p, d) == [Mark(p, d)]
  {
  }

  lemma SynchronisedNothing(s: bytes, p: nat, d: int)
    ensures EncodeList([]) == [] && EncodeEntries([]) == []
    ensures MarksList([], p, d) == [] && MarksEntries([], p, d) == []
    ensures Visits(s, Mark(p, d), [], Mark(p, d)) && Inside([], p, p, d)
  {
  }

  lemma SynchronisedScalar(v: Value, s: bytes, p: nat, d: int)
    requires v.Scalar() && HasAt(s, p, Encode(v))
    ensures Visits(s, Mark(p, d), [Mark(p, d)], Mark(p + |Encode(v)|, d))
    ensures Inside([Mark(p, d)], p, p + |Encode(v)|, d) && Inside([Mark(p, d)][1..], p + 1, p + |Encode(v)|, d + 1)
  {
    SkipScalar(v, s, p);
    VisitsOne(s, Mark(p, d));
  }

  /** The body of a container stands one byte after its opening token. */
  lemma Bracketed(s: bytes, p: nat, open: byte, body: bytes)
    requires HasAt(s, p, [open] + body + [END])
    ensures HasAt(s, p + 1, body)
    ensures p + 2 + |body| <= |s|
    ensures s[p] == open && s[p + 1 + |body|] == END
  {
    HasAtConcat(s, p, [open] + body, [END]);
    HasAtConcat(s, p, [open], body);
    HasAtByte(s, p, [open], 0);
    HasAtByte(s, p + 1 + |body|, [END], 0);
  }

  lemma Brackets(s: bytes, p: nat, open: byte, body: bytes, d: int, ms: seq<Mark>)
    requires open == LIST || open == DICTIONARY
    requires HasAt(s, p, [open] + body + [END])
    requires Visits(s, Mark(p + 1, d + 1), ms, Mark(p + 1 + |body|, d + 1))
    requires Inside(ms, p + 1, p + 1 + |body|, d + 1)
    ensures var all := [Mark(p, d)] + ms + [Mark(p + 1 + |body|, d + 1)];
            && Visits(s, Mark(p, d), all, Mark(p + 2 + |body|, d))
            && Inside(all, p, p + 2 + |body|, d)
            && Inside(all[1..], p + 1, p + 2 + |body|, d + 1)
  {
    hide HasAt, Visits;
    Bracketed(s, p, open, body);
    var a, b, c, z := Mark(p, d), Mark(p + 1, d + 1), Mark(p + 1 + |body|, d + 1), Mark(p + 2 + |body|, d);
    VisitsOne(s, a);
    VisitsOne(s, c);
    Join(s, b, ms, c, [c], z, d + 1);
    Join(s, a, [a], b, ms + [c], z, d);
    assert [a] + ms + [c] == [a] + (ms + [c]);
    assert ([a] + ms + [c])[1..] == ms + [c];
  }

  lemma {:induction false} SynchronisedList(xs: seq<Value>, s: bytes, p: nat, d: int)
    requires HasAt(s, p, EncodeList(xs))
    ensures Visits(s, Mark(p, d), MarksList(xs, p, d), Mark(p + |EncodeList(xs)|, d))
    ensures Inside(MarksList(xs, p, d), p, p + |EncodeList(xs)|, d)
    decreases xs, 1
  {
    hide Encode, EncodeList, Marks, MarksList, HasAt, Visits, Inside;
    if xs == [] {
      SynchronisedNothing(s, p, d);
    } else {
      UnfoldList(xs, p, d);
      var x, rest := Encode(xs[0]), EncodeList(xs[1..]);
      var q := p + |x|;
      HasAtConcat(s, p, x, rest);
      Synchronised(xs[0], s, p, d);
      SynchronisedList(xs[1..], s, q, d);
      Join(s, Mark(p, d), Marks(xs[0], p, d), Mark(q, d), MarksList(xs[1..], q, d), Mark(q + |rest|, d), d);
    }
  }

  lemma {:induction false} SynchronisedEntries(es: seq<Entry>, s: bytes, p: nat, d: int)
    requires HasAt(s, p, EncodeEntries(es))
    ensures Visits(s, Mark(p, d), MarksEntries(es, p, d), Mark(p + |EncodeEntries(es)|, d))
    ensures Inside(MarksEntries(es, p, d), p, p + |EncodeEntries(es)|, d)
    decreases es, 1
  {
    hide Encode, EncodeStr, EncodeEntries, Marks, MarksEntries, HasAt, Visits, Inside;
    if es == [] {
      SynchronisedNothing(s, p, d);
    } else {
      UnfoldEntries(es, p, d);
      var k, v, rest := EncodeStr(es[0].key), Encode(es[0].value), EncodeEntries(es[1..]);
      var q, r := p + |k|, p + |k| + |v|;
      HasAtConcat(s, p, k + v, rest);
      HasAtConcat(s, p, k, v);
      SynchronisedScalar(Str(es[0].key), s, p, d);
      Synchronised(es[0].value, s, q, d);
      SynchronisedEntries(es[1..], s, r, d);
      var a, ms := Mark(p, d), Marks(es[0].value, q, d);
      Join(s, a, [a], Mark(q, d), ms, Mark(r, d), d);
      Join(s, a, [a] + ms, Mark(r, d), MarksEntries(es[1..], r, d), Mark(r + |rest|, d), d);
    }
  }

  // ---------- the extent loop of b_get ----------

  /** `while(... < str_len && nesting >= 0)`: where the loop of `b_get` leaves the scan. */
  function ScanClose(s: bytes, m: Mark): (q: nat)
    ensures q >= m.pos
    decreases |s| - m.pos
  {
    if m.pos < |s| && m.nesting >= 0 then ScanClose(s, Step(s, m)) else m.pos
  }

  lemma {:induction false} ScanCloseAlong(s: bytes, a: Mark, ms: seq<Mark>, b: Mark)
    requires Visits(s, a, ms, b) && Inside(ms, 0, |s|, 0)
    ensures ScanClose(s, a) == ScanClose(s, b)
    decreases |ms|
  {
    if ms == [] {
    } else {
      VisitsTail(s, a, ms, b);
      ScanCloseAlong(s, Step(s, a), ms[1..], b);
    }
  }

  /** The extent loop, started past a container's opening token, stops just past its own end
      token, whatever bytes follow the container. */
  lemma ScanCloseContainer(v: Value, s: bytes, p: nat)
    requires !v.Scalar() && HasAt(s, p, Encode(v))
    ensures ScanClose(s, Mark(p + 1, 0)) == p + |Encode(v)|
  {
    hide HasAt, Encode, Marks, Visits;
    var e := Encode(v);
    Synchronised(v, s, p, -1);
    TypeOfEncoding(v);
    HasAtByte(s, p, e, 0);
    VisitsTail(s, Mark(p, -1), Marks(v, p, -1), Mark(p + |e|, -1));
    ScanCloseAlong(s, Mark(p + 1, 0), Marks(v, p, -1)[1..], Mark(p + |e|, -1));
  }
}
