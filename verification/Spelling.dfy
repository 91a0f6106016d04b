/** The tokens of a value: an encoding is the spelling of a flat token sequence, which is what the
    scans see of the tree. */
module Spelling {
  import opened Bytes
  import opened Bencode
  import opened Scan

  datatype Token = OpenList | OpenDict | Close | Num(n: int) | Word(b: bytes)

  function TokenText(t: Token): bytes {
    match t
    case OpenList => [LIST]
    case OpenDict => [DICTIONARY]
    case Close => [END]
    case Num(n) => EncodeInt(n)
    case Word(b) => EncodeStr(b)
  }

  /** What `get_type` makes of the token's first byte. */
  function Kind(t: Token): byte {
    match t
    case OpenList => LIST
    case OpenDict => DICTIONARY
    case Close => END
    case Num(_) => INTEGER
    case Word(_) => OTHER
  }

  function Tokens(v: Value): (ts: seq<Token>)
    ensures ts != [] && Kind(ts[0]) == TypeOf(v)
    decreases v, 0
  {
    match v
    case Int(n) => [Num(n)]
    case Str(b) => [Word(b)]
    case List(xs) => [OpenList] + TokensList(xs) + [Close]
    case Dict(es) => [OpenDict] + TokensEntries(es) + [Close]
  }

  function TokensList(xs: seq<Value>): seq<Token>
    decreases xs, 1
  {
    if xs == [] then [] else Tokens(xs[0]) + TokensList(xs[1..])
  }

  function TokensEntries(es: seq<Entry>): seq<Token>
    decreases es, 1
  {
    if es == [] then [] else [Word(es[0].key)] + Tokens(es[0].value) + TokensEntries(es[1..])
  }

  function TokensAhead(c: Cursor): seq<Token> {
    match c
    case Siblings(xs) => TokensList(xs)
    case Entries(es) => TokensEntries(es)
  }

  function TokensBehind(around: seq<Cursor>): seq<Token> {
    if around == [] then [] else [Close] + TokensAhead(around[0]) + TokensBehind(around[1..])
  }

  function Spell(ts: seq<Token>): bytes {
    if ts == [] then [] else TokenText(ts[0]) + Spell(ts[1..])
  }

  /** Where the `k`-th token starts; the length of the text for `k == |ts|`. */
  function TokenStart(ts: seq<Token>, k: nat): nat
    requires k <= |ts|
  {
    |Spell(ts[..k])|
  }

  lemma TokenTextLength(t: Token)
    ensures |TokenText(t)| >= 1
  {
  }

  lemma {:induction false} SpellConcat(a: seq<Token>, b: seq<Token>)
    ensures Spell(a + b) == Spell(a) + Spell(b)
  {
    hide TokenText;
    if a == [] {
      assert a + b == b;
    } else {
      assert (a + b)[1..] == a[1..] + b;
      SpellConcat(a[1..], b);
    }
  }

  lemma SpellOne(t: Token)
    ensures Spell([t]) == TokenText(t) && Spell([]) == []
  {
    assert Spell([t]) == TokenText(t) + Spell([][..]);
  }

  lemma UnfoldTokens(v: Value)
    ensures v.Int? ==> Tokens(v) == [Num(v.n)] && Encode(v) == EncodeInt(v.n)
    ensures v.Str? ==> Tokens(v) == [Word(v.b)] && Encode(v) == EncodeStr(v.b)
    ensures v.List? ==> Tokens(v) == [OpenList] + TokensList(v.xs) + [Close]
                        && Encode(v) == [LIST] + EncodeList(v.xs) + [END]
    ensures v.Dict? ==> Tokens(v) == [OpenDict] + TokensEntries(v.es) + [Close]
                        && Encode(v) == [DICTIONARY] + EncodeEntries(v.es) + [END]
  {
  }

  /** An encoding is what its tokens spell. */
  lemma {:induction false} SpellTokens(v: Value)
    ensures Spell(Tokens(v)) == Encode(v)
    decreases v, 0
  {
    hide Encode, EncodeList, EncodeEntries, EncodeStr, EncodeInt, Tokens, TokensList, TokensEntries, Spell;
    UnfoldTokens(v);
    if v.Scalar() {
      SpellOne(Tokens(v)[0]);
    } else {
      var open := if v.List? then OpenList else OpenDict;
      var ts := if v.List? then TokensList(v.xs) else TokensEntries(v.es);
      if v.List? {
        SpellList(v.xs);
      } else {
        SpellEntries(v.es);
      }
      SpellOne(open);
      SpellOne(Close);
      SpellConcat([open], ts);
      SpellConcat([open] + ts, [Close]);
    }
  }

  lemma {:induction false} SpellList(xs: seq<Value>)
    ensures Spell(TokensList(xs)) == EncodeList(xs)
    decreases xs, 1
  {
    hide Encode, Tokens;
    if xs == [] {
    } else {
      SpellTokens(xs[0]);
      SpellList(xs[1..]);
      SpellConcat(Tokens(xs[0]), TokensList(xs[1..]));
    }
  }

  lemma {:induction false} SpellEntries(es: seq<Entry>)
    ensures Spell(TokensEntries(es)) == EncodeEntries(es)
    decreases es, 1
  {
    hide Encode, EncodeStr, Tokens, Spell;
    if es == [] {
      SpellOne(Close);
    } else {
      var k, ts, rest := Word(es[0].key), Tokens(es[0].value), TokensEntries(es[1..]);
      SpellOne(k);
      SpellTokens(es[0].value);
      SpellEntries(es[1..]);
      SpellConcat([k] + ts, rest);
      SpellConcat([k], ts);
    }
  }

  lemma SpellAhead(c: Cursor)
    ensures Spell(TokensAhead(c)) == EncodeCursor(c)
  {
    hide Spell, TokensList, TokensEntries, EncodeList, EncodeEntries;
    if c.Siblings? {
      SpellList(c.xs);
    } else {
      SpellEntries(c.es);
    }
  }

  /** The tokens of a body and of everything behind it. */
  lemma {:induction false} SpellBehind(c: Cursor, around: seq<Cursor>)
    ensures Spell(TokensAhead(c) + TokensBehind(around)) == EncodeCursor(c) + Behind(around)
    decreases |around|
  {
    hide Spell, TokensAhead, EncodeCursor;
    SpellAhead(c);
    SpellOne(Close);
    SpellConcat(TokensAhead(c), TokensBehind(around));
    if around == [] {
    } else {
      var inner := TokensAhead(around[0]) + TokensBehind(around[1..]);
      SpellBehind(around[0], around[1..]);
      SpellConcat([Close], inner);
      assert TokensBehind(around) == [Close] + inner;
      assert Behind(around) == [END] + (EncodeCursor(around[0]) + Behind(around[1..]));
    }
  }

  lemma {:induction false} TokensListConcat(xs: seq<Value>, ys: seq<Value>)
    ensures TokensList(xs + ys) == TokensList(xs) + TokensList(ys)
  {
    hide Tokens;
    if xs == [] {
      assert xs + ys == ys;
    } else {
      assert (xs + ys)[1..] == xs[1..] + ys;
      TokensListConcat(xs[1..], ys);
    }
  }

  lemma {:induction false} TokensEntriesConcat(es: seq<Entry>, fs: seq<Entry>)
    ensures TokensEntries(es + fs) == TokensEntries(es) + TokensEntries(fs)
  {
    hide Tokens;
    if es == [] {
      assert es + fs == fs;
    } else {
      assert (es + fs)[1..] == es[1..] + fs;
      TokensEntriesConcat(es[1..], fs);
    }
  }

  lemma TokenStartBehind(ts: seq<Token>, n: nat, k: nat)
    requires n + k <= |ts|
    ensures TokenStart(ts, n + k) == TokenStart(ts, n) + TokenStart(ts[n..], k)
  {
    hide Spell;
    assert ts[..n + k] == ts[..n] + ts[n..][..k];
    SpellConcat(ts[..n], ts[n..][..k]);
  }

  /** Later tokens start later. */
  lemma TokenStartMonotone(ts: seq<Token>, j: nat, k: nat)
    requires j < k <= |ts|
    ensures TokenStart(ts, j) < TokenStart(ts, k) <= |Spell(ts)|
  {
    hide TokenText;
    TokenStartBehind(ts, j, k - j);
    TokenTextLength(ts[j]);
    assert ts[j..][..k - j][0] == ts[j];
    assert ts == ts[..k] + ts[k..];
    SpellConcat(ts[..k], ts[k..]);
  }

  lemma SpellHead(ts: seq<Token>, s: bytes, p: nat)
    requires ts != [] && HasAt(s, p, Spell(ts))
    ensures HasAt(s, p, TokenText(ts[0])) && HasAt(s, p + |TokenText(ts[0])|, Spell(ts[1..]))
    ensures TokenStart(ts, 0) == 0 && TokenStart(ts, 1) == |TokenText(ts[0])|
    ensures p < |s| && p + |TokenText(ts[0])| <= |s|
    ensures |Spell(ts)| == |TokenText(ts[0])| + |Spell(ts[1..])|
  {
    hide HasAt, TokenText;
    HasAtConcat(s, p, TokenText(ts[0]), Spell(ts[1..]));
    TokenTextLength(ts[0]);
    HasAtByte(s, p, TokenText(ts[0]), 0);
    HasAtByte(s, p, TokenText(ts[0]), |TokenText(ts[0])| - 1);
    SpellOne(ts[0]);
    assert ts[..1] == [ts[0]] && ts[..0] == [];
  }

  /** One step of a scan passes exactly one token. */
  lemma StepToken(t: Token, s: bytes, p: nat, n: int)
    requires HasAt(s, p, TokenText(t))
    ensures p < |s| && GetType(s[p]) == Kind(t)
    ensures Step(s, Mark(p, n)).pos == p + |TokenText(t)|
    ensures Step(s, Mark(p, n)).nesting == match t {
      case OpenList => n + 1
      case OpenDict => n + 1
      case Close => n - 1
      case _ => n
    }
    ensures match t
            case OpenList => s[p] == LIST
            case OpenDict => s[p] == DICTIONARY
            case Close => s[p] == END
            case _ => s[p] != LIST && s[p] != DICTIONARY && s[p] != END
  {
    hide HasAt, SkipLen, EncodeInt, EncodeStr;
    StepCases(s, Mark(p, n));
    TokenTextLength(t);
    HasAtByte(s, p, TokenText(t), 0);
    match t
    case Num(k) =>
      ScalarToken(Int(k), s, p);
    case Word(b) =>
      ScalarToken(Str(b), s, p);
    case _ =>
  }

  lemma ScalarToken(v: Value, s: bytes, p: nat)
    requires v.Scalar() && HasAt(s, p, if v.Int? then EncodeInt(v.n) else EncodeStr(v.b))
    ensures var n := |if v.Int? then EncodeInt(v.n) else EncodeStr(v.b)|;
            p < |s| && GetType(s[p]) == TypeOf(v) && SkipLen(GetType(s[p]), s, p) == n
    ensures s[p] != END && s[p] != LIST && s[p] != DICTIONARY
  {
    hide HasAt, SkipLen, EncodeInt, EncodeStr;
    UnfoldTokens(v);
    SkipScalar(v, s, p);
    FirstByte(v, s, p);
  }
}
