/** What `b_get_in_list_offset` as written does, token by token, and exactly when that finds the
    wanted element of a list. */
module ListExact {
  import opened Bytes
  import opened Bencode
  import opened Scan
  import opened Spelling
  import opened ListLookup

  // ---------- token types ----------

  function Types(ts: seq<Token>): (ks: seq<byte>)
    ensures |ks| == |ts| && forall i :: 0 <= i < |ts| ==> ks[i] == Kind(ts[i])
  {
    if ts == [] then [] else [Kind(ts[0])] + Types(ts[1..])
  }

  /** The types of the tokens of a list's elements, nested tokens included. */
  function TypesList(xs: seq<Value>): seq<byte> {
    Types(TokensList(xs))
  }

  lemma TypesConcat(a: seq<Token>, b: seq<Token>)
    ensures Types(a + b) == Types(a) + Types(b)
  {
  }

  lemma UnfoldTypes(xs: seq<Value>)
    requires xs != []
    ensures TypesList(xs) == Types(Tokens(xs[0])) + TypesList(xs[1..])
    ensures Types(Tokens(xs[0])) != [] && Types(Tokens(xs[0]))[0] == TypeOf(xs[0])
  {
    hide Tokens, Types;
    TypesConcat(Tokens(xs[0]), TokensList(xs[1..]));
  }

  lemma TypesOfNothing()
    ensures TypesList([]) == []
  {
  }

  lemma TypesOfValue(v: Value)
    ensures v.Scalar() ==> Types(Tokens(v)) == [TypeOf(v)]
    ensures !v.Scalar() ==> |Types(Tokens(v))| >= 2
  {
    UnfoldTokens(v);
  }

  lemma TypesListConcat(xs: seq<Value>, ys: seq<Value>)
    ensures TypesList(xs + ys) == TypesList(xs) + TypesList(ys)
  {
    hide Types, TokensList;
    TokensListConcat(xs, ys);
    TypesConcat(TokensList(xs), TokensList(ys));
  }

  // ---------- the walk of the loop over tokens ----------

  /** Where the loop ends: on a token, counted from its start (or just behind the last one), or at
      the end of the string without a result. */
  datatype Outcome = Lands(k: nat) | RunsOut {
    function Later(n: nat): Outcome {
      if Lands? then Lands(n + k) else this
    }
  }

  /** The loop as written: a turn passes one token of another type, if one is there, does not look at
      the type of the next, and if it is not the last turn passes that too. */
  function Turns(ty: byte, c: nat, ts: seq<byte>): (o: Outcome)
    ensures o.Lands? ==> o.k <= |ts|
    decreases |ts|
  {
    if ts == [] then RunsOut
    else if ts[0] == ty then if c == 0 then Lands(0) else Turns(ty, c - 1, ts[1..]).Later(1)
    else if c == 0 then Lands(1)
    else if |ts| == 1 then RunsOut
    else Turns(ty, c - 1, ts[2..]).Later(2)
  }

  /** What `b_get_in_list_offset` returns for that. */
  function Reported(o: Outcome, ts: seq<Token>): int
    requires o.Lands? ==> o.k <= |ts|
  {
    if o.Lands? then TokenStart(ts, o.k) else -1
  }

  /** One turn's jump passes one token. */
  lemma JumpToken(ty: byte, ts: seq<Token>, s: bytes, p: nat, flag: int)
    requires ts != [] && HasAt(s, p, Spell(ts)) && 0 <= flag <= 1
    ensures p < |s| && GetType(s[p]) == Kind(ts[0])
    ensures Jump(ty, s, p, flag, |s| - p) == TokenStart(ts, 1)
    ensures HasAt(s, p + TokenStart(ts, 1), Spell(ts[1..]))
    ensures |Spell(ts)| == TokenStart(ts, 1) + |Spell(ts[1..])|
  {
    hide HasAt, Spell, TokenText, TokenStart, Jump, GetType, Step;
    SpellHead(ts, s, p);
    StepToken(ts[0], s, p, 0);
    SwappedJumpIsOneToken(ty, s, p, flag);
  }

  lemma TypesTail(ts: seq<Token>, n: nat)
    requires n <= |ts|
    ensures Types(ts[n..]) == Types(ts)[n..]
  {
  }

  /** The loop of `b_get_in_list_offset`, from turn `index` on, follows the token types alone. */
  lemma {:induction false} LoopFollowsTokens(ty: byte, c: nat, ts: seq<Token>, s: bytes, at: nat, offset: nat,
                                             index: nat)
    requires HasAt(s, at + offset, Spell(ts))
    requires Turns(ty, c, Types(ts)).Lands? || at + offset + |Spell(ts)| == |s|
    ensures InList(ty, index + c, s, at, offset, index)
         == var r := Reported(Turns(ty, c, Types(ts)), ts); if r < 0 then r else offset + r
    decreases |ts|
  {
    hide InList, Jump, GetType, HasAt, Types, Turns, Spell, TokenStart;
    TurnsCases(ty, c, Types(ts));
    var flag := if index == 0 then 1 else 0;
    TokenStartZero(ts);
    if ts == [] {
      SpellOne(Close);
      InListEnd(ty, index + c, s, at, offset, index);
    } else {
      JumpToken(ty, ts, s, at + offset, flag);
      InListTurn(ty, index + c, s, at, offset, index);
      var next := offset + TokenStart(ts, 1);
      TypesTail(ts, 1);
      if Kind(ts[0]) == ty {
        if c > 0 {
          LoopFollowsTokens(ty, c - 1, ts[1..], s, at, next, index + 1);
          ReportedLater(Turns(ty, c - 1, Types(ts[1..])), ts, 1);
        }
      } else if c > 0 {
        if |ts| == 1 {
          SpellOne(Close);
          assert ts[1..] == [];
          InListEnd(ty, index + c, s, at, next + Jump(ty, s, at + next, flag, |s| - at - next), index + 1);
        } else {
          JumpToken(ty, ts[1..], s, at + next, flag);
          assert ts[1..][1..] == ts[2..];
          TokenStartBehind(ts, 1, 1);
          TypesTail(ts, 2);
          LoopFollowsTokens(ty, c - 1, ts[2..], s, at, offset + TokenStart(ts, 2), index + 1);
          ReportedLater(Turns(ty, c - 1, Types(ts[2..])), ts, 2);
        }
      }
    }
  }

  lemma TokenStartZero(ts: seq<Token>)
    ensures TokenStart(ts, 0) == 0
  {
  }

  lemma ReportedLater(o: Outcome, ts: seq<Token>, n: nat)
    requires n <= |ts| && (o.Lands? ==> o.k <= |ts| - n)
    ensures Reported(o.Later(n), ts) == if o.Lands? then TokenStart(ts, n) + Reported(o, ts[n..]) else -1
  {
    hide Spell, TokenStart;
    if o.Lands? {
      TokenStartBehind(ts, n, o.k);
    }
  }

  lemma TurnsCases(ty: byte, c: nat, ts: seq<byte>)
    ensures ts == [] ==> Turns(ty, c, ts) == RunsOut
    ensures ts != [] && ts[0] == ty ==>
              Turns(ty, c, ts) == if c == 0 then Lands(0) else Turns(ty, c - 1, ts[1..]).Later(1)
    ensures ts != [] && ts[0] != ty ==>
              Turns(ty, c, ts) == if c == 0 then Lands(1)
                                  else if |ts| == 1 then RunsOut
                                  else Turns(ty, c - 1, ts[2..]).Later(2)
  {
  }

  /** On the body of any list, nested in others or not, the loop is a walk over the types of the
      tokens from there on: those of the list, and those behind it as far as the string goes. */
  lemma ListFollowsTokens(ty: byte, count: nat, xs: seq<Value>, around: seq<Cursor>, s: bytes, at: nat)
    requires var text := EncodeList(xs) + Behind(around); HasAt(s, at, text) && |s| == at + |text|
    ensures var ts := TokensList(xs) + TokensBehind(around);
            InList(ty, count, s, at, 0, 0) == Reported(Turns(ty, count, Types(ts)), ts)
  {
    hide HasAt, EncodeList, TokensList, Spell, InList, Turns, Behind, TokensBehind, TokenStart, Types;
    SpellBehind(Siblings(xs), around);
    LoopFollowsTokens(ty, count, TokensList(xs) + TokensBehind(around), s, at, 0, 0);
  }

  /** Whatever follows the list, as long as the walk ends inside it. */
  lemma InsideFollowsTokens(ty: byte, count: nat, xs: seq<Value>, s: bytes, at: nat)
    requires HasAt(s, at, EncodeList(xs)) && Turns(ty, count, TypesList(xs)).Lands?
    ensures InList(ty, count, s, at, 0, 0) == TokenStart(TokensList(xs), Turns(ty, count, TypesList(xs)).k)
  {
    hide HasAt, EncodeList, TokensList, Spell, InList, Turns, TokenStart, Types;
    SpellList(xs);
    LoopFollowsTokens(ty, count, TokensList(xs), s, at, 0, 0);
  }

  // ---------- exactly when the walk ends on the wanted element ----------

  /** Before each of the first `c + 1` types `ty` stands at most one other type. */
  predicate GapsAtMostOne(ty: byte, c: nat, ts: seq<byte>)
    decreases |ts|
  {
    ts != [] &&
    if ts[0] == ty then c == 0 || GapsAtMostOne(ty, c - 1, ts[1..])
    else |ts| > 1 && ts[1] == ty && (c == 0 || GapsAtMostOne(ty, c - 1, ts[2..]))
  }

  lemma {:induction false} NthMonotone(ty: byte, c: nat, ts: seq<byte>)
    requires c + 1 < CountIn(ty, ts)
    ensures NthIn(ty, c, ts) < NthIn(ty, c + 1, ts)
    decreases |ts|
  {
    if ts[0] == ty && c == 0 {
      assert NthIn(ty, 0, ts) == 0;
    } else if ts[0] == ty {
      NthMonotone(ty, c - 1, ts[1..]);
    } else {
      NthMonotone(ty, c, ts[1..]);
    }
  }

  lemma NthHead(ty: byte, c: nat, ts: seq<byte>)
    requires c < CountIn(ty, ts)
    ensures ts != [] && (ts[0] != ty ==> |ts| >= 2)
    ensures ts[0] == ty ==>
              if c == 0 then NthIn(ty, c, ts) == 0
              else c - 1 < CountIn(ty, ts[1..]) && NthIn(ty, c, ts) == 1 + NthIn(ty, c - 1, ts[1..])
  {
  }

  lemma NthTwo(ty: byte, c: nat, ts: seq<byte>)
    requires |ts| >= 2 && c < CountIn(ty, ts) && ts[0] != ty
    ensures if ts[1] == ty then
              if c == 0 then NthIn(ty, c, ts) == 1
              else c - 1 < CountIn(ty, ts[2..]) && NthIn(ty, c, ts) == 2 + NthIn(ty, c - 1, ts[2..])
            else c < CountIn(ty, ts[2..]) && NthIn(ty, c, ts) == 2 + NthIn(ty, c, ts[2..])
  {
    assert ts[1..][1..] == ts[2..];
    assert ts[1..][0] == ts[1];
  }

  /** The walk never ends behind the token with `c` of its type before it, and on that token exactly
      when the gaps allow. */
  lemma {:induction false} LandingExact(ty: byte, c: nat, ts: seq<byte>)
    requires c < CountIn(ty, ts)
    ensures Turns(ty, c, ts).Lands? && Turns(ty, c, ts).k <= NthIn(ty, c, ts)
    ensures Turns(ty, c, ts).k == NthIn(ty, c, ts) <==> GapsAtMostOne(ty, c, ts)
    decreases |ts|
  {
    hide CountIn, NthIn;
    NthHead(ty, c, ts);
    if ts[0] == ty {
      if c > 0 {
        LandingExact(ty, c - 1, ts[1..]);
      }
    } else {
      NthTwo(ty, c, ts);
      if c > 0 {
        LandingExact(ty, c - 1, ts[2..]);
        if ts[1] != ty {
          NthMonotone(ty, c - 1, ts[2..]);
        }
      }
    }
  }

  lemma {:induction false} CountConcat(ty: byte, a: seq<byte>, b: seq<byte>)
    ensures CountIn(ty, a + b) == CountIn(ty, a) + CountIn(ty, b)
    decreases |a|
  {
    if a == [] {
      assert a + b == b;
    } else {
      assert (a + b)[1..] == a[1..] + b;
      CountConcat(ty, a[1..], b);
    }
  }

  /** A type `ty` behind `a` is the one with `c` before it exactly when `a` holds just `c`. */
  lemma {:induction false} NthBehind(ty: byte, c: nat, a: seq<byte>, b: seq<byte>)
    requires b != [] && b[0] == ty && c <= CountIn(ty, a)
    ensures c < CountIn(ty, a + b) && NthIn(ty, c, a + b) <= |a|
    ensures NthIn(ty, c, a + b) == |a| <==> c == CountIn(ty, a)
    decreases |a|
  {
    CountConcat(ty, a, b);
    if a == [] {
      assert a + b == b;
    } else {
      assert (a + b)[1..] == a[1..] + b;
      if a[0] != ty {
        NthBehind(ty, c, a[1..], b);
      } else if c > 0 {
        NthBehind(ty, c - 1, a[1..], b);
      } else {
        assert NthIn(ty, 0, a + b) == 0;
      }
    }
  }

  /** Among the tokens of a list are those that start its elements. */
  lemma {:induction false} TopsAreTokens(ty: byte, xs: seq<Value>)
    ensures CountIn(ty, Tops(xs)) <= CountIn(ty, TypesList(xs))
    ensures (forall j :: 0 <= j < |xs| ==> xs[j].Scalar()) ==> TypesList(xs) == Tops(xs)
    decreases |xs|
  {
    hide Tokens, TokensList, Types, TypeOf, TypesList;
    if xs == [] {
      TypesOfNothing();
    } else {
      var ts := Types(Tokens(xs[0]));
      UnfoldTypes(xs);
      TypesOfValue(xs[0]);
      TopsAreTokens(ty, xs[1..]);
      CountConcat(ty, ts, TypesList(xs[1..]));
      assert CountIn(ty, ts) >= if TypeOf(xs[0]) == ty then 1 else 0;
    }
  }

  lemma {:induction false} CountBeforeNth(ty: byte, c: nat, ts: seq<byte>)
    requires c < CountIn(ty, ts)
    ensures CountIn(ty, ts[..NthIn(ty, c, ts)]) == c
    decreases |ts|
  {
    var k := NthIn(ty, c, ts);
    if k == 0 {
      assert ts[0] == ty;
    } else {
      assert ts[..k][1..] == ts[1..][..k - 1];
      if ts[0] == ty {
        CountBeforeNth(ty, c - 1, ts[1..]);
      } else {
        CountBeforeNth(ty, c, ts[1..]);
      }
    }
  }

  lemma TopsOfPrefix(xs: seq<Value>, k: nat)
    requires k <= |xs|
    ensures Tops(xs[..k]) == Tops(xs)[..k]
  {
  }

  /** The wanted element is the one the loop finds: no token of its type is nested in the elements
      before it, and in the token stream every gap up to it is at most one. */
  predicate Reached(ty: byte, count: nat, xs: seq<Value>)
    requires count < CountOf(ty, xs)
  {
    && CountIn(ty, TypesList(xs[..Nth(ty, count, xs)])) == count
    && GapsAtMostOne(ty, count, TypesList(xs))
  }

  /** The token stream around the wanted element. */
  lemma WantedToken(ty: byte, count: nat, xs: seq<Value>)
    requires count < CountOf(ty, xs)
    ensures var k := Nth(ty, count, xs);
            var a, b := TypesList(xs[..k]), TypesList(xs[k..]);
            && TypesList(xs) == a + b && b != [] && b[0] == ty && count <= CountIn(ty, a)
            && |a| < |TokensList(xs)| && TokenStart(TokensList(xs), |a|) == ElemStart(xs, k)
  {
    hide Tokens, TokensList, Types, Encode, EncodeList, CountIn, NthIn, TypesList, Spell;
    var k := Nth(ty, count, xs);
    assert xs == xs[..k] + xs[k..];
    TypesListConcat(xs[..k], xs[k..]);
    UnfoldTypes(xs[k..]);
    CountBeforeNth(ty, count, Tops(xs));
    TopsOfPrefix(xs, k);
    TopsAreTokens(ty, xs[..k]);
    StartOfElement(xs, k);
  }

  lemma StartOfElement(xs: seq<Value>, k: nat)
    requires k <= |xs|
    ensures |TypesList(xs[..k])| <= |TypesList(xs)| == |TokensList(xs)|
    ensures TokenStart(TokensList(xs), |TypesList(xs[..k])|) == ElemStart(xs, k)
  {
    hide TokensList, EncodeList, Spell, Types;
    var a, b := TokensList(xs[..k]), TokensList(xs[k..]);
    assert xs == xs[..k] + xs[k..];
    TokensListConcat(xs[..k], xs[k..]);
    SpellList(xs[..k]);
    assert (a + b)[..|a|] == a;
  }

  /** Exactness of `b_get_in_list_offset` as written, for every list and every index: the result is
      the start of the wanted element if and only if the token stream reaches it. */
  lemma InListExact(ty: byte, count: nat, xs: seq<Value>, s: bytes, at: nat)
    requires HasAt(s, at, EncodeList(xs)) && count < CountOf(ty, xs)
    ensures InList(ty, count, s, at, 0, 0) == ElemStart(xs, Nth(ty, count, xs)) <==> Reached(ty, count, xs)
  {
    hide HasAt, InList, ElemStart, EncodeList, TokensList, Turns, CountIn, NthIn, GapsAtMostOne, TypesList, TokenStart;
    var k, ts := Nth(ty, count, xs), TypesList(xs);
    var a, b := TypesList(xs[..k]), TypesList(xs[k..]);
    WantedToken(ty, count, xs);
    NthBehind(ty, count, a, b);
    LandingExact(ty, count, ts);
    InsideFollowsTokens(ty, count, xs, s, at);
    var landed := Turns(ty, count, ts).k;
    if landed < |a| {
      TokenStartMonotone(TokensList(xs), landed, |a|);
    }
  }

  // ---------- special cases ----------

  /** Gaps before a type that is the one with `c` before it do not depend on what follows. */
  lemma {:induction false} GapsPrefix(ty: byte, c: nat, a: seq<byte>, b: seq<byte>, b': seq<byte>)
    requires b != [] && b' != [] && b[0] == b'[0] == ty && CountIn(ty, a) == c
    ensures GapsAtMostOne(ty, c, a + b) <==> GapsAtMostOne(ty, c, a + b')
    decreases |a|
  {
    if a == [] {
      assert a + b == b && a + b' == b';
    } else if a[0] == ty {
      assert (a + b)[1..] == a[1..] + b && (a + b')[1..] == a[1..] + b';
      GapsPrefix(ty, c - 1, a[1..], b, b');
    } else if |a| > 1 && a[1] == ty {
      assert (a + b)[2..] == a[2..] + b && (a + b')[2..] == a[2..] + b';
      assert a[1..][1..] == a[2..];
      GapsPrefix(ty, c - 1, a[2..], b, b');
    } else if |a| == 1 {
      assert (a + b)[1] == b[0] && (a + b')[1] == b'[0];
    }
  }

  /** When only scalars stand before the wanted element, the types of the elements decide. */
  lemma InListScalars(ty: byte, count: nat, xs: seq<Value>, s: bytes, at: nat)
    requires HasAt(s, at, EncodeList(xs)) && count < CountOf(ty, xs)
    requires forall j :: 0 <= j < Nth(ty, count, xs) ==> xs[j].Scalar()
    ensures InList(ty, count, s, at, 0, 0) == ElemStart(xs, Nth(ty, count, xs))
       <==> GapsAtMostOne(ty, count, Tops(xs))
  {
    hide HasAt, InList, ElemStart, EncodeList, GapsAtMostOne, TokensList, CountIn, NthIn, TypesList, TokenStart;
    var k := Nth(ty, count, xs);
    InListExact(ty, count, xs, s, at);
    WantedToken(ty, count, xs);
    CountBeforeNth(ty, count, Tops(xs));
    TopsOfPrefix(xs, k);
    TopsAreTokens(ty, xs[..k]);
    assert Tops(xs) == Tops(xs)[..k] + Tops(xs)[k..];
    GapsPrefix(ty, count, Tops(xs[..k]), TypesList(xs[k..]), Tops(xs)[k..]);
  }

  lemma {:induction false} NthZero(ty: byte, xs: seq<Value>)
    requires FirstOf(ty, xs) < |xs|
    ensures 0 < CountOf(ty, xs) && Nth(ty, 0, xs) == FirstOf(ty, xs)
    decreases |xs|
  {
    if TypeOf(xs[0]) == ty {
    } else {
      NthZero(ty, xs[1..]);
    }
  }

  /** Index 0, the only one the program uses: the first element of the type is found if and only if
      it comes first, or second behind a scalar. */
  lemma InListZeroExact(ty: byte, xs: seq<Value>, s: bytes, at: nat)
    requires HasAt(s, at, EncodeList(xs)) && FirstOf(ty, xs) < |xs|
    ensures InList(ty, 0, s, at, 0, 0) == ElemStart(xs, FirstOf(ty, xs))
       <==> FirstOf(ty, xs) == 0 || (FirstOf(ty, xs) == 1 && xs[0].Scalar())
  {
    hide HasAt, InList, ElemStart, EncodeList, CountOf, Nth;
    NthZero(ty, xs);
    InListExact(ty, 0, xs, s, at);
    ReachedZero(ty, xs);
  }

  lemma ReachedZero(ty: byte, xs: seq<Value>)
    requires 0 < CountOf(ty, xs) && FirstOf(ty, xs) < |xs| && Nth(ty, 0, xs) == FirstOf(ty, xs)
    ensures Reached(ty, 0, xs) <==> FirstOf(ty, xs) == 0 || (FirstOf(ty, xs) == 1 && xs[0].Scalar())
  {
    hide Tokens, TokensList, Types, TypesList, TypeOf, CountOf, Nth;
    var k := FirstOf(ty, xs);
    TypesOfNothing();
    UnfoldTypes(xs);
    TypesOfValue(xs[0]);
    if k == 0 {
      assert xs[..0] == [];
    } else {
      UnfoldTypes(xs[1..]);
      UnfoldTypes(xs[..k]);
      if xs[0].Scalar() {
        assert TypesList(xs)[1] == TypeOf(xs[1]);
        if k == 1 {
          assert xs[..1][1..] == [];
          assert CountIn(ty, [TypeOf(xs[0])]) == 0;
        }
      } else if GapsAtMostOne(ty, 0, TypesList(xs)) {
        NestedSecond(ty, Types(Tokens(xs[0])), TypesList(xs[..k][1..]));
        assert TypesList(xs)[1] == Types(Tokens(xs[0]))[1];
      }
    }
  }

  /** An element that stands alone is reached. */
  lemma OnlyElement(v: Value)
    ensures CountOf(TypeOf(v), [v]) == 1 && Nth(TypeOf(v), 0, [v]) == 0
    ensures Reached(TypeOf(v), 0, [v])
  {
    hide TypeOf;
    assert Tops([v]) == [TypeOf(v)];
    assert CountIn(TypeOf(v), [TypeOf(v)]) == 1;
    ReachedZero(TypeOf(v), [v]);
  }

  /** Behind the opening of a list or dictionary the second token is inside it. */
  lemma NestedSecond(ty: byte, ts: seq<byte>, rest: seq<byte>)
    requires |ts| >= 2 && ts[1] == ty
    ensures CountIn(ty, ts + rest) > 0
  {
    CountConcat(ty, ts, rest);
    CountConcat(ty, [ts[0]], ts[1..]);
    assert ts == [ts[0]] + ts[1..];
  }

  // ---------- an index that is not there ----------

  /** How many turns the loop has over tokens of these types before the string ends. */
  function TurnCount(ty: byte, ts: seq<byte>): (n: nat)
    decreases |ts|
  {
    if ts == [] then 0
    else if ts[0] == ty then 1 + TurnCount(ty, ts[1..])
    else if |ts| == 1 then 1
    else 1 + TurnCount(ty, ts[2..])
  }

  lemma {:induction false} TurnsRunOut(ty: byte, c: nat, ts: seq<byte>)
    ensures Turns(ty, c, ts).RunsOut? <==> TurnCount(ty, ts) <= c
    decreases |ts|
  {
    if ts == [] {
    } else if c > 0 {
      if ts[0] == ty {
        TurnsRunOut(ty, c - 1, ts[1..]);
      } else if |ts| > 1 {
        TurnsRunOut(ty, c - 1, ts[2..]);
      }
    }
  }

  /** A turn passes one token or two: two unless it starts on the type wanted. */
  lemma {:induction false} TurnCountBounds(ty: byte, ts: seq<byte>)
    ensures (|ts| + 1) / 2 <= TurnCount(ty, ts) <= |ts|
    ensures ty !in ts ==> TurnCount(ty, ts) == (|ts| + 1) / 2
    ensures (forall i :: 0 <= i < |ts| ==> ts[i] == ty) ==> TurnCount(ty, ts) == |ts|
    decreases |ts|
  {
    if ts == [] {
    } else if ts[0] == ty {
      TurnCountBounds(ty, ts[1..]);
    } else if |ts| > 1 {
      TurnCountBounds(ty, ts[2..]);
    }
  }

  /** Exactness of the result -1 in any list, nested in others or not, for every index: it is
      returned if and only if the loop has no more turns than the index says, where the turns run on
      behind the list's end token to the end of the string. */
  lemma InListAbsent(ty: byte, count: nat, xs: seq<Value>, around: seq<Cursor>, s: bytes, at: nat)
    requires var text := EncodeList(xs) + Behind(around); HasAt(s, at, text) && |s| == at + |text|
    ensures var ts := Types(TokensList(xs) + TokensBehind(around));
            && (InList(ty, count, s, at, 0, 0) == -1 <==> TurnCount(ty, ts) <= count)
            && (|ts| <= count ==> InList(ty, count, s, at, 0, 0) == -1)
  {
    hide HasAt, InList, EncodeList, TokensList, TokensBehind, Behind, Types, Turns, TurnCount, TokenStart;
    var ts := TokensList(xs) + TokensBehind(around);
    ListFollowsTokens(ty, count, xs, around, s, at);
    TurnsRunOut(ty, count, Types(ts));
    TurnCountBounds(ty, Types(ts));
  }

  /** The tokens of two siblings, and how often a type stands in them. */
  lemma TwoSiblings(ty: byte, x: Value, y: Value)
    ensures TypesList([x, y]) == Types(Tokens(x)) + Types(Tokens(y))
    ensures TypesList([x]) == Types(Tokens(x))
    ensures CountOf(ty, [x, y]) == (if TypeOf(x) == ty then 1 else 0) + (if TypeOf(y) == ty then 1 else 0)
  {
    hide Tokens, TokensList, Types, TypesList, TypeOf;
    var xs := [x, y];
    assert xs[1..] == [y] && [y][1..] == [] && [x][1..] == [];
    TypesOfNothing();
    UnfoldTypes(xs);
    UnfoldTypes([x]);
    UnfoldTypes([y]);
    assert Tops(xs) == [TypeOf(x), TypeOf(y)];
    assert Tops(xs)[1..] == [TypeOf(y)] && [TypeOf(y)][1..] == [];
    assert CountIn(ty, [TypeOf(y)]) == if TypeOf(y) == ty then 1 else 0;
  }

  /** An absent index that is not reported: behind one integer and one string, the integer with
      index 1 is placed at the end of both. */
  lemma SecondIntegerMisplaced(n: int, b: bytes, s: bytes, at: nat)
    requires HasAt(s, at, EncodeList([Int(n), Str(b)]))
    ensures CountOf(INTEGER, [Int(n), Str(b)]) == 1
    ensures InList(INTEGER, 1, s, at, 0, 0) == |EncodeList([Int(n), Str(b)])|
  {
    hide HasAt, EncodeList, InList, TypesList, Spell;
    var xs := [Int(n), Str(b)];
    TwoSiblings(INTEGER, Int(n), Str(b));
    TypesOfValue(Int(n));
    TypesOfValue(Str(b));
    assert TypesList(xs) == [INTEGER, OTHER];
    assert [INTEGER, OTHER][1..] == [OTHER];
    assert Turns(INTEGER, 1, [INTEGER, OTHER]) == Turns(INTEGER, 0, [OTHER]).Later(1);
    InsideFollowsTokens(INTEGER, 1, xs, s, at);
    assert xs[..2] == xs;
    StartOfElement(xs, 2);
  }

  lemma {:induction false} SameTypeRun(ty: byte, c: nat, ts: seq<byte>)
    requires c < |ts| && forall i :: 0 <= i < |ts| ==> ts[i] == ty
    ensures c < CountIn(ty, ts) && NthIn(ty, c, ts) == c && GapsAtMostOne(ty, c, ts)
    decreases |ts|
  {
    if c == 0 {
    } else {
      SameTypeRun(ty, c - 1, ts[1..]);
    }
  }

  /** Over a run of scalars of one type that ends the string, `b_get_in_list_offset` finds every
      element and reports -1 for every other index. */
  lemma InListSameType(ty: byte, count: nat, xs: seq<Value>, s: bytes, at: nat)
    requires HasAt(s, at, EncodeList(xs)) && |s| == at + |EncodeList(xs)|
    requires forall j :: 0 <= j < |xs| ==> xs[j].Scalar() && TypeOf(xs[j]) == ty
    ensures InList(ty, count, s, at, 0, 0) == if count < |xs| then ElemStart(xs, count) else -1
  {
    hide HasAt, InList, ElemStart, EncodeList, TokensList, Types, TypeOf, GapsAtMostOne, CountIn, NthIn;
    if count < |xs| {
      SameTypeRun(ty, count, Tops(xs));
      InListScalars(ty, count, xs, s, at);
    } else {
      assert EncodeList(xs) + Behind([]) == EncodeList(xs);
      assert TokensList(xs) + TokensBehind([]) == TokensList(xs);
      InListAbsent(ty, count, xs, [], s, at);
      TopsAreTokens(ty, xs);
    }
  }

  /** An input on which the loop as written fails: behind two integers the first string is missed. */
  lemma TwoIntegersHideString(s: bytes, at: nat)
    requires HasAt(s, at, EncodeList([Int(1), Int(2), Str([])]))
    ensures InList(OTHER, 0, s, at, 0, 0) != ElemStart([Int(1), Int(2), Str([])], 2)
  {
    hide HasAt, EncodeList, InList, ElemStart;
    var xs := [Int(1), Int(2), Str([])];
    var ys := xs[1..];
    var zs := ys[1..];
    assert ys[0] == Int(2) && zs[0] == Str([]);
    assert FirstOf(OTHER, zs) == 0 && FirstOf(OTHER, ys) == 1 && FirstOf(OTHER, xs) == 2;
    InListZeroExact(OTHER, xs, s, at);
  }

  /** A list before the wanted element need not be in the way: among `le le` the list with index 1
      is found. */
  lemma SecondEmptyListFound(s: bytes, at: nat)
    requires HasAt(s, at, EncodeList([List([]), List([])]))
    ensures CountOf(LIST, [List([]), List([])]) == 2 && Nth(LIST, 1, [List([]), List([])]) == 1
    ensures InList(LIST, 1, s, at, 0, 0) == ElemStart([List([]), List([])], 1)
  {
    hide HasAt, EncodeList, InList, ElemStart, TypesList;
    var xs := [List([]), List([])];
    TwoSiblings(LIST, List([]), List([]));
    assert xs[..1] == [List([])];
    assert Types(Tokens(List([]))) == [LIST, END] by {
      assert Tokens(List([])) == [OpenList, Close];
    }
    assert CountIn(LIST, [END]) == 0;
    assert [LIST, END][1..] == [END];
    SameTypeRun(LIST, 1, Tops(xs));
    var ts := TypesList(xs);
    assert ts == [LIST, END, LIST, END];
    assert ts[1..] == [END, LIST, END] && ts[1..][2..] == [END];
    assert GapsAtMostOne(LIST, 0, ts[1..]);
    InListExact(LIST, 1, xs, s, at);
  }
}
