/** The list-level scans of src/bencode.c: jumping to the next sibling of a type and picking the
    n-th element of a list. Each loop is a method proved equal to a scan function; the theorems
    about the tree are stated of that function. */
module ListLookup {
  import opened Bytes
  import opened Bencode
  import opened Scan

  // ---------- elements by type ----------

  /** The first element of type `ty`, or the number of elements if there is none. */
  function FirstOf(ty: byte, xs: seq<Value>): (k: nat)
    ensures k <= |xs|
  {
    if xs == [] || TypeOf(xs[0]) == ty then 0 else 1 + FirstOf(ty, xs[1..])
  }

  /** The types of the elements themselves. */
  function Tops(xs: seq<Value>): (ts: seq<byte>)
    ensures |ts| == |xs| && forall i :: 0 <= i < |xs| ==> ts[i] == TypeOf(xs[i])
  {
    if xs == [] then [] else [TypeOf(xs[0])] + Tops(xs[1..])
  }

  function CountIn(ty: byte, ts: seq<byte>): nat {
    if ts == [] then 0 else (if ts[0] == ty then 1 else 0) + CountIn(ty, ts[1..])
  }

  /** The index of the type `ty` that has exactly `c` others before it. */
  function NthIn(ty: byte, c: nat, ts: seq<byte>): (k: nat)
    requires c < CountIn(ty, ts)
    ensures k < |ts| && ts[k] == ty
  {
    if ts[0] != ty then 1 + NthIn(ty, c, ts[1..])
    else if c == 0 then 0
    else 1 + NthIn(ty, c - 1, ts[1..])
  }

  /** How many elements of type `ty` a list has. */
  function CountOf(ty: byte, xs: seq<Value>): nat {
    CountIn(ty, Tops(xs))
  }

  /** The element of type `ty` that has exactly `c` others of that type before it. */
  function Nth(ty: byte, c: nat, xs: seq<Value>): (k: nat)
    requires c < CountOf(ty, xs)
    ensures k < |xs| && TypeOf(xs[k]) == ty
  {
    NthIn(ty, c, Tops(xs))
  }

  lemma ElemStartCons(xs: seq<Value>, k: nat)
    requires 0 < k <= |xs|
    ensures ElemStart(xs, k) == |Encode(xs[0])| + ElemStart(xs[1..], k - 1)
  {
    assert xs[..k][1..] == xs[1..][..k - 1];
  }

  lemma ElemStartZero(xs: seq<Value>)
    ensures ElemStart(xs, 0) == 0
  {
  }

  /** Later elements start later. */
  lemma {:induction false} ElemStartMonotone(xs: seq<Value>, j: nat, k: nat)
    requires j < k <= |xs|
    ensures ElemStart(xs, j) < ElemStart(xs, k)
  {
    ElemStartCons(xs, k);
    if j == 0 {
    } else {
      ElemStartCons(xs, j);
      ElemStartMonotone(xs[1..], j - 1, k - 1);
    }
  }

  /** An element of a list body stands where `ElemStart` says. */
  lemma ElemHasAt(xs: seq<Value>, k: nat, s: bytes, p: nat)
    requires k < |xs| && HasAt(s, p, EncodeList(xs))
    ensures HasAt(s, p + ElemStart(xs, k), EncodeList(xs[k..]))
    ensures HasAt(s, p + ElemStart(xs, k), Encode(xs[k]))
  {
    hide HasAt, Encode, EncodeList;
    var a, b := EncodeList(xs[..k]), EncodeList(xs[k..]);
    assert EncodeList(xs) == a + b by {
      assert xs == xs[..k] + xs[k..];
      EncodeListConcat(xs[..k], xs[k..]);
    }
    HasAtConcat(s, p, a, b);
    SplitList(xs[k..], s, p + |a|);
  }

  /** A list body splits into its first element and the body of the rest. */
  lemma SplitList(xs: seq<Value>, s: bytes, p: nat)
    requires xs != [] && HasAt(s, p, EncodeList(xs))
    ensures HasAt(s, p, Encode(xs[0])) && HasAt(s, p + |Encode(xs[0])|, EncodeList(xs[1..]))
    ensures |EncodeList(xs)| == |Encode(xs[0])| + |EncodeList(xs[1..])|
    ensures p < |s| && GetType(s[p]) == TypeOf(xs[0])
  {
    hide HasAt, Encode, GetType, TypeOf;
    var x, rest := Encode(xs[0]), EncodeList(xs[1..]);
    assert EncodeList(xs) == x + rest;
    TypeOfEncoding(xs[0]);
    HasAtConcat(s, p, x, rest);
    HasAtByte(s, p, x, 0);
  }

  // ---------- b_jump_to_type ----------

  function JumpScan(ty: byte, s: bytes, m: Mark, stop: int, ignore: bool): (q: nat)
    ensures q >= m.pos && (ignore ==> q > m.pos)
    decreases if m.pos < stop then stop - m.pos else 0, ignore
  {
    if (m.pos < stop && !(GetType(ByteAt(s, m.pos)) == ty && m.nesting == 0)) || ignore then
      JumpScan(ty, s, Step(s, m), stop, false)
    else m.pos
  }

  /** What one call of `b_jump_to_type` returns. */
  function Jump(ty: byte, s: bytes, at: nat, strLen: int, ignoreFlag: int): (r: nat)
    ensures ignoreFlag != 0 ==> r > 0
  {
    JumpScan(ty, s, Mark(at, 0), at + strLen, ignoreFlag != 0) - at
  }

  method JumpToType(ty: byte, str: bytes, at: nat, strLen: int, ignoreFlag: int) returns (offset: nat)
    ensures offset == Jump(ty, str, at, strLen, ignoreFlag)
  {
    hide SkipLen, GetType, Step, ByteAt;
    ghost var goal := JumpScan(ty, str, Mark(at, 0), at + strLen, ignoreFlag != 0);
    offset := 0;
    var nesting, ignore := 0, ignoreFlag;
    while (offset < strLen && !(GetType(ByteAt(str, at + offset)) == ty && nesting == 0)) || ignore != 0
      invariant goal == JumpScan(ty, str, Mark(at + offset, nesting), at + strLen, ignore != 0)
      decreases if offset < strLen then strLen - offset else 0, ignore != 0
    {
      StepCases(str, Mark(at + offset, nesting));
      var token := ByteAt(str, at + offset);
      if token == END {
        nesting := nesting - 1;
        offset := offset + 1;
      } else if token == LIST || token == DICTIONARY {
        nesting := nesting + 1;
        offset := offset + 1;
      } else {
        var skip := SkipObj(GetType(token), str, at + offset);
        offset := offset + skip;
      }
      ignore := 0;
    }
  }

  lemma {:induction false} JumpAlong(ty: byte, s: bytes, a: Mark, ms: seq<Mark>, b: Mark, stop: nat)
    requires Visits(s, a, ms, b) && Inside(ms, 0, stop, 1)
    ensures JumpScan(ty, s, a, stop, false) == JumpScan(ty, s, b, stop, false)
    decreases |ms|
  {
    hide Step;
    if ms == [] {
    } else {
      VisitsTail(s, a, ms, b);
      JumpAlong(ty, s, Step(s, a), ms[1..], b, stop);
    }
  }

  /** Once the loop body has run on a value's first token, the whole value is passed. */
  lemma JumpPasses(ty: byte, v: Value, s: bytes, p: nat, stop: nat)
    requires HasAt(s, p, Encode(v)) && p + |Encode(v)| <= stop
    ensures JumpScan(ty, s, Mark(p, 0), stop, true)
         == JumpScan(ty, s, Mark(p + |Encode(v)|, 0), stop, false)
  {
    hide HasAt, Encode, Marks, Visits;
    var ms, b := Marks(v, p, 0), Mark(p + |Encode(v)|, 0);
    Synchronised(v, s, p, 0);
    VisitsTail(s, Mark(p, 0), ms, b);
    JumpAlong(ty, s, Step(s, Mark(p, 0)), ms[1..], b, stop);
  }

  /** On a concatenation of sibling encodings, `b_jump_to_type` with its arguments in their
      declared order finds the first sibling of the wanted type, or the end of the siblings, and
      never a token nested inside one of them. */
  lemma {:induction false} JumpFindsSibling(ty: byte, xs: seq<Value>, s: bytes, p: nat)
    requires HasAt(s, p, EncodeList(xs))
    ensures JumpScan(ty, s, Mark(p, 0), p + |EncodeList(xs)|, false) == p + ElemStart(xs, FirstOf(ty, xs))
    decreases |xs|
  {
    hide HasAt, Encode;
    if xs == [] {
    } else {
      SplitList(xs, s, p);
      JumpFromHead(ty, xs, s, p);
      if TypeOf(xs[0]) != ty {
        ElemStartCons(xs, FirstOf(ty, xs));
      }
    }
  }

  /** With `ignore_flag` set the search starts at the sibling after the current one. */
  lemma {:induction false} JumpFromHead(ty: byte, xs: seq<Value>, s: bytes, p: nat)
    requires xs != [] && HasAt(s, p, EncodeList(xs))
    ensures JumpScan(ty, s, Mark(p, 0), p + |EncodeList(xs)|, true)
         == p + ElemStart(xs, 1 + FirstOf(ty, xs[1..]))
    decreases |xs|, 0
  {
    hide HasAt, Encode, EncodeList, ElemStart, JumpScan;
    var n, k := |Encode(xs[0])|, FirstOf(ty, xs[1..]);
    ElemStartCons(xs, 1 + k);
    SplitList(xs, s, p);
    JumpPasses(ty, xs[0], s, p, p + |EncodeList(xs)|);
    JumpFindsSibling(ty, xs[1..], s, p + n);
  }

  // ---------- b_get_in_list_offset ----------

  /** The loop of `b_get_in_list_offset`. Both calls pass the first-turn flag where the callee
      takes the length, and the length where it takes the flag, as src/bencode.c does. */
  function InList(ty: byte, count: nat, s: bytes, at: nat, offset: nat, index: nat): (r: int)
    ensures r >= -1
    decreases |s| - at - offset
  {
    if at + offset >= |s| then -1
    else
      var flag := if index == 0 then 1 else 0;
      var jump := Jump(ty, s, at + offset, flag, |s| - at - offset);
      if GetType(s[at + offset]) == ty then
        if index == count then offset else InList(ty, count, s, at, offset + jump, index + 1)
      else
        var here := offset + jump;
        var jump' := Jump(ty, s, at + here, flag, |s| - at - here);
        if index == count then here else InList(ty, count, s, at, here + jump', index + 1)
  }

  lemma InListTurn(ty: byte, count: nat, s: bytes, at: nat, offset: nat, index: nat)
    requires at + offset < |s|
    ensures var flag := if index == 0 then 1 else 0;
            var jump := Jump(ty, s, at + offset, flag, |s| - at - offset);
            var here := if GetType(s[at + offset]) == ty then offset else offset + jump;
            var next := if GetType(s[at + offset]) == ty then jump else Jump(ty, s, at + here, flag, |s| - at - here);
            InList(ty, count, s, at, offset, index) ==
            (if index == count then here else InList(ty, count, s, at, here + next, index + 1))
  {
  }

  lemma InListEnd(ty: byte, count: nat, s: bytes, at: nat, offset: nat, index: nat)
    requires at + offset >= |s|
    ensures InList(ty, count, s, at, offset, index) == -1
  {
  }

  method GetInListOffset(ty: byte, count: nat, str: bytes, at: nat) returns (r: int)
    ensures r == InList(ty, count, str, at, 0, 0)
  {
    hide Jump, InList;
    ghost var goal := InList(ty, count, str, at, 0, 0);
    var strLen := |str| - at;
    var offset, index := 0, 0;
    while offset < strLen
      invariant goal == InList(ty, count, str, at, offset, index)
      decreases strLen - offset
    {
      InListTurn(ty, count, str, at, offset, index);
      var jumpOffset := JumpToType(ty, str, at + offset, if index == 0 then 1 else 0, strLen - offset);
      var currentType := GetType(ByteAt(str, at + offset));
      if currentType != ty {
        offset := offset + jumpOffset;
        jumpOffset := JumpToType(ty, str, at + offset, if index == 0 then 1 else 0, strLen - offset);
      }
      if index == count {
        return offset;
      }
      offset := offset + jumpOffset;
      index := index + 1;
    }
    InListEnd(ty, count, str, at, offset, index);
    return -1;
  }

  /** With the two arguments swapped a call passes exactly one token. */
  lemma SwappedJumpIsOneToken(ty: byte, s: bytes, p: nat, flag: int)
    requires p < |s| && 0 <= flag <= 1
    ensures p + Jump(ty, s, p, flag, |s| - p) == Step(s, Mark(p, 0)).pos
  {
    var m := Step(s, Mark(p, 0));
    assert JumpScan(ty, s, m, p + flag, false) == m.pos;
  }
}
