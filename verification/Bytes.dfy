/** Byte strings, C strings and decimal numerals: the vocabulary the C code works in. */
module Bytes {
  type byte = b: int | 0 <= b < 256
  type bytes = seq<byte>

  const NUL: byte := 0
  const DOT: byte := '.' as int

  /** `s[i]` read through a C pointer; outside the buffer the model reads a NUL. */
  function ByteAt(s: bytes, i: int): byte {
    if 0 <= i < |s| then s[i] else NUL
  }

  /** The bytes `e` stand at position `p` of `s`. */
  predicate HasAt(s: bytes, p: nat, e: bytes) {
    p + |e| <= |s| && s[p..p + |e|] == e
  }

  lemma HasAtConcat(s: bytes, p: nat, a: bytes, b: bytes)
    ensures HasAt(s, p, a + b) <==> HasAt(s, p, a) && HasAt(s, p + |a|, b)
  {
    if HasAt(s, p, a + b) {
      assert s[p..p + |a|] == (a + b)[..|a|];
      assert s[p + |a|..p + |a| + |b|] == (a + b)[|a|..];
    }
    if HasAt(s, p, a) && HasAt(s, p + |a|, b) {
      assert s[p..p + |a| + |b|] == s[p..p + |a|] + s[p + |a|..p + |a| + |b|];
    }
  }

  lemma PrefixHasAt(a: bytes, b: bytes)
    ensures HasAt(a + b, 0, a)
  {
  }

  lemma WholeHasAt(s: bytes)
    ensures HasAt(s, 0, s)
  {
  }

  lemma HasAtByte(s: bytes, p: nat, e: bytes, i: nat)
    requires HasAt(s, p, e) && i < |e|
    ensures p + |e| <= |s| && s[p + i] == e[i]
  {
    assert s[p..p + |e|][i] == e[i];
  }

  /** The bytes of `s` from `lo` up to `hi`, as far as the buffer reaches. */
  function Between(s: bytes, lo: nat, hi: nat): bytes
    requires lo <= hi
  {
    if hi <= |s| then s[lo..hi] else if lo <= |s| then s[lo..] else []
  }

  lemma SliceAt(s: bytes, p: nat, e: bytes)
    requires HasAt(s, p, e)
    ensures p + |e| <= |s| && s[p..p + |e|] == e && Between(s, p, p + |e|) == e
  {
  }

  // ---------- C strings ----------

  /** The C string that starts a buffer: its bytes before the first NUL. */
  function CStr(s: bytes): (t: bytes)
    ensures |t| <= |s| && t == s[..|t|]
    ensures NulFree(t) && 0 !in t
    ensures |t| < |s| ==> s[|t|] == 0
  {
    if s == [] || s[0] == NUL then [] else [s[0]] + CStr(s[1..])
  }

  predicate NulFree(s: bytes) {
    forall i :: 0 <= i < |s| ==> s[i] != NUL
  }

  lemma {:induction false} CStrOfNulFree(s: bytes, rest: bytes)
    requires NulFree(s)
    requires rest == [] || rest[0] == NUL
    ensures CStr(s + rest) == s
  {
    if s == [] {
      assert s + rest == rest;
    } else {
      assert (s + rest)[1..] == s[1..] + rest;
      CStrOfNulFree(s[1..], rest);
    }
  }

  lemma CStrSelf(s: bytes)
    ensures CStr(s) == s <==> NulFree(s)
  {
    if NulFree(s) {
      CStrOfNulFree(s, []);
      assert s + [] == s;
    }
  }

  // ---------- decimal numerals ----------

  predicate IsDigit(c: byte) {
    '0' as int <= c <= '9' as int
  }

  predicate AllDigits(s: bytes) {
    forall i :: 0 <= i < |s| ==> IsDigit(s[i])
  }

  /** What `%d` prints for a number that is not negative. */
  function Dec(n: nat): (d: bytes)
    ensures |d| > 0 && AllDigits(d)
  {
    (if n < 10 then [] else Dec(n / 10)) + ['0' as int + n % 10]
  }

  /** What `%d` prints. */
  function IntText(n: int): bytes {
    if n < 0 then ['-' as int] + Dec(-n) else Dec(n)
  }

  /** The value of a buffer that holds digits only. */
  function DigitsValue(d: bytes): nat
    requires AllDigits(d)
  {
    if d == [] then 0
    else DigitsValue(d[..|d| - 1]) * 10 + (d[|d| - 1] - '0' as int)
  }

  lemma {:induction false} DigitsValueOfDec(n: nat)
    ensures DigitsValue(Dec(n)) == n
  {
    var d := Dec(n);
    if n < 10 {
      assert d == ['0' as int + n % 10];
      assert d[..|d| - 1] == [];
    } else {
      DigitsValueOfDec(n / 10);
      assert d[..|d| - 1] == Dec(n / 10);
    }
  }

  /** The longest run of digits that starts at `p`. */
  function Digits(s: bytes, p: nat): (d: bytes)
    ensures AllDigits(d)
    decreases |s| - p
  {
    if p < |s| && IsDigit(s[p]) then [s[p]] + Digits(s, p + 1) else []
  }

  lemma {:induction false} DigitsAre(s: bytes, p: nat, d: bytes)
    requires AllDigits(d) && HasAt(s, p, d) && !IsDigit(ByteAt(s, p + |d|))
    ensures Digits(s, p) == d
    decreases |d|
  {
    if d == [] {
    } else {
      HasAtConcat(s, p, [d[0]], d[1..]);
      assert [d[0]] + d[1..] == d;
      HasAtByte(s, p, d, 0);
      DigitsAre(s, p + 1, d[1..]);
    }
  }

  /** C's `atoi`: white space, an optional sign, then digits up to the first other byte. */
  function Atoi(s: bytes): int {
    if s == [] then 0
    else if s[0] == ' ' as int || 9 <= s[0] <= 13 then Atoi(s[1..])
    else if s[0] == '-' as int then 0 - DigitsValue(Digits(s, 1))
    else if s[0] == '+' as int then DigitsValue(Digits(s, 1))
    else DigitsValue(Digits(s, 0))
  }

  /** `atoi` undoes `%d`, whatever its argument. */
  lemma AtoiOfIntText(n: int)
    ensures Atoi(IntText(n)) == n && NulFree(IntText(n))
  {
    hide Dec, Digits, DigitsValue;
    var t := IntText(n);
    var d := Dec(if n < 0 then -n else n);
    var sign := |t| - |d|;
    assert t[sign..] == d;
    DigitsAre(t, sign, d);
    DigitsValueOfDec(if n < 0 then -n else n);
    assert IsDigit(d[0]);
  }

  // ---------- literal text ----------

  /** A string literal as bytes. */
  function Ascii(t: string): (b: bytes)
    ensures |b| == |t| && forall i :: 0 <= i < |t| && t[i] as int < 256 ==> b[i] == t[i] as int
  {
    seq(|t|, i requires 0 <= i < |t| => if t[i] as int < 256 then t[i] as int else 0)
  }

  lemma AsciiConcat(a: string, b: string)
    ensures Ascii(a + b) == Ascii(a) + Ascii(b)
  {
  }

  function Pow10(k: nat): nat {
    if k == 0 then 1 else 10 * Pow10(k - 1)
  }

  /** The value of a numeral by the places of its digits, the highest first. */
  function PlaceValue(t: bytes): int {
    if t == [] then 0 else (t[0] - '0' as int) * Pow10(|t| - 1) + PlaceValue(t[1..])
  }

  /** `t` is the decimal numeral of `n`: digits only, none of them a leading zero. */
  predicate Numeral(t: bytes, n: int) {
    && t != [] && (forall i :: 0 <= i < |t| ==> '0' as int <= t[i] <= '9' as int)
    && (t[0] == '0' as int ==> |t| == 1)
    && PlaceValue(t) == n
  }

  /** The same with a minus sign before the numeral of a negative number. */
  predicate SignedNumeral(t: bytes, n: int) {
    if n < 0 then t != [] && t[0] == '-' as int && Numeral(t[1..], -n) else Numeral(t, n)
  }

  lemma {:induction false} PlaceValueSnoc(t: bytes, c: byte)
    ensures PlaceValue(t + [c]) == PlaceValue(t) * 10 + (c - '0' as int)
  {
    if t == [] {
      assert t + [c] == [c] && [c][1..] == [];
      assert Pow10(0) == 1;
      assert PlaceValue([c]) == (c - '0' as int) * 1 + PlaceValue([]);
    } else {
      assert (t + [c])[1..] == t[1..] + [c];
      PlaceValueSnoc(t[1..], c);
      var d, p := t[0] - '0' as int, Pow10(|t| - 1);
      assert d * (10 * p) == d * p * 10;
    }
  }

  lemma {:induction false} PlaceValueOfDigits(d: bytes)
    requires AllDigits(d)
    ensures PlaceValue(d) == DigitsValue(d)
  {
    if d == [] {
    } else {
      var n := |d| - 1;
      PlaceValueOfDigits(d[..n]);
      PlaceValueSnoc(d[..n], d[n]);
      assert d == d[..n] + [d[n]];
    }
  }

  /** What `%d` prints starts with a zero only for zero. */
  lemma {:induction false} DecLeads(n: nat)
    ensures Dec(n)[0] == '0' as int <==> n == 0
    ensures n < 10 ==> |Dec(n)| == 1
  {
    if n < 10 {
      assert Dec(n) == ['0' as int + n];
    } else {
      DecLeads(n / 10);
      assert Dec(n)[0] == Dec(n / 10)[0];
    }
  }

  lemma DecStep(v: nat, last: nat)
    requires v > 0 && last < 10
    ensures Dec(v * 10 + last) == Dec(v) + ['0' as int + last]
  {
    assert (v * 10 + last) / 10 == v && (v * 10 + last) % 10 == last;
  }

  lemma DecDigit(last: nat)
    requires last < 10
    ensures Dec(last) == ['0' as int + last]
  {
  }

  lemma LastDigit(t: bytes)
    requires AllDigits(t) && t != []
    ensures var n := |t| - 1;
            && AllDigits(t[..n]) && '0' as int <= t[n] <= '9' as int
            && DigitsValue(t) == DigitsValue(t[..n]) * 10 + (t[n] - '0' as int)
            && (n == 0 ==> DigitsValue(t[..n]) == 0)
  {
  }

  /** Digits without a leading zero are what `%d` prints for their value. */
  lemma {:induction false} DecOfDigits(t: bytes)
    requires AllDigits(t) && t != [] && (t[0] == '0' as int ==> |t| == 1)
    ensures Dec(DigitsValue(t)) == t
    decreases |t|
  {
    hide Dec, DigitsValue, AllDigits;
    var n := |t| - 1;
    var last := t[n] - '0' as int;
    assert t == t[..n] + [t[n]];
    LastDigit(t);
    if n == 0 {
      DecDigit(last);
    } else {
      DecOfDigits(t[..n]);
      DecLeads(DigitsValue(t[..n]));
      DecStep(DigitsValue(t[..n]), last);
    }
  }

  /** `%d` prints the decimal numeral of a number that is not negative, and only that. */
  lemma DecExact(t: bytes, n: nat)
    ensures Numeral(t, n) <==> t == Dec(n)
  {
    hide Dec, DigitsValue, PlaceValue;
    if Numeral(t, n) {
      PlaceValueOfDigits(t);
      DecOfDigits(t);
    }
    if t == Dec(n) {
      DecLeads(n);
      DigitsValueOfDec(n);
      PlaceValueOfDigits(t);
      DecZero();
    }
  }

  lemma DecZero()
    ensures |Dec(0)| == 1
  {
  }

  /** `%d` prints the decimal numeral of any number, behind a minus sign if it is negative. */
  lemma IntTextExact(t: bytes, n: int)
    ensures SignedNumeral(t, n) <==> t == IntText(n)
  {
    hide Numeral, Dec;
    if n < 0 {
      DecExact(if t == [] then [] else t[1..], -n);
      NoEmptyNumeral(-n);
      if t != [] && t[0] == '-' as int {
        assert t == ['-' as int] + t[1..];
      }
    } else {
      DecExact(t, n);
    }
  }

  lemma NoEmptyNumeral(n: int)
    ensures !Numeral([], n)
  {
  }

  /** What `atoi` reads: white space, a sign or none, and digits, up to the first other byte. */
  lemma {:induction false} AtoiReads(space: bytes, sign: bytes, d: bytes, rest: bytes)
    requires forall i :: 0 <= i < |space| ==> space[i] in {32, 9, 10, 11, 12, 13}
    requires sign == [] || sign == ['-' as int] || sign == ['+' as int]
    requires AllDigits(d) && (d == [] ==> sign != []) && (rest == [] || !IsDigit(rest[0]))
    ensures Atoi(space + sign + d + rest) == if sign == ['-' as int] then -PlaceValue(d) else PlaceValue(d)
    decreases |space|
  {
    hide Digits, DigitsValue, PlaceValue;
    var t := space + sign + d + rest;
    if space == [] {
      PlaceValueOfDigits(d);
      assert t[|sign|..|sign| + |d|] == d;
      DigitsAre(t, |sign|, d);
    } else {
      assert t[1..] == space[1..] + sign + d + rest;
      AtoiReads(space[1..], sign, d, rest);
    }
  }
}
