/** `explicit_str`, the escaping printer of src/helper.c. */
module Escape {
  import opened Bytes

  const BACKSLASH: byte := '\\' as int

  /** `escape_char`, with the NUL that ends the literal and that `sizeof` counts. */
  const ESCAPE_CHARS: bytes :=
    [0, 7, 8, 27, 12, 10, 13, 9, 11, BACKSLASH, '\'' as int, '"' as int, '?' as int, NUL]

  /** The letters behind the backslash in `escape_str`, in the same order. */
  const ESCAPE_LETTERS: bytes :=
    ['0' as int, 'a' as int, 'b' as int, 'e' as int, 'f' as int, 'n' as int, 'r' as int, 't' as int, 'v' as int,
     BACKSLASH, '\'' as int, '"' as int, '?' as int]

  /** The first index of `c` in `table`, or its length. */
  function IndexIn(c: byte, table: bytes): (j: nat)
    ensures j <= |table| && (j < |table| ==> table[j] == c)
    ensures forall i :: 0 <= i < j ==> table[i] != c
  {
    if table == [] || table[0] == c then 0 else 1 + IndexIn(c, table[1..])
  }

  predicate Special(c: byte) {
    c in ESCAPE_CHARS
  }

  /** The index of the escape for `c`; the table's last NUL is never reached, its first is. */
  function EscapeIndex(c: byte): (j: nat)
    requires Special(c)
    ensures j < |ESCAPE_LETTERS| && ESCAPE_CHARS[j] == c
  {
    var j := IndexIn(c, ESCAPE_CHARS);
    assert ESCAPE_CHARS[0] == NUL && ESCAPE_CHARS[13] == NUL;
    j
  }

  function Escaped(c: byte): (e: bytes)
    ensures |e| == if Special(c) then 2 else 1
  {
    if Special(c) then [BACKSLASH, ESCAPE_LETTERS[EscapeIndex(c)]] else [c]
  }

  function Explicit(src: bytes): bytes {
    if src == [] then [] else Explicit(src[..|src| - 1]) + Escaped(src[|src| - 1])
  }

  /** The bytes of `dst` the function writes: one more than it returns when the last byte is escaped,
      because `strcpy` ends the escape with a NUL. */
  function Needed(src: bytes): nat {
    |Explicit(src)| + if src != [] && Special(src[|src| - 1]) then 1 else 0
  }

  lemma {:induction false} ExplicitLength(src: bytes, i: nat)
    requires i <= |src|
    ensures |Explicit(src[..i])| + (|src| - i) <= |Explicit(src)|
    ensures |Explicit(src)| <= |Explicit(src[..i])| + 2 * (|src| - i)
    decreases |src| - i
  {
    if i < |src| {
      ExplicitLength(src, i + 1);
      assert src[..i + 1][..i] == src[..i];
    } else {
      assert src[..i] == src;
    }
  }

  lemma RoomFor(src: bytes, i: nat)
    requires i < |src|
    ensures |Explicit(src[..i])| + (if Special(src[i]) then 3 else 1) <= Needed(src)
    ensures |Explicit(src[..i + 1])| <= |Explicit(src)| <= Needed(src)
  {
    hide Explicit, Escaped, Special;
    ExplicitLength(src, i + 1);
    ExplicitNext(src, i);
  }

  method ExplicitStr(src: bytes, dst: array<byte>) returns (k: nat)
    requires Needed(src) <= dst.Length
    modifies dst
    ensures k == |Explicit(src)| && dst[..k] == Explicit(src)
    ensures k < Needed(src) ==> dst[k] == NUL
    ensures forall x :: Needed(src) <= x < dst.Length ==> dst[x] == old(dst[x])
  {
    hide Explicit, Special;
    k := 0;
    ExplicitNothing(src);
    for i := 0 to |src|
      invariant k == |Explicit(src[..i])| <= |Explicit(src)|
      invariant dst[..k] == Explicit(src[..i])
      invariant i > 0 && Special(src[i - 1]) ==> k < dst.Length && dst[k] == NUL
      invariant forall x :: Needed(src) <= x < dst.Length ==> dst[x] == old(dst[x])
    {
      RoomFor(src, i);
      ExplicitNext(src, i);
      var j := FindEscape(src[i]);
      if j < |ESCAPE_LETTERS| {
        dst[k], dst[k + 1], dst[k + 2] := BACKSLASH, ESCAPE_LETTERS[j], NUL;
        k := k + 1;
      } else {
        dst[k] := src[i];
      }
      k := k + 1;
    }
    assert src[..|src|] == src;
  }

  /** The inner loop: the escape for `c`, or the number of escapes if there is none. */
  method FindEscape(c: byte) returns (j: nat)
    ensures Special(c) ==> j == EscapeIndex(c)
    ensures !Special(c) ==> j >= |ESCAPE_LETTERS|
  {
    j := 0;
    while j < |ESCAPE_CHARS|
      invariant j <= |ESCAPE_CHARS|
      invariant forall i :: 0 <= i < j ==> ESCAPE_CHARS[i] != c
    {
      if c == ESCAPE_CHARS[j] {
        FirstIndex(c, ESCAPE_CHARS, j);
        return;
      }
      j := j + 1;
    }
  }

  lemma FirstIndex(c: byte, table: bytes, j: nat)
    requires j < |table| && table[j] == c && forall i :: 0 <= i < j ==> table[i] != c
    ensures IndexIn(c, table) == j
  {
    var k := IndexIn(c, table);
    assert c in table;
    IndexFinds(c, table);
    assert table[k] == c;
  }

  lemma {:induction false} IndexFinds(c: byte, table: bytes)
    requires c in table
    ensures IndexIn(c, table) < |table|
  {
    if table[0] == c {
    } else {
      assert c in table[1..];
      IndexFinds(c, table[1..]);
    }
  }

  lemma ExplicitNothing(src: bytes)
    ensures Explicit(src[..0]) == []
  {
  }

  lemma ExplicitNext(src: bytes, i: nat)
    requires i < |src|
    ensures Explicit(src[..i + 1]) == Explicit(src[..i]) + Escaped(src[i])
    ensures i + 1 == |src| ==> src[..i + 1] == src
  {
    assert src[..i + 1][..i] == src[..i];
  }

  // ---------- the escapes, in literal characters ----------

  /** What each byte is printed as: thirteen have an escape of a backslash and a letter, every other
      stands for itself. */
  function Shown(c: byte): bytes {
    var backslash := '\\' as int;
    if c == 0 then [backslash, '0' as int]
    else if c == 7 then [backslash, 'a' as int]
    else if c == 8 then [backslash, 'b' as int]
    else if c == 27 then [backslash, 'e' as int]
    else if c == 12 then [backslash, 'f' as int]
    else if c == 10 then [backslash, 'n' as int]
    else if c == 13 then [backslash, 'r' as int]
    else if c == 9 then [backslash, 't' as int]
    else if c == 11 then [backslash, 'v' as int]
    else if c == 92 then [backslash, '\\' as int]
    else if c == 39 then [backslash, '\'' as int]
    else if c == 34 then [backslash, '"' as int]
    else if c == 63 then [backslash, '?' as int]
    else [c]
  }

  /** The two tables give every byte its escape. */
  lemma EscapesAre(c: byte)
    ensures Escaped(c) == Shown(c)
    ensures Special(c) <==> c in {0, 7, 8, 9, 10, 11, 12, 13, 27, 34, 39, 63, 92}
  {
    hide IndexIn;
    if Special(c) {
      var j := EscapeIndex(c);
      assert ESCAPE_CHARS[j] == c && j < 13;
    }
  }

  /** The printed text is what the bytes are printed as, one behind the other. */
  lemma ExplicitIs(src: bytes)
    ensures src == [] ==> Explicit(src) == []
    ensures src != [] ==> Explicit(src) == Shown(src[0]) + Explicit(src[1..])
  {
    hide Escaped, Shown;
    if src != [] {
      ExplicitHead(src);
      EscapesAre(src[0]);
    }
  }

  /** The example of src/headers/helper.h:40: a line feed, a word in double quotes, a tab. */
  lemma DocumentedExample()
    ensures Explicit(Ascii("\n\"test\"\t")) == Ascii("\\n\\\"test\\\"\\t")
  {
    hide Explicit, Shown, Ascii;
    var t, e, s: byte := 't' as int, 'e' as int, 's' as int;
    ShownExample();
    ExampleText();
    ExplicitIs([]);
    OnePrinted(9, []);
    OnePrinted(34, [9] + []);
    OnePrinted(t, [34] + ([9] + []));
    OnePrinted(s, [t] + ([34] + ([9] + [])));
    OnePrinted(e, [s] + ([t] + ([34] + ([9] + []))));
    OnePrinted(t, [e] + ([s] + ([t] + ([34] + ([9] + [])))));
    OnePrinted(34, [t] + ([e] + ([s] + ([t] + ([34] + ([9] + []))))));
    OnePrinted(10, [34] + ([t] + ([e] + ([s] + ([t] + ([34] + ([9] + [])))))));
  }

  lemma ExampleText()
    ensures var t, e, s: byte := 't' as int, 'e' as int, 's' as int;
            && Ascii("\n\"test\"\t") == [10] + ([34] + ([t] + ([e] + ([s] + ([t] + ([34] + ([9] + [])))))))
            && Ascii("\\n\\\"test\\\"\\t")
            == [92, 'n' as int] + ([92, 34] + ([t] + ([e] + ([s] + ([t] + ([92, 34] + ([92, t] + [])))))))
  {
  }

  lemma OnePrinted(c: byte, rest: bytes)
    ensures Explicit([c] + rest) == Shown(c) + Explicit(rest)
  {
    ExplicitIs([c] + rest);
  }

  lemma ShownExample()
    ensures Shown(10) == [92, 'n' as int] && Shown(34) == [92, 34] && Shown(9) == [92, 't' as int]
    ensures Shown('t' as int) == ['t' as int] && Shown('e' as int) == ['e' as int] && Shown('s' as int) == ['s' as int]
  {
  }

  // ---------- reading it back ----------

  /** Left to right: a backslash and a letter stand for one byte, any other byte for itself. */
  function Unescape(t: bytes): bytes {
    if |t| >= 2 && t[0] == BACKSLASH && t[1] in ESCAPE_LETTERS then
      [ESCAPE_CHARS[LetterIndex(t[1])]] + Unescape(t[2..])
    else if t == [] then []
    else [t[0]] + Unescape(t[1..])
  }

  function LetterIndex(c: byte): (j: nat)
    requires c in ESCAPE_LETTERS
    ensures j < |ESCAPE_LETTERS| && ESCAPE_LETTERS[j] == c
  {
    IndexFinds(c, ESCAPE_LETTERS);
    IndexIn(c, ESCAPE_LETTERS)
  }

  lemma LettersDistinct(i: nat, j: nat)
    requires i < |ESCAPE_LETTERS| && j < |ESCAPE_LETTERS| && ESCAPE_LETTERS[i] == ESCAPE_LETTERS[j]
    ensures i == j
  {
  }

  lemma {:induction false} ExplicitHead(src: bytes)
    requires src != []
    ensures Explicit(src) == Escaped(src[0]) + Explicit(src[1..])
  {
    hide Escaped;
    var n := |src| - 1;
    if n > 0 {
      ExplicitHead(src[..n]);
      assert src[..n][1..] == src[1..][..n - 1];
    } else {
      assert src[..n] == [] && src[1..] == [];
    }
  }

  /** Left-to-right unescaping recovers the source, byte for byte. */
  lemma {:induction false} UnescapeRecovers(src: bytes)
    ensures Unescape(Explicit(src)) == src
    decreases |src|
  {
    hide Explicit, Unescape, Special, Escaped;
    if src == [] {
      assert src[..0] == src;
      ExplicitNothing(src);
      UnescapeNothing();
    } else {
      ExplicitHead(src);
      UnescapeRecovers(src[1..]);
      UnescapeHead(src[0], Explicit(src[1..]));
    }
  }

  lemma UnescapeNothing()
    ensures Unescape([]) == []
  {
  }

  lemma UnescapeHead(c: byte, rest: bytes)
    ensures Unescape(Escaped(c) + rest) == [c] + Unescape(rest)
  {
    hide IndexIn;
    var t := Escaped(c) + rest;
    if Special(c) {
      assert t[2..] == rest && t[1] == ESCAPE_LETTERS[EscapeIndex(c)];
      LettersDistinct(LetterIndex(t[1]), EscapeIndex(c));
    } else {
      assert t[1..] == rest;
      assert ESCAPE_CHARS[9] == BACKSLASH;
    }
  }

  /** No two sources print alike. */
  lemma ExplicitInjective(a: bytes, b: bytes)
    requires Explicit(a) == Explicit(b)
    ensures a == b
  {
    UnescapeRecovers(a);
    UnescapeRecovers(b);
  }

  lemma {:induction false} ShorterThanDouble(src: bytes)
    ensures |src| <= |Explicit(src)| <= 2 * |src|
    ensures |Explicit(src)| == 2 * |src| <==> forall i :: 0 <= i < |src| ==> Special(src[i])
    decreases |src|
  {
    hide Special, Escaped;
    if src == [] {
    } else {
      var n := |src| - 1;
      ShorterThanDouble(src[..n]);
      assert forall i :: 0 <= i < n ==> src[..n][i] == src[i];
    }
  }

  /** The documented capacity, double the length of the source, suffices if and only if some byte
      stays as it is or there is none at all. */
  lemma DoubleSuffices(src: bytes)
    ensures Needed(src) <= 2 * |src| <==> src == [] || exists i :: 0 <= i < |src| && !Special(src[i])
  {
    hide Special, Explicit;
    ShorterThanDouble(src);
  }

  /** A source whose double length does not suffice: a single NUL needs three bytes. */
  lemma OneNulNeedsThree()
    ensures Needed([NUL]) == 3
  {
    var src: bytes := [NUL];
    assert ESCAPE_CHARS[0] == NUL && Special(src[0]);
    ExplicitNothing(src);
    ExplicitNext(src, 0);
  }
}
