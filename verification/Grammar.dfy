/** The grammar of bencode (BEP 3, section "bencoding") in literal characters, independent of the
    constants and functions the model is written with, and proved to be what `Encode` writes. */
module Grammar {
  import opened Bytes
  import opened Bencode

  /** `e` is the bencoding of `v`. */
  predicate Writes(e: bytes, v: Value)
    decreases v, 0
  {
    match v
    case Int(n) => |e| >= 2 && e[0] == 'i' as int && e[|e| - 1] == 'e' as int && SignedNumeral(e[1..|e| - 1], n)
    case Str(b) => WritesStr(e, b)
    case List(xs) => |e| >= 2 && e[0] == 'l' as int && e[|e| - 1] == 'e' as int && WritesList(e[1..|e| - 1], xs)
    case Dict(es) => |e| >= 2 && e[0] == 'd' as int && e[|e| - 1] == 'e' as int && WritesEntries(e[1..|e| - 1], es)
  }

  /** A string: the numeral of its length, a colon, its bytes. */
  predicate WritesStr(e: bytes, b: bytes) {
    exists k :: 0 <= k < |e| && e[k] == ':' as int && Numeral(e[..k], |b|) && e[k + 1..] == b
  }

  /** Elements one behind the other. */
  predicate WritesList(e: bytes, xs: seq<Value>)
    decreases xs, 1
  {
    if xs == [] then e == []
    else exists k :: 0 <= k <= |e| && Writes(e[..k], xs[0]) && WritesList(e[k..], xs[1..])
  }

  /** Keys, each with its value behind it. */
  predicate WritesEntries(e: bytes, es: seq<Entry>)
    decreases es, 1
  {
    if es == [] then e == []
    else
      exists j, k :: 0 <= j <= k <= |e| && WritesStr(e[..j], es[0].key) && Writes(e[j..k], es[0].value)
                     && WritesEntries(e[k..], es[1..])
  }

  lemma StrExact(e: bytes, b: bytes)
    ensures WritesStr(e, b) <==> e == EncodeStr(b)
  {
    hide Dec, Numeral;
    if WritesStr(e, b) {
      var k :| 0 <= k < |e| && e[k] == ':' as int && Numeral(e[..k], |b|) && e[k + 1..] == b;
      DecExact(e[..k], |b|);
      assert e == e[..k] + [e[k]] + e[k + 1..];
    }
    if e == EncodeStr(b) {
      var k := |Dec(|b|)|;
      DecExact(Dec(|b|), |b|);
      assert e[..k] == Dec(|b|) && e[k + 1..] == b && e[k] == ':' as int;
    }
  }

  lemma Enclosed(e: bytes, open: byte, body: bytes, close: byte)
    ensures e == [open] + body + [close]
       <==> |e| >= 2 && e[0] == open && e[|e| - 1] == close && e[1..|e| - 1] == body
  {
    if |e| >= 2 {
      assert e == [e[0]] + e[1..|e| - 1] + [e[|e| - 1]];
    }
  }

  /** `Encode` writes bencode, and nothing else is the bencoding of a value. */
  lemma {:induction false} EncodeExact(e: bytes, v: Value)
    ensures Writes(e, v) <==> e == Encode(v)
    decreases v, 0
  {
    hide EncodeList, EncodeEntries, EncodeStr, IntText, SignedNumeral, WritesStr, WritesList, WritesEntries;
    var inner := if |e| >= 2 then e[1..|e| - 1] else [];
    match v
    case Int(n) =>
      IntTextExact(inner, n);
      Enclosed(e, 'i' as int, IntText(n), 'e' as int);
    case Str(b) =>
      StrExact(e, b);
    case List(xs) =>
      ListExactly(inner, xs);
      Enclosed(e, 'l' as int, EncodeList(xs), 'e' as int);
    case Dict(es) =>
      EntriesExactly(inner, es);
      Enclosed(e, 'd' as int, EncodeEntries(es), 'e' as int);
  }

  lemma {:induction false} ListExactly(e: bytes, xs: seq<Value>)
    ensures WritesList(e, xs) <==> e == EncodeList(xs)
    decreases xs, 1
  {
    hide Encode, Writes;
    if xs == [] {
    } else {
      var x, rest := Encode(xs[0]), EncodeList(xs[1..]);
      if WritesList(e, xs) {
        var k :| 0 <= k <= |e| && Writes(e[..k], xs[0]) && WritesList(e[k..], xs[1..]);
        EncodeExact(e[..k], xs[0]);
        ListExactly(e[k..], xs[1..]);
        assert e == e[..k] + e[k..];
      }
      if e == EncodeList(xs) {
        EncodeExact(x, xs[0]);
        ListExactly(rest, xs[1..]);
        assert e[..|x|] == x && e[|x|..] == rest;
      }
    }
  }

  lemma {:induction false} EntriesExactly(e: bytes, es: seq<Entry>)
    ensures WritesEntries(e, es) <==> e == EncodeEntries(es)
    decreases es, 1
  {
    hide Encode, EncodeStr, Writes, WritesStr;
    if es == [] {
    } else {
      var key, v, rest := EncodeStr(es[0].key), Encode(es[0].value), EncodeEntries(es[1..]);
      if WritesEntries(e, es) {
        var j, k :| 0 <= j <= k <= |e| && WritesStr(e[..j], es[0].key) && Writes(e[j..k], es[0].value)
                    && WritesEntries(e[k..], es[1..]);
        StrExact(e[..j], es[0].key);
        EncodeExact(e[j..k], es[0].value);
        EntriesExactly(e[k..], es[1..]);
        assert e == e[..j] + e[j..k] + e[k..];
      }
      if e == EncodeEntries(es) {
        var j, k := |key|, |key| + |v|;
        StrExact(key, es[0].key);
        EncodeExact(v, es[0].value);
        EntriesExactly(rest, es[1..]);
        assert e[..j] == key && e[j..k] == v && e[k..] == rest;
      }
    }
  }
}
