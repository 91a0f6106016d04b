/** Bencoded values (BEP 3, section "bencoding") as trees, and their encoding.
    The C code never builds the tree: it is the meaning the flat scans are proved against. */
module Bencode {
  import opened Bytes

  const INTEGER: byte := 'i' as int
  const LIST: byte := 'l' as int
  const DICTIONARY: byte := 'd' as int
  const OTHER: byte := 'o' as int // string or binary
  const END: byte := 'e' as int   // OBJECT_END_TOKEN
  const COLON: byte := ':' as int

  datatype Value =
    | Int(n: int)
    | Str(b: bytes)
    | List(xs: seq<Value>)
    | Dict(es: seq<Entry>)
  {
    predicate Scalar() { Int? || Str? }
  }

  datatype Entry = Entry(key: bytes, value: Value)

  function EncodeStr(b: bytes): bytes {
    Dec(|b|) + [COLON] + b
  }

  function EncodeInt(n: int): bytes {
    [INTEGER] + IntText(n) + [END]
  }

  function Encode(v: Value): (e: bytes)
    ensures |e| >= 2
    decreases v, 0
  {
    match v
    case Int(n) => EncodeInt(n)
    case Str(b) => EncodeStr(b)
    case List(xs) => [LIST] + EncodeList(xs) + [END]
    case Dict(es) => [DICTIONARY] + EncodeEntries(es) + [END]
  }

  function EncodeList(xs: seq<Value>): bytes
    decreases xs, 1
  {
    if xs == [] then [] else Encode(xs[0]) + EncodeList(xs[1..])
  }

  function EncodeEntries(es: seq<Entry>): bytes
    decreases es, 1
  {
    if es == [] then []
    else EncodeStr(es[0].key) + Encode(es[0].value) + EncodeEntries(es[1..])
  }

  /** What lies ahead of a position: elements of a list, or entries of a dictionary. */
  datatype Cursor = Siblings(xs: seq<Value>) | Entries(es: seq<Entry>)

  function EncodeCursor(c: Cursor): bytes {
    match c
    case Siblings(xs) => EncodeList(xs)
    case Entries(es) => EncodeEntries(es)
  }

  /** What follows the body of a nested container: its end token, what stands behind it in the
      container around it, that one's end token, and so on outwards. */
  function Behind(around: seq<Cursor>): bytes {
    if around == [] then [] else [END] + EncodeCursor(around[0]) + Behind(around[1..])
  }

  lemma {:induction false} EncodeListConcat(xs: seq<Value>, ys: seq<Value>)
    ensures EncodeList(xs + ys) == EncodeList(xs) + EncodeList(ys)
  {
    if xs == [] {
      assert xs + ys == ys;
    } else {
      assert (xs + ys)[1..] == xs[1..] + ys;
      EncodeListConcat(xs[1..], ys);
    }
  }

  lemma {:induction false} EncodeEntriesConcat(es: seq<Entry>, fs: seq<Entry>)
    ensures EncodeEntries(es + fs) == EncodeEntries(es) + EncodeEntries(fs)
  {
    if es == [] {
      assert es + fs == fs;
    } else {
      assert (es + fs)[1..] == es[1..] + fs;
      EncodeEntriesConcat(es[1..], fs);
    }
  }

  /** `get_type`: the type a token's first byte announces. */
  function GetType(token: byte): byte {
    if IsDigit(token) then OTHER else token
  }

  function TypeOf(v: Value): byte {
    match v
    case Int(_) => INTEGER
    case Str(_) => OTHER
    case List(_) => LIST
    case Dict(_) => DICTIONARY
  }

  /** The first byte of an encoding announces the value's type. */
  lemma TypeOfEncoding(v: Value)
    ensures GetType(Encode(v)[0]) == TypeOf(v)
    ensures Encode(v)[0] != END
    ensures v.Scalar() ==> Encode(v)[0] != LIST && Encode(v)[0] != DICTIONARY
    ensures v.List? ==> Encode(v)[0] == LIST
    ensures v.Dict? ==> Encode(v)[0] == DICTIONARY
  {
    if v.Str? {
      assert Encode(v)[0] == Dec(|v.b|)[0];
    }
  }

  /** Where the `k`-th element of a list body starts, counted from the body's start. */
  function ElemStart(xs: seq<Value>, k: nat): nat
    requires k <= |xs|
  {
    |EncodeList(xs[..k])|
  }

  /** Where the value of the `k`-th entry of a dictionary body starts. */
  function ValueStart(es: seq<Entry>, k: nat): nat
    requires k < |es|
  {
    |EncodeEntries(es[..k])| + |EncodeStr(es[k].key)|
  }
}
