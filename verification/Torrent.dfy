/** Reading a single-file torrent out of its bencoded bytes (src/tracker_communication.c). */
module Torrent {
  import opened Bytes
  import opened Bencode
  import opened Path
  import opened KeyPaths

  const MAX_BENCODED_OTHER_LEN := 100000
  const MAX_STR_LEN := 1000
  const SHA_DIGEST_LENGTH := 20

  const ANNOUNCE := Ascii("0.d|announce|")
  const CREATION_DATE := Ascii("0.d|creation date|")
  const LENGTH := Ascii("0.d|info|0.d|length|")
  const NAME := Ascii("0.d|info|0.d|name|")
  const PIECE_LENGTH := Ascii("0.d|info|0.d|piece length|")
  const PIECES := Ascii("0.d|info|0.d|pieces|")

  /** The fields of `struct TorrentData` that are filled; strings are held as C strings. */
  class TorrentData {
    var announce: bytes
    var creationDate: int
    var length: int
    var name: bytes
    var pieceLength: int
    var pieces: bytes
  }

  /** The bytes `b_get` copies for a path. */
  function Field(path: bytes, s: bytes): bytes
    requires GetExtent(path, s).Found? && Fits(GetExtent(path, s), s, |s|, false)
  {
    var e := GetExtent(path, s);
    s[e.start..e.start + e.len]
  }

  predicate Present(path: bytes, s: bytes, capacity: nat) {
    GetExtent(path, s).Found? && Fits(GetExtent(path, s), s, |s|, false) && |Field(path, s)| < capacity
  }

  function IntField(path: bytes, s: bytes): int
    requires Present(path, s, MAX_STR_LEN)
  {
    Atoi(CStr(Field(path, s)))
  }

  /** `ceil(length / piece_length)` as the C code computes it. */
  function PieceCount(length: int, pieceLength: int): nat
    requires 0 <= length && 0 < pieceLength
  {
    (length + pieceLength - 1) / pieceLength
  }

  /** What the function asks of the string: the six fields are there and fit their buffers, the
      sizes are 32-bit numbers that make sense, and the hashes fit what is allocated for them. */
  predicate Readable(s: bytes) {
    && Present(ANNOUNCE, s, MAX_BENCODED_OTHER_LEN)
    && Present(CREATION_DATE, s, MAX_STR_LEN)
    && Present(LENGTH, s, MAX_STR_LEN)
    && Present(NAME, s, MAX_BENCODED_OTHER_LEN)
    && Present(PIECE_LENGTH, s, MAX_STR_LEN)
    && 0 <= IntField(LENGTH, s) && 0 < IntField(PIECE_LENGTH, s)
    && IntField(LENGTH, s) + IntField(PIECE_LENGTH, s) - 1 < 0x8000_0000
    && Present(PIECES, s, SHA_DIGEST_LENGTH * PieceCount(IntField(LENGTH, s), IntField(PIECE_LENGTH, s)) + 1)
  }

  /** The fields fit the buffers they are copied to. */
  lemma FieldsFit(s: bytes)
    requires Readable(s)
    ensures |Field(ANNOUNCE, s)| < 100000 && |Field(NAME, s)| < 100000
    ensures |Field(CREATION_DATE, s)| < 1000 && |Field(LENGTH, s)| < 1000 && |Field(PIECE_LENGTH, s)| < 1000
  {
    hide GetExtent, Atoi, CStr;
  }

  method DeserializeTorrent(torrentData: TorrentData, str: bytes)
    requires Readable(str)
    modifies torrentData
    ensures torrentData.announce == CStr(Field(ANNOUNCE, str))
    ensures torrentData.creationDate == IntField(CREATION_DATE, str)
    ensures torrentData.length == IntField(LENGTH, str)
    ensures torrentData.name == CStr(Field(NAME, str))
    ensures torrentData.pieceLength == IntField(PIECE_LENGTH, str)
    ensures |torrentData.pieces| == 20 * PieceCount(torrentData.length, torrentData.pieceLength)
    ensures Field(PIECES, str) <= torrentData.pieces
  {
    hide GetExtent, CStr, Atoi;
    torrentData.announce := GetString(ANNOUNCE, str, MAX_BENCODED_OTHER_LEN);
    var creationDateStr := GetString(CREATION_DATE, str, MAX_STR_LEN);
    torrentData.creationDate := Atoi(creationDateStr);
    var lengthStr := GetString(LENGTH, str, MAX_STR_LEN);
    torrentData.length := Atoi(lengthStr);
    torrentData.name := GetString(NAME, str, MAX_BENCODED_OTHER_LEN);
    var pieceLengthStr := GetString(PIECE_LENGTH, str, MAX_STR_LEN);
    torrentData.pieceLength := Atoi(pieceLengthStr);
    var numberOfPieces := (torrentData.length + torrentData.pieceLength - 1) / torrentData.pieceLength;
    var pieces := new byte[SHA_DIGEST_LENGTH * numberOfPieces];
    var n := Get(PIECES, str, pieces, false);
    assert pieces[..][..n] == Field(PIECES, str);
    torrentData.pieces := pieces[..];
  }

  /** One `b_get` into a character buffer that is afterwards read as a C string. */
  method GetString(path: bytes, str: bytes, capacity: nat) returns (t: bytes)
    requires Present(path, str, capacity)
    ensures t == CStr(Field(path, str))
  {
    hide GetExtent, CStr;
    var out := new byte[capacity];
    var n := Get(path, str, out, true);
    CStrOfCopy(out[..], Field(path, str));
    t := CStr(out[..]);
  }

  lemma CStrOfCopy(buffer: bytes, b: bytes)
    requires |b| < |buffer| && buffer[..|b|] == b && buffer[|b|] == NUL
    ensures CStr(buffer) == CStr(b)
  {
    var t := CStr(b);
    CStrOfNulFree(t, buffer[|t|..]);
    assert buffer == t + buffer[|t|..] by {
      assert buffer[..|t|] == b[..|t|];
    }
  }

  // ---------- literal paths ----------

  lemma RootStep()
    ensures Ascii("0.d|") == Dec(0) + [DOT, DICTIONARY, PATH_DELIMITER]
    ensures Ascii("|") == [PATH_DELIMITER]
  {
    assert Dec(0) == ['0' as int];
    var a := Ascii("0.d|");
    assert a[0] == '0' as int && a[1] == DOT && a[2] == DICTIONARY && a[3] == PATH_DELIMITER;
  }

  /** The text `0.d|k|` spells the lookup of `k`, and `0.d|k1|0.d|k2|` that of `k2` under `k1`. */
  lemma LiteralPath(k: string, rest: string, keys: seq<bytes>)
    requires Ascii(rest) == KeyPath(keys)
    ensures Ascii("0.d|" + k + "|" + rest) == KeyPath([Ascii(k)] + keys)
  {
    hide Ascii, Dec;
    RootStep();
    AsciiConcat("0.d|" + k + "|", rest);
    AsciiConcat("0.d|" + k, "|");
    AsciiConcat("0.d|", k);
    assert ([Ascii(k)] + keys)[1..] == keys;
  }

  lemma LiteralPaths()
    ensures ANNOUNCE == KeyPath([Ascii("announce")])
    ensures CREATION_DATE == KeyPath([Ascii("creation date")])
    ensures LENGTH == KeyPath([Ascii("info"), Ascii("length")])
    ensures NAME == KeyPath([Ascii("info"), Ascii("name")])
    ensures PIECE_LENGTH == KeyPath([Ascii("info"), Ascii("piece length")])
    ensures PIECES == KeyPath([Ascii("info"), Ascii("pieces")])
  {
    hide Ascii, KeyPath;
    OneKey("announce", "0.d|announce|");
    OneKey("creation date", "0.d|creation date|");
    TwoKeys("length", "0.d|info|0.d|length|");
    TwoKeys("name", "0.d|info|0.d|name|");
    TwoKeys("piece length", "0.d|info|0.d|piece length|");
    TwoKeys("pieces", "0.d|info|0.d|pieces|");
  }

  lemma OneKey(k: string, text: string)
    requires text == "0.d|" + k + "|"
    ensures Ascii(text) == KeyPath([Ascii(k)])
  {
    LiteralPath(k, "", []);
    assert text + "" == text;
    assert [Ascii(k)] + [] == [Ascii(k)];
  }

  lemma TwoKeys(k: string, text: string)
    requires text == "0.d|info|0.d|" + k + "|"
    ensures Ascii(text) == KeyPath([Ascii("info"), Ascii(k)])
  {
    hide Ascii, KeyPath;
    var inner := "0.d|" + k + "|";
    OneKey(k, inner);
    LiteralPath("info", inner, [Ascii(k)]);
    assert "0.d|" + "info" + "|" + inner == text;
    assert [Ascii("info")] + [Ascii(k)] == [Ascii("info"), Ascii(k)];
  }

  // ---------- recovery ----------

  predicate Leads(v: Value, keys: seq<bytes>, w: Value) {
    keys != [] && NestedLookup(v, keys) == Some(w) && ClearWay(v, keys)
  }

  lemma FieldRecovered(v: Value, rest: bytes, keys: seq<bytes>, w: Value, path: bytes, capacity: nat)
    requires Leads(v, keys, w) && path == KeyPath(keys) && |Payload(w)| < capacity
    ensures Present(path, Encode(v) + rest, capacity) && Field(path, Encode(v) + rest) == Payload(w)
  {
    hide GetExtent, Encode, Payload, KeyPath, NestedLookup, ClearWay;
    NestedGet(v, keys, rest);
  }

  predicate Int32(n: int) {
    -0x8000_0000 <= n < 0x8000_0000
  }

  /** A 32-bit number's text is short. */
  lemma ShortText(n: int)
    requires Int32(n)
    ensures |IntText(n)| < MAX_STR_LEN
  {
    DecLength(if n < 0 then -n else n, 10);
  }

  lemma {:induction false} DecLength(n: nat, k: nat)
    requires k > 0 && n < Pow10(k)
    ensures |Dec(n)| <= k
    decreases k
  {
    if n < 10 {
    } else {
      assert Pow10(1) == 10 * Pow10(0) == 10;
      DecLength(n / 10, k - 1);
    }
  }

  lemma IntFieldRecovered(v: Value, rest: bytes, keys: seq<bytes>, n: int, path: bytes)
    requires Leads(v, keys, Int(n)) && path == KeyPath(keys) && Int32(n)
    ensures Present(path, Encode(v) + rest, MAX_STR_LEN) && IntField(path, Encode(v) + rest) == n
  {
    hide Present, Field, Leads, Atoi, CStr, IntText, Encode, KeyPath, NulFree;
    ShortText(n);
    AtoiOfIntText(n);
    FieldRecovered(v, rest, keys, Int(n), path, MAX_STR_LEN);
    CStrOfNulFree(IntText(n), []);
    assert IntText(n) + [] == IntText(n);
  }

  /** The piece count is the least number of pieces that hold the file. */
  lemma PieceCountIsLeast(length: int, pieceLength: int)
    requires 0 <= length && 0 < pieceLength
    ensures PieceCount(length, pieceLength) * pieceLength >= length
    ensures forall m: nat :: m * pieceLength >= length ==> m >= PieceCount(length, pieceLength)
  {
    var n := PieceCount(length, pieceLength);
    assert n * pieceLength <= length + pieceLength - 1 < n * pieceLength + pieceLength;
    forall m: nat | m < n ensures m * pieceLength < length {
      assert m * pieceLength <= (n - 1) * pieceLength == n * pieceLength - pieceLength;
    }
  }

  /** Recovery: from the encoding of any single-file torrent tree whose six fields stand on clear
      ways, and whatever follows it, the function reads exactly the fields of the tree. */
  lemma TorrentRecovered(v: Value, rest: bytes, announce: bytes, date: int, length: int, name: bytes, pieceLength: int,
                         pieces: bytes)
    requires Leads(v, [Ascii("announce")], Str(announce)) && Leads(v, [Ascii("creation date")], Int(date))
    requires Leads(v, [Ascii("info"), Ascii("length")], Int(length))
    requires Leads(v, [Ascii("info"), Ascii("name")], Str(name))
    requires Leads(v, [Ascii("info"), Ascii("piece length")], Int(pieceLength))
    requires Leads(v, [Ascii("info"), Ascii("pieces")], Str(pieces))
    requires NulFree(announce) && |announce| < 100000
    requires NulFree(name) && |name| < 100000
    requires Int32(date) && 0 <= length && 0 < pieceLength && Int32(pieceLength) && Int32(length + pieceLength - 1)
    requires |pieces| == 20 * PieceCount(length, pieceLength)
    ensures var s := Encode(v) + rest;
            && Readable(s)
            && CStr(Field(ANNOUNCE, s)) == announce && IntField(CREATION_DATE, s) == date
            && IntField(LENGTH, s) == length && CStr(Field(NAME, s)) == name
            && IntField(PIECE_LENGTH, s) == pieceLength && Field(PIECES, s) == pieces
  {
    hide Present, Field, IntField, Leads, Encode, KeyPath, Ascii, CStr, NulFree, PieceCount;
    LiteralPaths();
    CStrOfNulFree(announce, []);
    CStrOfNulFree(name, []);
    assert announce + [] == announce && name + [] == name;
    FieldRecovered(v, rest, [Ascii("announce")], Str(announce), ANNOUNCE, MAX_BENCODED_OTHER_LEN);
    IntFieldRecovered(v, rest, [Ascii("creation date")], date, CREATION_DATE);
    IntFieldRecovered(v, rest, [Ascii("info"), Ascii("length")], length, LENGTH);
    FieldRecovered(v, rest, [Ascii("info"), Ascii("name")], Str(name), NAME, MAX_BENCODED_OTHER_LEN);
    IntFieldRecovered(v, rest, [Ascii("info"), Ascii("piece length")], pieceLength, PIECE_LENGTH);
    FieldRecovered(v, rest, [Ascii("info"), Ascii("pieces")], Str(pieces), PIECES, |pieces| + 1);
  }
}
