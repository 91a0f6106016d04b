/** The key search of src/bencode.c, as written: the key/value toggle flips at scalars only, so a
    list or dictionary value leaves the next key to be taken for a value. The module proves on which
    dictionaries the search is right all the same for every key. */
module DictLookup {
  import opened Bytes
  import opened Bencode
  import opened Scan

  // ---------- the scan ----------

  /** The end of the text token at `p`: its digits, one byte for ':', and that many bytes. */
  function TextEnd(s: bytes, p: nat): nat {
    p + |Digits(s, p)| + 1 + DigitsValue(Digits(s, p))
  }

  /** What `strncpy` leaves in `current_key`: the bytes after ':' up to the announced length, cut
      at a NUL. */
  function KeyText(s: bytes, p: nat): bytes {
    var from := p + |Digits(s, p)| + 1;
    CStr(Between(s, from, TextEnd(s, p)))
  }

  /** What the loop of `b_get_in_dict_offset` carries besides the position: the toggle (set: a
      value is due) and the last key read. */
  datatype Reader = Reader(valueDue: bool, key: bytes)

  predicate Halted(wanted: bytes, s: bytes, m: Mark, r: Reader) {
    m.pos >= |s| || (r.key == wanted && m.nesting == 0)
  }

  /** One turn at nesting 0 on a byte that opens or closes nothing. */
  predicate AtScalar(s: bytes, m: Mark) {
    var c := ByteAt(s, m.pos);
    m.nesting == 0 && c != END && c != LIST && c != DICTIONARY
  }

  function NextMark(s: bytes, m: Mark, r: Reader): (m': Mark)
    ensures m.pos < m'.pos
  {
    if AtScalar(s, m) && !r.valueDue then Mark(TextEnd(s, m.pos), 0) else Step(s, m)
  }

  function NextReader(s: bytes, m: Mark, r: Reader): Reader {
    if !AtScalar(s, m) then r
    else if r.valueDue then r.(valueDue := false)
    else Reader(true, KeyText(s, m.pos))
  }

  /** The loop from its second turn on; the first turn is taken without looking at the guard. */
  function DictScan(wanted: bytes, s: bytes, m: Mark, r: Reader): (q: nat)
    ensures q >= m.pos && (!Halted(wanted, s, m, r) ==> q > m.pos)
    decreases |s| - m.pos
  {
    if Halted(wanted, s, m, r) then m.pos
    else DictScan(wanted, s, NextMark(s, m, r), NextReader(s, m, r))
  }

  /** `b_get_in_dict_offset` at a dictionary body that starts at `at`; `wanted` is the C string of the
      key. */
  function InDict(wanted: bytes, s: bytes, at: nat): (q: nat)
    ensures q > at
  {
    var m, r := Mark(at, 0), Reader(false, []);
    DictScan(wanted, s, NextMark(s, m, r), NextReader(s, m, r))
  }

  method GetInDictOffset(key: bytes, str: bytes, at: nat) returns (offset: nat)
    ensures at + offset == InDict(CStr(key), str, at)
  {
    hide Step, SkipLen, AtScalar, DictScan, Halted, NextMark, NextReader, Digits, DigitsValue, CStr, Between;
    var wanted := CStr(key);
    ghost var goal := InDict(wanted, str, at);
    var strLen := |str| - at;
    offset := 0;
    var nesting := 0;
    var currentKey: bytes := [];
    var keyValueToggle := 0;
    var i := 0;
    while i == 0 || (offset < strLen && !(currentKey == wanted && nesting == 0))
      invariant i >= 0 && keyValueToggle in {0, 1}
      invariant i == 0 ==> offset == 0 && nesting == 0 && currentKey == [] && keyValueToggle == 0
      invariant i > 0 ==>
        goal == DictScan(wanted, str, Mark(at + offset, nesting), Reader(keyValueToggle == 1, currentKey))
      decreases i == 0, strLen - offset
    {
      ghost var m, r := Mark(at + offset, nesting), Reader(keyValueToggle == 1, currentKey);
      DictTurn(wanted, str, m, r);
      var token := ByteAt(str, at + offset);
      if token == END {
        nesting := nesting - 1;
        offset := offset + 1;
      } else if token == LIST || token == DICTIONARY {
        nesting := nesting + 1;
        offset := offset + 1;
      } else if nesting == 0 {
        if keyValueToggle == 0 {
          var keyOffset := ReadDigits(str, at + offset);
          offset := offset + |keyOffset|;
          currentKey := CStr(Between(str, at + offset + 1, at + offset + 1 + DigitsValue(keyOffset)));
          offset := offset + DigitsValue(keyOffset) + 1;
        } else {
          var skip := SkipObj(GetType(token), str, at + offset);
          offset := offset + skip;
        }
        keyValueToggle := if keyValueToggle == 1 then 0 else 1;
      } else {
        var skip := SkipObj(GetType(token), str, at + offset);
        offset := offset + skip;
      }
      i := i + 1;
    }
    DictStop(wanted, str, Mark(at + offset, nesting), Reader(keyValueToggle == 1, currentKey));
  }

  lemma DictTurn(wanted: bytes, s: bytes, m: Mark, r: Reader)
    ensures !Halted(wanted, s, m, r) ==>
              DictScan(wanted, s, m, r) == DictScan(wanted, s, NextMark(s, m, r), NextReader(s, m, r))
    ensures Halted(wanted, s, m, r) <==> m.pos >= |s| || (r.key == wanted && m.nesting == 0)
    ensures var c, m' := ByteAt(s, m.pos), NextMark(s, m, r);
            if c == END then m' == Mark(m.pos + 1, m.nesting - 1)
            else if c == LIST || c == DICTIONARY then m' == Mark(m.pos + 1, m.nesting + 1)
            else if m.nesting == 0 && !r.valueDue then m' == Mark(TextEnd(s, m.pos), 0)
            else m' == Mark(m.pos + SkipLen(GetType(c), s, m.pos), m.nesting)
    ensures var c, r' := ByteAt(s, m.pos), NextReader(s, m, r);
            if m.nesting != 0 || c == END || c == LIST || c == DICTIONARY then r' == r
            else if r.valueDue then r' == Reader(false, r.key)
            else r' == Reader(true, KeyText(s, m.pos))
  {
    hide SkipLen;
  }

  lemma DictStop(wanted: bytes, s: bytes, m: Mark, r: Reader)
    ensures m.pos >= |s| || (r.key == wanted && m.nesting == 0) ==> DictScan(wanted, s, m, r) == m.pos
  {
  }

  // ---------- what the scan does over the encoding of a dictionary ----------

  lemma {:induction false} DictAlong(wanted: bytes, s: bytes, a: Mark, ms: seq<Mark>, b: Mark, r: Reader)
    requires Visits(s, a, ms, b) && Inside(ms, 0, |s|, 1)
    ensures DictScan(wanted, s, a, r) == DictScan(wanted, s, b, r)
    decreases |ms|
  {
    hide Step;
    if ms == [] {
    } else {
      VisitsTail(s, a, ms, b);
      DictAlong(wanted, s, Step(s, a), ms[1..], b, r);
    }
  }

  /** A container value is passed as a whole and leaves the toggle as it was. */
  lemma PassContainer(wanted: bytes, v: Value, s: bytes, p: nat, r: Reader)
    requires !v.Scalar() && HasAt(s, p, Encode(v)) && r.key != wanted
    ensures DictScan(wanted, s, Mark(p, 0), r) == DictScan(wanted, s, Mark(p + |Encode(v)|, 0), r)
  {
    hide HasAt, Encode, Marks, Visits, Step, DictScan, NextMark, NextReader;
    var m := Mark(p, 0);
    Synchronised(v, s, p, 0);
    VisitsTail(s, m, Marks(v, p, 0), Mark(p + |Encode(v)|, 0));
    TypeOfEncoding(v);
    HasAtByte(s, p, Encode(v), 0);
    StepCases(s, m);
    DictTurn(wanted, s, m, r);
    DictAlong(wanted, s, Step(s, m), Marks(v, p, 0)[1..], Mark(p + |Encode(v)|, 0), r);
  }

  /** A scalar at which a value is due is passed and flips the toggle. */
  lemma PassScalar(wanted: bytes, v: Value, s: bytes, p: nat, key: bytes)
    requires v.Scalar() && HasAt(s, p, Encode(v)) && key != wanted
    ensures DictScan(wanted, s, Mark(p, 0), Reader(true, key))
         == DictScan(wanted, s, Mark(p + |Encode(v)|, 0), Reader(false, key))
  {
    hide HasAt, Encode, DictScan, NextMark, NextReader, SkipLen;
    HasAtByte(s, p, Encode(v), 0);
    SkipScalar(v, s, p);
    DictTurn(wanted, s, Mark(p, 0), Reader(true, key));
  }

  /** Where a key is due, a key is read: its C string becomes the current key. */
  lemma ReadKey(s: bytes, p: nat, key: bytes, r: Reader)
    requires HasAt(s, p, EncodeStr(key)) && !r.valueDue
    ensures NextMark(s, Mark(p, 0), r) == Mark(p + |EncodeStr(key)|, 0)
    ensures NextReader(s, Mark(p, 0), r) == Reader(true, CStr(key))
  {
    hide CStr, Digits, DigitsValue, Dec;
    StrPrefix(s, p, key);
    var d := Dec(|key|);
    assert s[p + |d| + 1..p + |d| + 1 + |key|] == key;
  }

  lemma SplitEntries(es: seq<Entry>, s: bytes, p: nat)
    requires es != [] && HasAt(s, p, EncodeEntries(es))
    ensures var q := p + |EncodeStr(es[0].key)|;
            var r := q + |Encode(es[0].value)|;
            && HasAt(s, p, EncodeStr(es[0].key)) && HasAt(s, q, Encode(es[0].value))
            && HasAt(s, r, EncodeEntries(es[1..])) && r <= |s|
            && p + |EncodeEntries(es)| == r + |EncodeEntries(es[1..])|
  {
    hide HasAt, Encode, EncodeStr;
    var k, v, rest := EncodeStr(es[0].key), Encode(es[0].value), EncodeEntries(es[1..]);
    assert EncodeEntries(es) == k + v + rest;
    HasAtConcat(s, p, k + v, rest);
    HasAtConcat(s, p, k, v);
    HasAtByte(s, p + |k|, v, 0);
  }

  /** One whole entry: the search ends at its value, or goes on behind it with the toggle flipped
      back only if the value was a scalar. */
  lemma EntryTurn(wanted: bytes, es: seq<Entry>, s: bytes, p: nat)
    requires es != [] && HasAt(s, p, EncodeEntries(es))
    ensures var q := p + |EncodeStr(es[0].key)|;
            var r := q + |Encode(es[0].value)|;
            var k := CStr(es[0].key);
            InDict(wanted, s, p) ==
              (if k == wanted then q
               else DictScan(wanted, s, Mark(r, 0), Reader(!es[0].value.Scalar(), k)))
  {
    hide HasAt, Encode, EncodeStr, EncodeEntries, DictScan, CStr, NextMark, NextReader;
    SplitEntries(es, s, p);
    var q, k := p + |EncodeStr(es[0].key)|, CStr(es[0].key);
    ReadKey(s, p, es[0].key, Reader(false, []));
    DictStop(wanted, s, Mark(q, 0), Reader(true, k));
    if k != wanted {
      if es[0].value.Scalar() {
        PassScalar(wanted, es[0].value, s, q, k);
      } else {
        PassContainer(wanted, es[0].value, s, q, Reader(true, k));
      }
    }
  }

  /** In step at an entry, the search goes on as if the dictionary began there. */
  lemma Resume(wanted: bytes, es: seq<Entry>, s: bytes, p: nat, key: bytes)
    requires es != [] && HasAt(s, p, EncodeEntries(es)) && key != wanted
    ensures DictScan(wanted, s, Mark(p, 0), Reader(false, key)) == InDict(wanted, s, p)
  {
    hide HasAt, Encode, EncodeStr, EncodeEntries, DictScan, CStr, NextMark, NextReader;
    SplitEntries(es, s, p);
    ReadKey(s, p, es[0].key, Reader(false, key));
    ReadKey(s, p, es[0].key, Reader(false, []));
    DictTurn(wanted, s, Mark(p, 0), Reader(false, key));
  }

  /** Out of step at an entry, its key is skipped as a value, so the search ends behind the start
      of that entry's value. */
  lemma OutOfStep(wanted: bytes, es: seq<Entry>, s: bytes, p: nat, key: bytes)
    requires es != [] && HasAt(s, p, EncodeEntries(es)) && key != wanted
    ensures DictScan(wanted, s, Mark(p, 0), Reader(true, key)) > p + |EncodeStr(es[0].key)|
  {
    hide HasAt, Encode, EncodeStr, EncodeEntries, DictScan, NextMark, NextReader, CStr;
    SplitEntries(es, s, p);
    assert Encode(Str(es[0].key)) == EncodeStr(es[0].key) by { EncodeOfStr(es[0].key); }
    PassScalar(wanted, Str(es[0].key), s, p, key);
    var q := p + |EncodeStr(es[0].key)|;
    assert !Halted(wanted, s, Mark(q, 0), Reader(false, key));
  }

  lemma EncodeOfStr(b: bytes)
    ensures Encode(Str(b)) == EncodeStr(b)
  {
  }

  lemma EntriesFrom(es: seq<Entry>, k: nat, s: bytes, p: nat)
    requires k <= |es| && HasAt(s, p, EncodeEntries(es))
    ensures HasAt(s, p + |EncodeEntries(es[..k])|, EncodeEntries(es[k..]))
  {
    hide HasAt, EncodeEntries;
    assert es == es[..k] + es[k..];
    EncodeEntriesConcat(es[..k], es[k..]);
    HasAtConcat(s, p, EncodeEntries(es[..k]), EncodeEntries(es[k..]));
  }

  /** Entries before `m` with scalar values and other keys are passed in step. */
  lemma {:induction false} PassEntries(wanted: bytes, es: seq<Entry>, m: nat, s: bytes, p: nat)
    requires m < |es| && HasAt(s, p, EncodeEntries(es))
    requires forall j :: 0 <= j < m ==> es[j].value.Scalar() && CStr(es[j].key) != wanted
    ensures InDict(wanted, s, p) == InDict(wanted, s, p + |EncodeEntries(es[..m])|)
    decreases m
  {
    hide HasAt, Encode, EncodeStr, DictScan, InDict, CStr;
    if m == 0 {
    } else {
      var r := p + |EncodeStr(es[0].key)| + |Encode(es[0].value)|;
      SplitEntries(es, s, p);
      EntryTurn(wanted, es, s, p);
      Resume(wanted, es[1..], s, r, CStr(es[0].key));
      PassEntries(wanted, es[1..], m - 1, s, r);
      assert es[..m][1..] == es[1..][..m - 1];
    }
  }

  /** The search is right when no list or dictionary value stands before the wanted key: it ends
      at the value of the first entry with that key, whatever follows the dictionary. */
  lemma DictFinds(wanted: bytes, es: seq<Entry>, m: nat, s: bytes, p: nat)
    requires m < |es| && HasAt(s, p, EncodeEntries(es))
    requires forall j :: 0 <= j < m ==> es[j].value.Scalar() && CStr(es[j].key) != wanted
    requires CStr(es[m].key) == wanted
    ensures InDict(wanted, s, p) == p + ValueStart(es, m)
    ensures HasAt(s, p + ValueStart(es, m), Encode(es[m].value))
  {
    hide HasAt, Encode, EncodeStr, EncodeEntries, DictScan, InDict, CStr;
    PassEntries(wanted, es, m, s, p);
    EntriesFrom(es, m, s, p);
    var q := p + |EncodeEntries(es[..m])|;
    SplitEntries(es[m..], s, q);
    EntryTurn(wanted, es[m..], s, q);
  }

  lemma MissesSecond(es: seq<Entry>, s: bytes, p: nat)
    requires |es| >= 2 && HasAt(s, p, EncodeEntries(es))
    requires !es[0].value.Scalar() && CStr(es[0].key) != CStr(es[1].key)
    ensures InDict(CStr(es[1].key), s, p)
          > p + |EncodeStr(es[0].key)| + |Encode(es[0].value)| + |EncodeStr(es[1].key)|
  {
    hide HasAt, Encode, EncodeStr, EncodeEntries, DictScan, InDict, CStr;
    SplitEntries(es, s, p);
    EntryTurn(CStr(es[1].key), es, s, p);
    OutOfStep(CStr(es[1].key), es[1..], s, p + |EncodeStr(es[0].key)| + |Encode(es[0].value)|, CStr(es[0].key));
  }

  /** The search is wrong for the entry right behind the first list or dictionary value. */
  lemma DictMissesNext(es: seq<Entry>, j: nat, s: bytes, p: nat)
    requires j + 1 < |es| && HasAt(s, p, EncodeEntries(es))
    requires !es[j].value.Scalar()
    requires forall i :: 0 <= i < j ==> es[i].value.Scalar()
    requires forall i :: 0 <= i <= j ==> CStr(es[i].key) != CStr(es[j + 1].key)
    ensures InDict(CStr(es[j + 1].key), s, p) > p + ValueStart(es, j + 1)
  {
    hide HasAt, Encode, EncodeStr, EncodeEntries, DictScan, InDict, CStr;
    PassEntries(CStr(es[j + 1].key), es, j, s, p);
    EntriesFrom(es, j, s, p);
    EntriesSnoc(es, j);
    var tail := es[j..];
    assert tail[0] == es[j] && tail[1] == es[j + 1];
    MissesSecond(tail, s, p + |EncodeEntries(es[..j])|);
  }

  lemma EntriesSnoc(es: seq<Entry>, j: nat)
    requires j < |es|
    ensures |EncodeEntries(es[..j + 1])|
         == |EncodeEntries(es[..j])| + |EncodeStr(es[j].key)| + |Encode(es[j].value)|
  {
    assert es[..j + 1] == es[..j] + [es[j]];
    EncodeEntriesConcat(es[..j], [es[j]]);
    assert EncodeEntries([es[j]]) == EncodeStr(es[j].key) + Encode(es[j].value) + EncodeEntries([]);
  }

  predicate ResolvesAt(es: seq<Entry>, m: nat, s: bytes, p: nat)
    requires m < |es|
  {
    InDict(es[m].key, s, p) == p + ValueStart(es, m)
  }

  predicate ProperKeys(es: seq<Entry>) {
    && (forall j :: 0 <= j < |es| ==> NulFree(es[j].key))
    && (forall i, j :: 0 <= i < j < |es| ==> es[i].key != es[j].key)
  }

  /** Exactness of `b_get_in_dict_offset` as written: in a dictionary with distinct keys every key
      leads to its own value if and only if no value but the last is a list or a dictionary. */
  lemma DictExact(es: seq<Entry>, s: bytes, p: nat)
    requires HasAt(s, p, EncodeEntries(es)) && ProperKeys(es)
    ensures (forall m :: 0 <= m < |es| ==> ResolvesAt(es, m, s, p))
       <==> (forall j :: 0 <= j < |es| - 1 ==> es[j].value.Scalar())
  {
    hide HasAt, EncodeEntries, EncodeStr, Encode, InDict, ValueStart;
    CStrOfKeys(es);
    if forall j :: 0 <= j < |es| - 1 ==> es[j].value.Scalar() {
      forall m | 0 <= m < |es| ensures ResolvesAt(es, m, s, p) {
        DictFinds(es[m].key, es, m, s, p);
      }
    } else {
      var j := FirstContainer(es);
      DictMissesNext(es, j, s, p);
      assert !ResolvesAt(es, j + 1, s, p);
    }
  }

  lemma CStrOfKeys(es: seq<Entry>)
    requires ProperKeys(es)
    ensures forall j :: 0 <= j < |es| ==> CStr(es[j].key) == es[j].key
  {
    forall j | 0 <= j < |es| ensures CStr(es[j].key) == es[j].key {
      assert es[j].key + [] == es[j].key;
      CStrOfNulFree(es[j].key, []);
    }
  }

  function FirstContainer(es: seq<Entry>): (j: nat)
    ensures j <= |es| && (j < |es| ==> !es[j].value.Scalar())
    ensures forall i :: 0 <= i < j ==> es[i].value.Scalar()
  {
    if es == [] || !es[0].value.Scalar() then 0 else 1 + FirstContainer(es[1..])
  }

  /** Behind the dictionary's own end token, end tokens lead to the end of the string. */
  lemma {:induction false} EndsOnly(wanted: bytes, s: bytes, q: nat, nesting: int, r: Reader)
    requires nesting < 0 && q <= |s| && forall i :: q <= i < |s| ==> s[i] == END
    ensures DictScan(wanted, s, Mark(q, nesting), r) == |s|
    decreases |s| - q
  {
    hide DictScan, NextMark, NextReader;
    if q == |s| {
      DictStop(wanted, s, Mark(q, nesting), r);
    } else {
      DictTurn(wanted, s, Mark(q, nesting), r);
      EndsOnly(wanted, s, q + 1, nesting - 1, r);
    }
  }

  /** A key that is nowhere in a dictionary takes the search to the end of the string, provided that
      no value but the last is a list or dictionary and that behind the entries nothing but end
      tokens follows. What else follows is searched too: see `LeavesInto`. */
  lemma {:induction false} DictAbsent(wanted: bytes, es: seq<Entry>, s: bytes, p: nat)
    requires NulFree(wanted) && HasAt(s, p, EncodeEntries(es)) && p + |EncodeEntries(es)| < |s|
    requires forall i :: p + |EncodeEntries(es)| <= i < |s| ==> s[i] == END
    requires forall j :: 0 <= j < |es| ==> CStr(es[j].key) != wanted
    requires forall j :: 0 <= j < |es| - 1 ==> es[j].value.Scalar()
    ensures InDict(wanted, s, p) == |s|
    decreases |es|
  {
    hide HasAt, Encode, EncodeStr, EncodeEntries, DictScan, CStr, InDict;
    EncodeNoEntries();
    if es == [] {
      FirstTurnAtEnd(wanted, s, p);
      EndsOnly(wanted, s, p + 1, -1, Reader(false, []));
    } else {
      var r := p + |EncodeStr(es[0].key)| + |Encode(es[0].value)|;
      var reader := Reader(!es[0].value.Scalar(), CStr(es[0].key));
      SplitEntries(es, s, p);
      EntryTurn(wanted, es, s, p);
      if |es| == 1 {
        assert es[1..] == [];
        DictTurn(wanted, s, Mark(r, 0), reader);
        EndsOnly(wanted, s, r + 1, -1, reader);
      } else {
        Resume(wanted, es[1..], s, r, CStr(es[0].key));
        DictAbsent(wanted, es[1..], s, r);
      }
    }
  }

  lemma EncodeNoEntries()
    ensures EncodeEntries([]) == []
  {
  }

  lemma FirstTurnAtEnd(wanted: bytes, s: bytes, p: nat)
    requires p < |s| && s[p] == END
    ensures InDict(wanted, s, p) == DictScan(wanted, s, Mark(p + 1, -1), Reader(false, []))
  {
  }

  /** Entries with scalar values and other keys are all passed in step. */
  lemma {:induction false} PassAll(wanted: bytes, es: seq<Entry>, s: bytes, p: nat) returns (key: bytes)
    requires es != [] && HasAt(s, p, EncodeEntries(es))
    requires forall j :: 0 <= j < |es| ==> es[j].value.Scalar() && CStr(es[j].key) != wanted
    ensures key != wanted
    ensures InDict(wanted, s, p) == DictScan(wanted, s, Mark(p + |EncodeEntries(es)|, 0), Reader(false, key))
    decreases |es|
  {
    hide HasAt, Encode, EncodeStr, EncodeEntries, DictScan, InDict, CStr;
    var r := p + |EncodeStr(es[0].key)| + |Encode(es[0].value)|;
    SplitEntries(es, s, p);
    EntryTurn(wanted, es, s, p);
    if |es| == 1 {
      assert es[1..] == [];
      EncodeNoEntries();
      key := CStr(es[0].key);
    } else {
      Resume(wanted, es[1..], s, r, CStr(es[0].key));
      key := PassAll(wanted, es[1..], s, r);
    }
  }

  /** The search does not stop at the end of its dictionary: behind the end token nesting is -1, the
      next dictionary brings it back to 0, and the search goes on as if it had begun there. */
  lemma LeavesInto(wanted: bytes, es: seq<Entry>, key: bytes, fs: seq<Entry>, s: bytes, p: nat)
    requires NulFree(wanted) && es != [] && HasAt(s, p, EncodeEntries(es))
    requires forall j :: 0 <= j < |es| ==> es[j].value.Scalar() && CStr(es[j].key) != wanted
    requires var q := p + |EncodeEntries(es)| + 1;
             && HasAt(s, q - 1, [END]) && HasAt(s, q, EncodeStr(key))
             && HasAt(s, q + |EncodeStr(key)|, [DICTIONARY])
             && fs != [] && HasAt(s, q + |EncodeStr(key)| + 1, EncodeEntries(fs))
    ensures InDict(wanted, s, p) == InDict(wanted, s, p + |EncodeEntries(es)| + 1 + |EncodeStr(key)| + 1)
  {
    hide HasAt, Encode, EncodeStr, EncodeEntries, DictScan, InDict, CStr, SkipLen, NextMark, NextReader;
    var q, n := p + |EncodeEntries(es)| + 1, |EncodeStr(key)|;
    var last := PassAll(wanted, es, s, p);
    var r := Reader(false, last);
    HasAtByte(s, q - 1, [END], 0);
    DictTurn(wanted, s, Mark(q - 1, 0), r);
    EncodeOfStr(key);
    SkipScalar(Str(key), s, q);
    StrPrefix(s, q, key);
    HasAtByte(s, q + n, [DICTIONARY], 0);
    DictTurn(wanted, s, Mark(q, -1), r);
    DictTurn(wanted, s, Mark(q + n, -1), r);
    Resume(wanted, fs, s, q + n + 1, last);
  }

  /** An input on which the search as written fails: in the body `1:a le 1:b i1e` the key `b` behind
      the list is not found. */
  lemma ListValueHidesNextKey(s: bytes, p: nat)
    requires HasAt(s, p, EncodeEntries([Entry(['a' as int], List([])), Entry(['b' as int], Int(1))]))
    ensures !ResolvesAt([Entry(['a' as int], List([])), Entry(['b' as int], Int(1))], 1, s, p)
  {
    hide HasAt, EncodeEntries, InDict, ValueStart;
    var es := [Entry(['a' as int], List([])), Entry(['b' as int], Int(1))];
    CStrOfKeys(es);
    DictMissesNext(es, 0, s, p);
  }
}
