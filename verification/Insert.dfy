/** The insertions `b_insert_*`, which splice an encoding into a C string in place. Everything they
    read is a C string: both the buffer and the object end at their first NUL. */
module Insert {
  import opened Bytes
  import opened Bencode
  import opened Path

  /** `t` spliced into `s` at `offset`. */
  function Spliced(s: bytes, offset: nat, t: bytes): bytes
    requires offset <= |s|
  {
    s[..offset] + t + s[offset..]
  }

  /** The text `b_insert_obj` splices in: the C string it is given, as an encoding, or as a string
      with its length. */
  function WholeObj(strObj: bytes, ty: byte): bytes {
    if ty == LIST || ty == DICTIONARY || ty == INTEGER then CStr(strObj) else EncodeStr(CStr(strObj))
  }

  /** The C string a buffer holds. */
  ghost function Content(str: array<byte>): bytes
    reads str
  {
    CStr(str[..])
  }

  /** `b_insert_obj`. */
  method InsertObj(str: array<byte>, offset: nat, strObj: bytes, ty: byte) returns (newOffset: nat)
    requires offset <= |Content(str)|
    requires |Content(str)| + |WholeObj(strObj, ty)| < str.Length
    modifies str
    ensures Content(str) == Spliced(old(Content(str)), offset, WholeObj(strObj, ty))
    ensures forall k :: |Content(str)| < k < str.Length ==> str[k] == old(str[k])
    ensures newOffset == offset + |WholeObj(strObj, ty)|
  {
    hide CStr, Copied, NulFree;
    WholeObjNulFree(strObj, ty);
    var whole := CStr(str[..]);
    var strA := whole[..offset];
    var strB := whole[offset..];
    var strWholeObj := CStr(strObj);
    if !(ty == LIST || ty == DICTIONARY || ty == INTEGER) {
      strWholeObj := Dec(|strWholeObj|) + [COLON] + strWholeObj;
    }
    var printed := strA + strWholeObj + strB;
    NulFreeSpliced(whole, offset, strWholeObj);
    CopiedContent(str[..], printed);
    CopyOut(str, printed, true);
    newOffset := offset + |strWholeObj|;
  }

  lemma WholeObjNulFree(strObj: bytes, ty: byte)
    ensures NulFree(WholeObj(strObj, ty))
  {
    hide Dec, CStr;
  }

  lemma NulFreeSpliced(s: bytes, offset: nat, t: bytes)
    requires offset <= |s|
    ensures NulFree(Spliced(s, offset, t)) <==> NulFree(s) && NulFree(t)
  {
    NulFreeConcat(s[..offset] + t, s[offset..]);
    NulFreeConcat(s[..offset], t);
    NulFreeConcat(s[..offset], s[offset..]);
    assert s[..offset] + s[offset..] == s;
  }

  lemma NulFreeConcat(a: bytes, b: bytes)
    ensures NulFree(a + b) <==> NulFree(a) && NulFree(b)
  {
    if NulFree(a + b) {
      assert forall i :: 0 <= i < |a| ==> a[i] == (a + b)[i];
      assert forall i :: 0 <= i < |b| ==> b[i] == (a + b)[|a| + i];
    }
  }

  lemma CopiedContent(buffer: bytes, b: bytes)
    requires NulFree(b) && |b| < |buffer|
    ensures CStr(Copied(buffer, b, true)) == b
    ensures forall k :: |b| < k < |buffer| ==> Copied(buffer, b, true)[k] == buffer[k]
  {
    hide CStr;
    var rest := [NUL] + buffer[|b| + 1..];
    assert Copied(buffer, b, true) == b + rest;
    CStrOfNulFree(b, rest);
  }

  /** Where the path leads in the first `n` bytes of a buffer. */
  function PlaceIn(buffer: bytes, n: nat, path: bytes): int
    requires n <= |buffer|
  {
    Follow(path, buffer[..n])
  }

  /** The insertions ask that the path leads to a place in the C string. */
  predicate CanInsert(buffer: bytes, n: nat, path: bytes) {
    n <= |buffer| && 0 <= PlaceIn(buffer, n, path) <= |CStr(buffer)|
  }

  /** The C string in the buffer after `t` is inserted where the path leads. */
  function Inserted(buffer: bytes, n: nat, path: bytes, t: bytes): bytes
    requires CanInsert(buffer, n, path)
  {
    Spliced(CStr(buffer), PlaceIn(buffer, n, path), t)
  }

  /** `b_insert_element`. */
  method InsertElement(str: array<byte>, strLen: nat, path: bytes, strObj: bytes, ty: byte)
    requires CanInsert(str[..], strLen, path)
    requires |Content(str)| + |WholeObj(strObj, ty)| < str.Length
    modifies str
    ensures Content(str) == Inserted(old(str[..]), strLen, path, WholeObj(strObj, ty))
  {
    hide Follow, CStr, WholeObj;
    assert str[..][..strLen] == str[..strLen];
    var insertOffset := GetOffset(path, str[..strLen]);
    var _ := InsertObj(str, insertOffset, strObj, ty);
  }

  /** `b_insert_key_value`: two splices that leave the key and the value next to each other. */
  method InsertKeyValue(str: array<byte>, strLen: nat, path: bytes, key: bytes, value: bytes, valueType: byte)
    requires CanInsert(str[..], strLen, path)
    requires |Content(str)| + |WholeObj(key, OTHER)| + |WholeObj(value, valueType)| < str.Length
    modifies str
    ensures Content(str)
         == Inserted(old(str[..]), strLen, path, WholeObj(key, OTHER) + WholeObj(value, valueType))
  {
    hide Follow, CStr, WholeObj;
    ghost var before := Content(str);
    assert str[..][..strLen] == str[..strLen];
    var offset := GetOffset(path, str[..strLen]);
    var insertOffset := InsertObj(str, offset, key, OTHER);
    var _ := InsertObj(str, insertOffset, value, valueType);
    SpliceTwice(before, offset, WholeObj(key, OTHER), WholeObj(value, valueType));
  }

  lemma SpliceTwice(s: bytes, offset: nat, a: bytes, b: bytes)
    requires offset <= |s|
    ensures Spliced(Spliced(s, offset, a), offset + |a|, b) == Spliced(s, offset, a + b)
  {
    var t := Spliced(s, offset, a);
    assert t[..offset + |a|] == s[..offset] + a;
    assert t[offset + |a|..] == s[offset..];
  }

  /** `b_insert_int`. */
  method InsertInt(str: array<byte>, strLen: nat, path: bytes, integer: int)
    requires CanInsert(str[..], strLen, path)
    requires |Content(str)| + |EncodeInt(integer)| < str.Length
    modifies str
    ensures Content(str) == Inserted(old(str[..]), strLen, path, EncodeInt(integer))
  {
    hide Follow, CStr;
    assert str[..][..strLen] == str[..strLen];
    var insertOffset := GetOffset(path, str[..strLen]);
    var strInt := [INTEGER] + IntText(integer) + [END];
    IntIsWhole(integer);
    var _ := InsertObj(str, insertOffset, strInt, INTEGER);
  }

  lemma IntIsWhole(n: int)
    ensures NulFree(EncodeInt(n)) && WholeObj(EncodeInt(n), INTEGER) == EncodeInt(n)
  {
    AtoiOfIntText(n);
    CStrSelf(EncodeInt(n));
  }

  /** `b_create_list` and `b_create_dict`. */
  method CreateList(listOut: array<byte>)
    requires listOut.Length >= 3
    modifies listOut
    ensures Content(listOut) == Encode(List([]))
  {
    CopiedContent(listOut[..], [LIST, END]);
    CopyOut(listOut, [LIST, END], true);
  }

  method CreateDict(dictOut: array<byte>)
    requires dictOut.Length >= 3
    modifies dictOut
    ensures Content(dictOut) == Encode(Dict([]))
  {
    CopiedContent(dictOut[..], [DICTIONARY, END]);
    CopyOut(dictOut, [DICTIONARY, END], true);
  }
}
