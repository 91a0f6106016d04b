/** Decoding the compact peer list (BEP 23) into dotted-decimal addresses and decimal ports
    (src/tracker_communication.c). */
module Peers {
  import opened Bytes

  /** `__bswap_16`. */
  function Swap16(x: nat): nat
    requires x < 0x1_0000
  {
    x % 256 * 256 + x / 256
  }

  function AddrText(a: bytes): bytes
    requires |a| == 4
  {
    Dec(a[0]) + [DOT] + Dec(a[1]) + [DOT] + Dec(a[2]) + [DOT] + Dec(a[3])
  }

  /** The port is read big-endian: high byte first. */
  function PortText(p: bytes): bytes
    requires |p| == 2
  {
    Dec(p[0] as int * 256 + p[1] as int)
  }

  // ---------- what the texts are, in literal characters ----------

  /** The parts of `t` between the bytes `sep`. */
  function Split(t: bytes, sep: byte): (parts: seq<bytes>)
    ensures parts != []
  {
    if t == [] then [[]]
    else
      var parts := Split(t[1..], sep);
      if t[0] == sep then [[]] + parts else [[t[0]] + parts[0]] + parts[1..]
  }

  /** `t` is four decimal numerals between dots, those of the bytes `a`. */
  predicate IsAddr(t: bytes, a: bytes) {
    var parts := Split(t, '.' as int);
    |parts| == |a| == 4 && forall i :: 0 <= i < 4 ==> Numeral(parts[i], a[i])
  }

  /** Address and port text of the six bytes `d`, the port's high byte first. */
  predicate IsPeer(addr: bytes, port: bytes, d: bytes) {
    |d| == 6 && IsAddr(addr, d[..4]) && Numeral(port, 256 * d[4] as int + d[5] as int)
  }

  lemma {:induction false} SplitHead(a: bytes, rest: bytes, sep: byte)
    requires sep !in a
    ensures Split(a, sep) == [a] && Split(a + [sep] + rest, sep) == [a] + Split(rest, sep)
  {
    var t := a + [sep] + rest;
    if a == [] {
      assert t[1..] == rest;
    } else {
      SplitHead(a[1..], rest, sep);
      assert t[1..] == a[1..] + [sep] + rest;
      assert a == [a[0]] + a[1..];
    }
  }

  function Join(parts: seq<bytes>, sep: byte): bytes
    requires parts != []
  {
    if |parts| == 1 then parts[0] else parts[0] + [sep] + Join(parts[1..], sep)
  }

  lemma {:induction false} JoinSplit(t: bytes, sep: byte)
    ensures Join(Split(t, sep), sep) == t
  {
    if t == [] {
    } else {
      JoinSplit(t[1..], sep);
      var parts := Split(t[1..], sep);
      if t[0] == sep {
        assert ([[]] + parts)[1..] == parts;
      } else {
        assert ([[t[0]] + parts[0]] + parts[1..])[1..] == parts[1..];
      }
    }
  }

  lemma DecHasNoDot(n: nat)
    ensures '.' as int !in Dec(n)
  {
    hide Dec;
    assert forall i :: 0 <= i < |Dec(n)| ==> IsDigit(Dec(n)[i]);
  }

  lemma SplitAddr(a: bytes)
    requires |a| == 4
    ensures Split(AddrText(a), '.' as int) == [Dec(a[0]), Dec(a[1]), Dec(a[2]), Dec(a[3])]
  {
    hide Dec, Split;
    DecHasNoDot(a[0]);
    DecHasNoDot(a[1]);
    DecHasNoDot(a[2]);
    DecHasNoDot(a[3]);
    var r3 := Dec(a[3]);
    var r2 := Dec(a[2]) + ['.' as int] + r3;
    var r1 := Dec(a[1]) + ['.' as int] + r2;
    assert AddrText(a) == Dec(a[0]) + ['.' as int] + r1;
    SplitHead(Dec(a[0]), r1, '.' as int);
    SplitHead(Dec(a[1]), r2, '.' as int);
    SplitHead(Dec(a[2]), r3, '.' as int);
    SplitHead(Dec(a[3]), [], '.' as int);
  }

  lemma JoinFour(p: seq<bytes>, sep: byte)
    requires |p| == 4
    ensures Join(p, sep) == p[0] + [sep] + p[1] + [sep] + p[2] + [sep] + p[3]
  {
    assert Join(p[3..], sep) == p[3];
    assert p[1..][1..] == p[2..] && p[2..][1..] == p[3..];
    assert Join(p[2..], sep) == p[2] + [sep] + p[3];
    assert Join(p[1..], sep) == p[1] + [sep] + Join(p[2..], sep);
  }

  /** The address text is the dotted-decimal text of its bytes, and the only one. */
  lemma AddrExact(t: bytes, a: bytes)
    requires |a| == 4
    ensures IsAddr(t, a) <==> t == AddrText(a)
  {
    hide Dec, Split, Join, Numeral;
    var parts := Split(t, '.' as int);
    SplitAddr(a);
    forall i | 0 <= i < 4 ensures Numeral(Dec(a[i]), a[i]) {
      DecExact(Dec(a[i]), a[i]);
    }
    if IsAddr(t, a) {
      DecExact(parts[0], a[0]);
      DecExact(parts[1], a[1]);
      DecExact(parts[2], a[2]);
      DecExact(parts[3], a[3]);
      JoinSplit(t, '.' as int);
      JoinFour(parts, '.' as int);
    }
  }

  lemma PeerText(d: bytes)
    requires |d| == 6
    ensures IsPeer(AddrText(d[..4]), PortText(d[4..]), d)
  {
    hide Dec, AddrText, IsAddr, Numeral;
    AddrExact(AddrText(d[..4]), d[..4]);
    DecExact(PortText(d[4..]), 256 * d[4] as int + d[5] as int);
  }

  /** An instance: the bytes 1, 2, 3, 4, 0x1A, 0xE1. */
  lemma AddrExample()
    ensures AddrText([1, 2, 3, 4]) == Ascii("1.2.3.4") && PortText([0x1A, 0xE1]) == Ascii("6881")
  {
    hide Dec;
    DecDigit(1);
    DecDigit(2);
    DecDigit(3);
    DecDigit(4);
    DecDigit(6);
    DecStep(6, 8);
    DecStep(68, 8);
    DecStep(688, 1);
  }

  // ---------- the methods ----------

  /** `get_full_numeric_addr` on the six bytes at `at`. */
  method FullNumericAddr(data: bytes, at: nat) returns (addrOut: bytes, portOut: bytes)
    requires at + 6 <= |data|
    ensures addrOut == AddrText(data[at..at + 4]) && portOut == PortText(data[at + 4..at + 6])
    ensures IsPeer(addrOut, portOut, data[at..at + 6])
  {
    hide Dec, IsPeer;
    var d := data[at..at + 6];
    assert d[..4] == data[at..at + 4] && d[4..] == data[at + 4..at + 6];
    PeerText(d);
    var addr := new byte[4];
    for i := 0 to 4
      invariant addr[..i] == data[at..at + i]
    {
      addr[i] := data[at + i];
    }
    assert addr[..4] == addr[..];
    var loaded: int := data[at + 4] as int + 256 * data[at + 5] as int; // a little-endian load
    var port := Swap16(loaded);
    addrOut := Dec(addr[0]) + [DOT] + Dec(addr[1]) + [DOT] + Dec(addr[2]) + [DOT] + Dec(addr[3]);
    portOut := Dec(port);
  }

  /** The loop over the peers of a tracker's answer. */
  method DecodePeers(data: bytes, addresses: array<bytes>, ports: array<bytes>) returns (peersNum: nat)
    requires |data| / 6 <= addresses.Length && |data| / 6 <= ports.Length && addresses != ports
    modifies addresses, ports
    ensures peersNum == |data| / 6
    ensures forall i :: 0 <= i < peersNum ==>
              && addresses[i] == AddrText(data[6 * i..6 * i + 4])
              && ports[i] == PortText(data[6 * i + 4..6 * i + 6])
              && IsPeer(addresses[i], ports[i], data[6 * i..6 * i + 6])
    ensures addresses[peersNum..] == old(addresses[peersNum..]) && ports[peersNum..] == old(ports[peersNum..])
  {
    hide AddrText, PortText, IsPeer;
    peersNum := |data| / 6;
    for i := 0 to peersNum
      invariant forall k :: 0 <= k < i ==> addresses[k] == AddrText(data[6 * k..6 * k + 4])
      invariant forall k :: 0 <= k < i ==> ports[k] == PortText(data[6 * k + 4..6 * k + 6])
      invariant forall k :: 0 <= k < i ==> IsPeer(addresses[k], ports[k], data[6 * k..6 * k + 6])
      invariant addresses[i..] == old(addresses[i..]) && ports[i..] == old(ports[i..])
    {
      var address, port := FullNumericAddr(data, i * 6);
      addresses[i] := address;
      ports[i] := port;
    }
  }

  // ---------- reading the texts back ----------

  /** The six bytes an address and a port stand for. */
  function PeerBytes(addr: bytes, port: bytes): seq<int> {
    var parts, p := Split(addr, '.' as int), PlaceValue(port);
    seq(|parts|, i requires 0 <= i < |parts| => PlaceValue(parts[i])) + [p / 256, p % 256]
  }

  lemma PeerReadsBack(addr: bytes, port: bytes, d: bytes)
    requires IsPeer(addr, port, d)
    ensures PeerBytes(addr, port) == d
  {
    hide Split, PlaceValue;
    var parts := Split(addr, '.' as int);
    assert forall i :: 0 <= i < 4 ==> PlaceValue(parts[i]) == d[..4][i];
  }

  /** All peers, read back in order. */
  function AllBytes(addresses: seq<bytes>, ports: seq<bytes>): seq<int>
    requires |addresses| == |ports|
  {
    if addresses == [] then []
    else
      var n := |addresses| - 1;
      AllBytes(addresses[..n], ports[..n]) + PeerBytes(addresses[n], ports[n])
  }

  /** No loss: whatever the bytes, the texts the loop writes determine every whole six-byte record,
      in order. */
  lemma {:induction false} PeersReadBack(data: bytes, addresses: seq<bytes>, ports: seq<bytes>)
    requires |addresses| == |ports| <= |data| / 6
    requires forall i :: 0 <= i < |addresses| ==> IsPeer(addresses[i], ports[i], data[6 * i..6 * i + 6])
    ensures AllBytes(addresses, ports) == data[..6 * |addresses|]
    decreases |addresses|
  {
    hide IsPeer, PeerBytes;
    if addresses == [] {
    } else {
      var n := |addresses| - 1;
      PeersReadBack(data, addresses[..n], ports[..n]);
      var d := data[6 * n..6 * n + 6];
      PeerReadsBack(addresses[n], ports[n], d);
      assert data[..6 * n] + d == data[..6 * n + 6];
    }
  }
}
