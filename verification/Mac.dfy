/** MAC addresses as text (src/utils.rs) and as the 64-bit address of an advertisement
    (`parse_ble_address` in src/ble.rs). */
module Mac {
  import opened Words
  import opened Uuid

  const COLON: u8 := ':' as int

  function Upper(d: u8): (c: u8)
    requires d < 16
    ensures Digit(c) == Some(d) && c != COLON && c != PLUS
  {
    if d < 10 then '0' as int + d else 'A' as int + d - 10
  }

  /** `{b:02X}` */
  function UpperHex(b: u8): Str {
    [Upper(b / 16), Upper(b % 16)]
  }

  function Join(parts: seq<Str>, sep: Str): Str {
    if parts == [] then [] else if |parts| == 1 then parts[0] else parts[0] + sep + Join(parts[1..], sep)
  }

  function FormatMac(mac: seq<u8>, sep: Str): Str {
    Join(seq(|mac|, i requires 0 <= i < |mac| => UpperHex(mac[i])), sep)
  }

  function Split(s: Str): (parts: seq<Str>)
    ensures parts != []
  {
    if s == [] then [[]]
    else
      var rest := Split(s[1..]);
      if s[0] == COLON then [[]] + rest else [[s[0]] + rest[0]] + rest[1..]
  }

  /** The bytes of the first n parts, if each is one. */
  function BytesOfParts(parts: seq<Str>, n: nat): (r: Option<seq<u8>>)
    requires n <= |parts|
    ensures r.Some? ==> |r.value| == n
  {
    if n == 0 then Some([])
    else match (BytesOfParts(parts, n - 1), FromStrRadix(parts[n - 1]))
      case (Some(bs), Some(b)) => Some(bs + [b])
      case _ => None
  }

  lemma {:induction false} PartsNoneStays(parts: seq<Str>, m: nat, n: nat)
    requires m <= n <= |parts| && BytesOfParts(parts, m) == None
    ensures BytesOfParts(parts, n) == None
  {
    if m < n { PartsNoneStays(parts, m, n - 1); }
  }

  method ParseMac(s: Str) returns (r: Option<seq<u8>>)
    ensures r == if |Split(s)| == 6 then BytesOfParts(Split(s), 6) else None
  {
    var parts := Split(s);
    if |parts| != 6 {
      return None;
    }
    var mac := new u8[6](_ => 0);
    for i := 0 to 6
      invariant BytesOfParts(parts, i) == Some(mac[..i])
    {
      var b := FromStrRadix(parts[i]);
      if b.None? {
        PartsNoneStays(parts, i + 1, 6);
        return None;
      }
      mac[i] := b.value;
      assert mac[..i + 1] == mac[..i] + [b.value];
    }
    assert mac[..6] == mac[..];
    return Some(mac[..]);
  }

  lemma {:induction false} OrCommutes(a: nat, b: nat)
    ensures BitOr(a, b) == BitOr(b, a)
    decreases a + b
  {
    if a > 0 || b > 0 { OrCommutes(a / 2, b / 2); }
  }

  lemma OrByte(acc: u64, b: u8)
    ensures BitOr(Shl64(acc, 8), b) == acc * 0x100 % TWO_64 + b < TWO_64
  {
    hide BitOr;
    assert Pow2(8) == 0x100;
    var high := acc * 0x100 % TWO_64 / 0x100;
    assert acc * 0x100 % TWO_64 == high * 0x100;
    OrIsSum(b, high, 8);
    OrCommutes(b, high * 0x100);
  }

  /** The fold of `parse_ble_address` over the first n parts: an unreadable part counts as zero. */
  function AddressOf(parts: seq<Str>, n: nat): u64
    requires n <= |parts|
  {
    if n == 0 then 0
    else
      var part := match FromStrRadix(parts[n - 1]) case Some(b) => b case None => 0;
      OrByte(AddressOf(parts, n - 1), part);
      BitOr(Shl64(AddressOf(parts, n - 1), 8), part)
  }

  function ParseBleAddress(s: Str): u64 {
    AddressOf(Split(s), |Split(s)|)
  }

  function BigEndian(bs: seq<u8>): nat {
    if bs == [] then 0 else 0x100 * BigEndian(bs[..|bs| - 1]) + bs[|bs| - 1]
  }

  // ---- Round trips ----

  predicate NoColon(s: Str) {
    COLON !in s
  }

  lemma {:induction false} SplitOne(s: Str)
    requires NoColon(s)
    ensures Split(s) == [s]
  {
    if s != [] {
      SplitOne(s[1..]);
      assert [s[0]] + s[1..] == s;
    }
  }

  lemma {:induction false} SplitFirst(s: Str, t: Str)
    requires NoColon(s)
    ensures Split(s + [COLON] + t) == [s] + Split(t)
  {
    if s == [] {
      assert s + [COLON] + t == [COLON] + t;
    } else {
      SplitFirst(s[1..], t);
      assert (s + [COLON] + t)[1..] == s[1..] + [COLON] + t;
      assert [s[0]] + s[1..] == s;
    }
  }

  lemma {:induction false} SplitJoin(parts: seq<Str>)
    requires parts != [] && forall i | 0 <= i < |parts| :: NoColon(parts[i])
    ensures Split(Join(parts, [COLON])) == parts
  {
    if |parts| == 1 {
      SplitOne(parts[0]);
    } else {
      SplitJoin(parts[1..]);
      SplitFirst(parts[0], Join(parts[1..], [COLON]));
    }
  }

  lemma SplitFormatted(mac: seq<u8>)
    requires mac != []
    ensures Split(FormatMac(mac, [COLON])) == seq(|mac|, i requires 0 <= i < |mac| => UpperHex(mac[i]))
  {
    SplitJoin(seq(|mac|, i requires 0 <= i < |mac| => UpperHex(mac[i])));
  }

  lemma {:induction false} FormattedBytes(mac: seq<u8>, n: nat)
    requires n <= |mac|
    ensures BytesOfParts(seq(|mac|, i requires 0 <= i < |mac| => UpperHex(mac[i])), n) == Some(mac[..n])
  {
    hide FromStrRadix;
    if n > 0 {
      FormattedBytes(mac, n - 1);
      PairValue(Upper(mac[n - 1] / 16), Upper(mac[n - 1] % 16));
      assert mac[..n] == mac[..n - 1] + [mac[n - 1]];
    }
  }

  /** Six bytes survive formatting and parsing. */
  lemma MacRoundTrip(mac: seq<u8>)
    requires |mac| == 6
    ensures var text := FormatMac(mac, [0x3A]);
            |Split(text)| == 6 && BytesOfParts(Split(text), 6) == Some(mac)
  {
    SplitFormatted(mac);
    FormattedBytes(mac, 6);
    assert mac[..6] == mac;
  }

  lemma InUpper(d: u8)
    requires d < 16
    ensures Upper(d) == UPPER_HEX[d]
  {
  }

  /** Part i of two characters in its place, and the colon behind it. */
  lemma {:induction false} JoinAt(parts: seq<Str>, i: nat)
    requires i < |parts| && forall k | 0 <= k < |parts| :: |parts[k]| == 2
    ensures |Join(parts, [0x3A])| == 3 * |parts| - 1
    ensures Join(parts, [0x3A])[3 * i] == parts[i][0] && Join(parts, [0x3A])[3 * i + 1] == parts[i][1]
    ensures i + 1 < |parts| ==> Join(parts, [0x3A])[3 * i + 2] == 0x3A
  {
    if |parts| > 1 {
      JoinAt(parts[1..], if i == 0 then 0 else i - 1);
    }
  }

  /** The text of a MAC: two capital digits a byte, colons between. */
  lemma FormatLayout(mac: seq<u8>)
    requires |mac| == 6
    ensures |FormatMac(mac, [0x3A])| == 17
    ensures forall i | 0 <= i < 6 ::
              var text := FormatMac(mac, [0x3A]);
              && text[3 * i] == UPPER_HEX[mac[i] / 16] && text[3 * i + 1] == UPPER_HEX[mac[i] % 16]
              && (i < 5 ==> text[3 * i + 2] == 0x3A)
  {
    hide Join;
    var parts := seq(|mac|, i requires 0 <= i < |mac| => UpperHex(mac[i]));
    JoinAt(parts, 0);
    forall i | 0 <= i < 6
      ensures parts[i] == [UPPER_HEX[mac[i] / 16], UPPER_HEX[mac[i] % 16]]
      ensures Join(parts, [0x3A])[3 * i] == parts[i][0] && Join(parts, [0x3A])[3 * i + 1] == parts[i][1]
      ensures i < 5 ==> Join(parts, [0x3A])[3 * i + 2] == 0x3A
    {
      InUpper(mac[i] / 16);
      InUpper(mac[i] % 16);
      JoinAt(parts, i);
    }
  }

  lemma {:induction false} SplitJoins(s: Str)
    ensures Join(Split(s), [0x3A]) == s && forall i | 0 <= i < |Split(s)| :: 0x3A !in Split(s)[i]
  {
    if s != [] {
      var rest := Split(s[1..]);
      SplitJoins(s[1..]);
      assert s == [s[0]] + s[1..];
      if s[0] != COLON { assert ([[s[0]] + rest[0]] + rest[1..])[1..] == rest[1..]; }
    }
  }

  lemma {:induction false} PartsExactly(parts: seq<Str>, n: nat, bs: seq<u8>)
    requires n <= |parts|
    ensures BytesOfParts(parts, n) == Some(bs) <==>
            |bs| == n && forall i | 0 <= i < n :: FromStrRadix(parts[i]) == Some(bs[i])
  {
    hide FromStrRadix;
    if n > 0 {
      if |bs| == n {
        PartsExactly(parts, n - 1, bs[..n - 1]);
        assert bs == bs[..n - 1] + [bs[n - 1]];
      }
      if BytesOfParts(parts, n) == Some(bs) { assert bs[..n - 1] == BytesOfParts(parts, n - 1).value; }
    }
  }

  /** A string is a MAC if and only if it is six colonless parts with colons between, each a byte. */
  lemma ParsesExactly(s: Str, bs: seq<u8>)
    ensures |Split(s)| == 6 && BytesOfParts(Split(s), 6) == Some(bs) <==>
            |bs| == 6 && exists parts: seq<Str> ::
              && |parts| == 6 && Join(parts, [0x3A]) == s
              && forall i | 0 <= i < 6 :: 0x3A !in parts[i] && FromStrRadix(parts[i]) == Some(bs[i])
  {
    hide FromStrRadix, Split, Join, BytesOfParts;
    SplitJoins(s);
    if |Split(s)| == 6 { PartsExactly(Split(s), 6, bs); }
    forall parts: seq<Str> | |parts| == 6 && Join(parts, [0x3A]) == s && forall i | 0 <= i < 6 :: 0x3A !in parts[i]
      ensures Split(s) == parts
    {
      SplitJoin(parts);
    }
  }

  lemma {:induction false} BigEndianBound(bs: seq<u8>)
    ensures BigEndian(bs) < Pow2(8 * |bs|)
  {
    if bs != [] {
      hide Pow2;
      BigEndianBound(bs[..|bs| - 1]);
      Pow2Add(8, 8 * (|bs| - 1));
      Pow2Literals();
    } else {
      assert Pow2(0) == 1;
    }
  }

  /** The parts of a MAC as bytes, zero where unreadable. */
  function Readings(parts: seq<Str>): (bs: seq<u8>)
    ensures |bs| == |parts|
  {
    seq(|parts|, i requires 0 <= i < |parts| => match FromStrRadix(parts[i]) case Some(b) => b case None => 0)
  }

  lemma ShiftedSum(x: nat, b: u8)
    ensures x % TWO_64 * 0x100 % TWO_64 + b == (0x100 * x + b) % TWO_64
  {
    var q, r := x / TWO_64, x % TWO_64;
    assert x == q * TWO_64 + r;
    var q', r' := r * 0x100 / TWO_64, r * 0x100 % TWO_64;
    assert r' % 0x100 == 0;
    RemainderOf(0x100 * x + b, 0x100 * q + q', TWO_64, r' + b);
  }

  lemma {:induction false} AddressFold(parts: seq<Str>, n: nat)
    requires n <= |parts|
    ensures AddressOf(parts, n) == BigEndian(Readings(parts)[..n]) % TWO_64
  {
    hide FromStrRadix, BitOr, Shl64;
    if n > 0 {
      var all := Readings(parts);
      AddressFold(parts, n - 1);
      OrByte(AddressOf(parts, n - 1), all[n - 1]);
      assert all[..n][..n - 1] == all[..n - 1];
      ShiftedSum(BigEndian(all[..n - 1]), all[n - 1]);
    }
  }

  /** For any string at all, the address is the big-endian number of its parts mod 2^64, an unreadable
      part counting as zero. */
  lemma AddressExactly(s: Str)
    ensures ParseBleAddress(s) == BigEndian(Readings(Split(s))) % TWO_64
  {
    AddressFold(Split(s), |Split(s)|);
    assert Readings(Split(s))[..|Split(s)|] == Readings(Split(s));
  }

  /** The address of an advertisement is the MAC read as a big-endian number. */
  lemma AddressIsBigEndian(mac: seq<u8>)
    requires |mac| == 6
    ensures ParseBleAddress(FormatMac(mac, [0x3A])) == BigEndian(mac)
  {
    hide Pow2, Split, ParseBleAddress, FromStrRadix;
    var s := FormatMac(mac, [0x3A]);
    AddressExactly(s);
    MacRoundTrip(mac);
    PartsExactly(Split(s), 6, mac);
    assert Readings(Split(s)) == mac;
    BigEndianBound(mac);
    Pow2Monotone(48, 64);
    Pow2Literals();
  }
}
