/** UUID strings and their shortened over-the-air forms (src/raw_adv.rs:4-38; the Base UUID is that of
    the Bluetooth Core Specification, Vol 3, Part B, section 2.5.1).

    A Rust string is its UTF-8 bytes. */
module Uuid {
  import opened Words

  type Str = seq<u8>
  type Bytes16 = b: seq<u8> | |b| == 16 witness [0, 0, 0, 0, 0, 0, 0, 0, 0, 0, 0, 0, 0, 0, 0, 0]

  const DASH: u8 := '-' as int
  const PLUS: u8 := '+' as int

  const BASE_UUID_SUFFIX: seq<u8> := [0x00, 0x00, 0x10, 0x00, 0x80, 0x00, 0x00, 0x80, 0x5F, 0x9B, 0x34, 0xFB]

  datatype ShortUuid = Bit16(id: u16) | Bit32(id32: u32) | Bit128(bytes: Bytes16)

  // ---- Hexadecimal ----

  function Digit(c: u8): (d: Option<u8>)
    ensures d.Some? ==> d.value < 16
  {
    if '0' as int <= c <= '9' as int then Some(c - '0' as int)
    else if 'a' as int <= c <= 'f' as int then Some(c - 'a' as int + 10)
    else if 'A' as int <= c <= 'F' as int then Some(c - 'A' as int + 10)
    else None
  }

  /** The number a string of hexadecimal digits spells. */
  function HexInt(s: Str): Option<nat> {
    if s == [] then Some(0)
    else match (HexInt(s[..|s| - 1]), Digit(s[|s| - 1]))
      case (Some(x), Some(y)) => Some(16 * x + y)
      case _ => None
  }

  /** `u8::from_str_radix(s, 16)`: a leading plus sign is accepted, an empty or too large number not. */
  function FromStrRadix(s: Str): Option<u8> {
    var digits := if |s| > 1 && s[0] == PLUS then s[1..] else s;
    match HexInt(digits)
    case Some(v) => if digits != [] && v < 0x100 then Some(v) else None
    case None => None
  }

  lemma HexOne(c: u8)
    ensures HexInt([c]) == match Digit(c) case Some(d) => Some(d) case None => None
  {
    assert [c][..0] == [];
  }

  lemma PairValue(a: u8, b: u8)
    ensures FromStrRadix([a, b]) ==
            if a == 0x2B then Digit(b)
            else if Digit(a).Some? && Digit(b).Some? then Some(16 * Digit(a).value + Digit(b).value) else None
  {
    HexOne(b);
    assert [a, b][1..] == [b];
    HexOne(a);
    assert [a, b][..1] == [a];
  }

  // 0123456789abcdef, and with capital letters
  const LOWER_HEX: seq<u8> :=
    [0x30, 0x31, 0x32, 0x33, 0x34, 0x35, 0x36, 0x37, 0x38, 0x39, 0x61, 0x62, 0x63, 0x64, 0x65, 0x66]
  const UPPER_HEX: seq<u8> :=
    [0x30, 0x31, 0x32, 0x33, 0x34, 0x35, 0x36, 0x37, 0x38, 0x39, 0x41, 0x42, 0x43, 0x44, 0x45, 0x46]

  lemma DigitExactly(c: u8, d: u8)
    ensures Digit(c) == Some(d) <==> d < 16 && (c == LOWER_HEX[d] || c == UPPER_HEX[d])
  {
  }

  lemma {:induction false} AllDigits(s: Str)
    ensures HexInt(s).Some? <==> forall i | 0 <= i < |s| :: Digit(s[i]).Some?
  {
    if s != [] {
      AllDigits(s[..|s| - 1]);
      assert forall i | 0 <= i < |s| - 1 :: s[i] == s[..|s| - 1][i];
    }
  }

  lemma {:induction false} AllZeros(s: Str)
    requires HexInt(s).Some?
    ensures HexInt(s).value == 0 <==> forall i | 0 <= i < |s| :: s[i] == 0x30
  {
    if s != [] {
      AllZeros(s[..|s| - 1]);
      assert forall i | 0 <= i < |s| - 1 :: s[i] == s[..|s| - 1][i];
    }
  }

  /** A byte in hexadecimal: digits of either case, all but the last two of them zeros. */
  predicate SpellsByte(t: Str, v: u8) {
    && t != [] && (forall i | 0 <= i < |t| - 2 :: t[i] == 0x30)
    && (forall i | 0 <= i < |t| :: t[i] in LOWER_HEX + UPPER_HEX)
    && Digit(t[|t| - 1]) == Some(v % 16) && (if |t| == 1 then v < 16 else Digit(t[|t| - 2]) == Some(v / 16))
  }

  lemma LastDigit(t: Str, v: nat)
    requires t != []
    ensures HexInt(t) == Some(v) <==> HexInt(t[..|t| - 1]) == Some(v / 16) && Digit(t[|t| - 1]) == Some(v % 16)
  {
    hide Digit;
    match (HexInt(t[..|t| - 1]), Digit(t[|t| - 1])) {
      case (Some(x), Some(y)) => RemainderOf(16 * x + y, x, 16, y);
      case _ =>
    }
  }

  lemma InTables(c: u8)
    ensures c in LOWER_HEX + UPPER_HEX <==> Digit(c).Some?
  {
    if Digit(c).Some? { DigitExactly(c, Digit(c).value); }
  }

  lemma NoDigits(s: Str, v: nat)
    requires s == []
    ensures HexInt(s) == Some(v) <==> v == 0
  {
  }

  lemma SpelledByte(t: Str, v: u8)
    requires t != []
    ensures HexInt(t) == Some(v) <==> SpellsByte(t, v)
  {
    hide HexInt, Digit;
    var init := t[..|t| - 1];
    forall i | 0 <= i < |t| ensures t[i] in LOWER_HEX + UPPER_HEX <==> Digit(t[i]).Some? { InTables(t[i]); }
    AllDigits(t);
    LastDigit(t, v);
    if |t| == 1 {
      NoDigits(init, v / 16);
    } else {
      LastDigit(init, v / 16);
      assert init[|init| - 1] == t[|t| - 2] && v / 16 / 16 == 0 && v / 16 % 16 == v / 16;
      var zeros := init[..|init| - 1];
      AllDigits(zeros);
      assert forall i | 0 <= i < |zeros| :: zeros[i] == t[i];
      if HexInt(zeros).Some? { AllZeros(zeros); }
    }
  }

  lemma SpelledNonEmpty(t: Str, v: u8)
    requires SpellsByte(t, v)
    ensures t != [] && t[0] != 0x2B
  {
    assert t[0] in LOWER_HEX + UPPER_HEX;
  }

  /** `u8::from_str_radix(s, 16)`, for strings of any length. */
  lemma RadixExactly(s: Str, v: u8)
    ensures FromStrRadix(s) == Some(v) <==> exists t: Str :: (s == t || s == [0x2B] + t) && SpellsByte(t, v)
  {
    hide HexInt, SpellsByte;
    var digits := if |s| > 1 && s[0] == 0x2B then s[1..] else s;
    if FromStrRadix(s) == Some(v) {
      SpelledByte(digits, v);
      assert s == digits || s == [0x2B] + digits;
    }
    forall t: Str | (s == t || s == [0x2B] + t) && SpellsByte(t, v) ensures FromStrRadix(s) == Some(v) {
      SpelledNonEmpty(t, v);
      SpelledByte(t, v);
      assert s == [0x2B] + t ==> s[1..] == t;
    }
  }

  function Lower(d: u8): (c: u8)
    requires d < 16
    ensures Digit(c) == Some(d) && c != DASH && c != PLUS
  {
    if d < 10 then '0' as int + d else 'a' as int + d - 10
  }

  function HexOf(bytes: seq<u8>): (s: Str)
    ensures |s| == 2 * |bytes|
  {
    if bytes == [] then [] else [Lower(bytes[0] / 16), Lower(bytes[0] % 16)] + HexOf(bytes[1..])
  }

  // ---- The string as sixteen bytes ----

  function Strip(s: Str): Str {
    if s == [] then [] else (if s[0] == DASH then [] else [s[0]]) + Strip(s[1..])
  }

  function PairsOf(hex: Str, n: nat): (r: Option<seq<u8>>)
    requires 2 * n <= |hex|
    ensures r.Some? ==> |r.value| == n
  {
    if n == 0 then Some([])
    else match (PairsOf(hex, n - 1), FromStrRadix(hex[2 * n - 2..2 * n]))
      case (Some(bs), Some(b)) => Some(bs + [b])
      case _ => None
  }

  function UuidBytes(s: Str): (r: Option<seq<u8>>)
    ensures r.Some? ==> |r.value| == 16
  {
    if |Strip(s)| != 32 then None else PairsOf(Strip(s), 16)
  }

  lemma {:induction false} PairsExactly(hex: Str, n: nat, bs: seq<u8>)
    requires 2 * n <= |hex|
    ensures PairsOf(hex, n) == Some(bs) <==>
            |bs| == n && forall i | 0 <= i < n :: FromStrRadix(hex[2 * i..2 * i + 2]) == Some(bs[i])
  {
    hide FromStrRadix;
    if n > 0 {
      var k := n - 1;
      if |bs| == n {
        PairsExactly(hex, k, bs[..k]);
        assert bs == bs[..k] + [bs[k]];
        assert hex[2 * n - 2..2 * n] == hex[2 * k..2 * k + 2];
      }
      if PairsOf(hex, n) == Some(bs) { assert bs[..k] == PairsOf(hex, k).value; }
    }
  }

  /** A string means sixteen bytes if and only if 32 characters are left without its dashes and each
      pair of them is the number of its byte. */
  lemma UuidBytesExactly(s: Str, bs: seq<u8>)
    ensures UuidBytes(s) == Some(bs) <==>
            && |Strip(s)| == 32 && |bs| == 16
            && forall i | 0 <= i < 16 :: FromStrRadix(Strip(s)[2 * i..2 * i + 2]) == Some(bs[i])
  {
    hide Strip, PairsOf, FromStrRadix;
    if |Strip(s)| == 32 { PairsExactly(Strip(s), 16, bs); }
  }

  // ---- Short forms ----

  /** `from_be_bytes`. */
  function Be16(a: int, b: int): (x: u16)
    requires 0 <= a < 0x100 && 0 <= b < 0x100
    ensures x / 0x100 == a && x % 0x100 == b
  {
    0x100 * a + b
  }

  function Be32(a: int, b: int, c: int, d: int): (x: u32)
    requires 0 <= a < 0x100 && 0 <= b < 0x100 && 0 <= c < 0x100 && 0 <= d < 0x100
    ensures x / 0x100_0000 == a && x / 0x1_0000 % 0x100 == b && x / 0x100 % 0x100 == c && x % 0x100 == d
  {
    var x := 0x100_0000 * a + 0x1_0000 * b + 0x100 * c + d;
    assert x / 0x100 == 0x1_0000 * a + 0x100 * b + c;
    assert x / 0x1_0000 == 0x100 * a + b;
    x
  }

  function Shrink(b: Bytes16): ShortUuid {
    if b[4..] == BASE_UUID_SUFFIX then
      if b[0] == 0 && b[1] == 0 then Bit16(Be16(b[2], b[3])) else Bit32(Be32(b[0], b[1], b[2], b[3]))
    else Bit128(b)
  }

  /** The 128-bit UUID a short form stands for. */
  function Expand(u: ShortUuid): Bytes16 {
    match u
    case Bit16(id) => [0, 0, id / 0x100, id % 0x100] + BASE_UUID_SUFFIX
    case Bit32(id) => [id / 0x100_0000, id / 0x1_0000 % 0x100, id / 0x100 % 0x100, id % 0x100] + BASE_UUID_SUFFIX
    case Bit128(bytes) => bytes
  }

  function ParseUuid(s: Str): Option<ShortUuid> {
    match UuidBytes(s) case Some(b) => Some(Shrink(b)) case None => None
  }

  // ---- Parsing ----

  /** `str::is_char_boundary`: offset k does not lie inside a UTF-8 sequence. */
  predicate Boundary(s: Str, k: nat) {
    k == 0 || k == |s| || (k < |s| && !(0x80 <= s[k] < 0xC0))
  }

  /** Slicing out pair i aborts. */
  predicate CutsChar(hex: Str, i: nat) {
    !Boundary(hex, 2 * i) || !Boundary(hex, 2 * i + 2)
  }

  /** The pairs are sliced in order until one is not a number. */
  predicate UuidAborts(s: Str) {
    |Strip(s)| == 32 && exists i: nat :: i < 16 && PairsOf(Strip(s), i).Some? && CutsChar(Strip(s), i)
  }

  datatype UuidResult = Form(uuid: ShortUuid) | Rejected | SliceAbort

  lemma {:induction false} NoneStays(hex: Str, m: nat, n: nat)
    requires m <= n && 2 * n <= |hex| && PairsOf(hex, m) == None
    ensures PairsOf(hex, n) == None
  {
    if m < n { NoneStays(hex, m, n - 1); }
  }

  lemma PairStep(hex: Str, i: nat)
    requires 2 * i + 2 <= |hex|
    ensures PairsOf(hex, i + 1) ==
            match (PairsOf(hex, i), FromStrRadix(hex[i * 2..i * 2 + 2]))
            case (Some(bs), Some(b)) => Some(bs + [b])
            case _ => None
  {
  }

  /** What `parse_uuid` comes to. */
  function ParseOutcome(s: Str): UuidResult {
    if UuidAborts(s) then SliceAbort
    else match ParseUuid(s) case Some(u) => Form(u) case None => Rejected
  }

  lemma WrongLength(s: Str)
    requires |Strip(s)| != 32
    ensures ParseOutcome(s) == Rejected
  {
  }

  /** The loop over the pairs stops at a cut character, at a pair that is not a number, or at the end. */
  lemma LoopOutcome(s: Str, i: nat)
    requires |Strip(s)| == 32 && i <= 16 && PairsOf(Strip(s), i).Some?
    requires forall j: nat | j < i :: !CutsChar(Strip(s), j)
    ensures i == 16 ==> ParseOutcome(s) == Form(Shrink(PairsOf(Strip(s), 16).value))
    ensures i < 16 && CutsChar(Strip(s), i) ==> ParseOutcome(s) == SliceAbort
    ensures i < 16 && !CutsChar(Strip(s), i) && PairsOf(Strip(s), i + 1).None? ==> ParseOutcome(s) == Rejected
  {
    hide Strip, CutsChar, PairsOf, Shrink;
    if i < 16 && PairsOf(Strip(s), i + 1).None? {
      forall j: nat | i < j <= 16 ensures PairsOf(Strip(s), j) == None { NoneStays(Strip(s), i + 1, j); }
    }
  }

  lemma ShrinkCases(b: Bytes16)
    ensures Shrink(b) ==
            if b[4..16] != BASE_UUID_SUFFIX then Bit128(b)
            else if b[0] == 0 && b[1] == 0 then Bit16(Be16(b[2], b[3]))
            else Bit32(Be32(b[0], b[1], b[2], b[3]))
  {
    hide Be16, Be32;
    assert b[4..] == b[4..16];
  }

  lemma NoPairs(hex: Str)
    ensures PairsOf(hex, 0) == Some([])
  {
  }

  method ParseUuidString(s: Str) returns (r: UuidResult)
    ensures r == ParseOutcome(s)
  {
    hide FromStrRadix, Strip, CutsChar, PairsOf, ParseOutcome, Shrink, Be16, Be32;
    var hex := Strip(s);
    if |hex| != 32 {
      WrongLength(s);
      return Rejected;
    }
    var bytes := new u8[16](_ => 0);
    NoPairs(hex);
    assert bytes[..0] == [];
    for i := 0 to 16
      invariant PairsOf(hex, i) == Some(bytes[..i])
      invariant forall j: nat | j < i :: !CutsChar(hex, j)
    {
      LoopOutcome(s, i);
      PairStep(hex, i);
      if CutsChar(hex, i) {
        return SliceAbort;
      }
      var pair := FromStrRadix(hex[i * 2..i * 2 + 2]);
      if pair.None? {
        return Rejected;
      }
      bytes[i] := pair.value;
      assert bytes[..i + 1] == bytes[..i] + [pair.value];
    }
    LoopOutcome(s, 16);
    assert bytes[..16] == bytes[..];
    ShrinkCases(bytes[..]);
    if bytes[4..16] == BASE_UUID_SUFFIX {
      if bytes[0] == 0 && bytes[1] == 0 {
        return Form(Bit16(Be16(bytes[2], bytes[3])));
      }
      return Form(Bit32(Be32(bytes[0], bytes[1], bytes[2], bytes[3])));
    }
    return Form(Bit128(bytes[..]));
  }

  // ---- When slicing aborts ----

  lemma {:induction false} StripKeeps(s: Str)
    ensures forall c | c in Strip(s) :: c in s && c != 0x2D
    ensures 0x2D !in s ==> Strip(s) == s
  {
    if s != [] { StripKeeps(s[1..]); }
  }

  lemma DigitAscii(c: u8)
    ensures Digit(c).Some? ==> c < 0x80
  {
  }

  lemma {:induction false} PairsAscii(hex: Str, n: nat, k: nat)
    requires k < 2 * n <= |hex| && PairsOf(hex, n).Some?
    ensures hex[k] < 0x80
  {
    hide HexInt, Digit;
    if k < 2 * n - 2 {
      PairsAscii(hex, n - 1, k);
    } else {
      PairValue(hex[2 * n - 2], hex[2 * n - 1]);
      assert hex[2 * n - 2..2 * n] == [hex[2 * n - 2], hex[2 * n - 1]];
      DigitAscii(hex[2 * n - 2]);
      DigitAscii(hex[2 * n - 1]);
    }
  }

  /** A UTF-8 sequence continues past the end of pair i. */
  predicate Crosses(hex: Str, i: nat) {
    2 * i + 2 < |hex| && 0x80 <= hex[2 * i + 2] < 0xC0
  }

  lemma PairsShorter(hex: Str, m: nat, n: nat)
    requires m <= n && 2 * n <= |hex| && PairsOf(hex, n).Some?
    ensures PairsOf(hex, m).Some?
  {
    if PairsOf(hex, m).None? { NoneStays(hex, m, n); }
  }

  /** An abort needs a character of two or more bytes that crosses the end of a pair, all pairs before
      it being numbers; so an ASCII string never aborts, nor does one that is accepted. */
  lemma AbortsOnCrossing(s: Str)
    ensures UuidAborts(s) <==>
            |Strip(s)| == 32 && exists i: nat :: i < 15 && PairsOf(Strip(s), i).Some? && Crosses(Strip(s), i)
    ensures (forall c | c in s :: c < 0x80) ==> !UuidAborts(s)
    ensures ParseUuid(s).Some? ==> !UuidAborts(s)
  {
    hide PairsOf, Strip, Shrink;
    var hex := Strip(s);
    StripKeeps(s);
    if UuidAborts(s) {
      var i: nat :| i < 16 && PairsOf(hex, i).Some? && CutsChar(hex, i);
      var k := if Crosses(hex, i) then i else i - 1;
      PairsShorter(hex, k, i);
      assert Crosses(hex, k) && hex[2 * k + 2] in hex;
      if PairsOf(hex, 16).Some? { PairsAscii(hex, 16, 2 * k + 2); }
    }
    if i: nat :| |hex| == 32 && i < 15 && PairsOf(hex, i).Some? && Crosses(hex, i) {
      assert CutsChar(hex, i);
    }
  }

  /** "a", "é" and twenty-nine zeros: 32 bytes, and the first slice ends inside the "é". */
  lemma AbortingUuid()
    ensures UuidAborts([0x61, 0xC3, 0xA9] + seq(29, _ => 0x30))
  {
    var s: Str := [0x61, 0xC3, 0xA9] + seq(29, _ => 0x30);
    StripKeeps(s);
    assert PairsOf(Strip(s), 0).Some? && CutsChar(Strip(s), 0);
  }

  // ---- Lossless, canonical, narrowest ----

  lemma ShrinkLossless(b: Bytes16)
    ensures Expand(Shrink(b)) == b
  {
    hide Be16, Be32;
    if b[4..] == BASE_UUID_SUFFIX { assert b == [b[0], b[1], b[2], b[3]] + BASE_UUID_SUFFIX; }
  }

  lemma ParseLossless(s: Str)
    requires ParseUuid(s).Some?
    ensures UuidBytes(s).Some? && Expand(ParseUuid(s).value) == UuidBytes(s).value
  {
    ShrinkLossless(UuidBytes(s).value);
  }

  /** Two accepted strings get the same form exactly when they spell the same bytes. */
  lemma ParseCanonical(s: Str, t: Str)
    requires ParseUuid(s).Some? && ParseUuid(t).Some?
    ensures ParseUuid(s) == ParseUuid(t) <==> UuidBytes(s) == UuidBytes(t)
  {
    ParseLossless(s);
    ParseLossless(t);
  }

  /** The narrowest form that stands for the same UUID is the one chosen. */
  lemma ShrinkNarrowest(b: Bytes16)
    ensures Shrink(b).Bit16? <==> exists id: u16 :: Expand(Bit16(id)) == b
    ensures Shrink(b).Bit32? <==> !Shrink(b).Bit16? && exists id: u32 :: Expand(Bit32(id)) == b
  {
    ShrinkLossless(b);
    forall id: u16 | Expand(Bit16(id)) == b ensures Shrink(b).Bit16? {
      assert b[4..] == BASE_UUID_SUFFIX && b[0] == 0 && b[1] == 0;
    }
    forall id: u32 | Expand(Bit32(id)) == b ensures !Shrink(b).Bit128? {
      assert b[4..] == BASE_UUID_SUFFIX;
    }
  }

  lemma {:induction false} StripAppends(s: Str, t: Str)
    ensures Strip(s + t) == Strip(s) + Strip(t)
  {
    if s == [] {
      assert s + t == t;
    } else {
      var head: Str := if s[0] == DASH then [] else [s[0]];
      assert (s + t)[0] == s[0] && (s + t)[1..] == s[1..] + t;
      StripAppends(s[1..], t);
      Assoc(head, Strip(s[1..]), Strip(t));
    }
  }

  lemma DashStrips()
    ensures Strip([DASH]) == []
  {
    assert [DASH][1..] == [];
  }

  /** A dash may stand anywhere. */
  lemma DashesIgnored(s: Str, i: nat)
    requires i <= |s|
    ensures ParseUuid(s[..i] + [0x2D] + s[i..]) == ParseUuid(s)
  {
    assert s == s[..i] + s[i..];
    StripAppends(s[..i], s[i..]);
    StripAppends(s[..i] + [DASH], s[i..]);
    StripAppends(s[..i], [DASH]);
    DashStrips();
    assert Strip(s[..i]) + [] == Strip(s[..i]);
    assert Strip(s[..i] + [DASH] + s[i..]) == Strip(s[..i]) + Strip(s[i..]) == Strip(s);
  }

  // ---- Printing and reading back ----

  /** The usual 8-4-4-4-12 spelling. */
  function Dashed(b: Bytes16): Str {
    HexOf(b[..4]) + [DASH] + HexOf(b[4..6]) + [DASH] + HexOf(b[6..8]) + [DASH]
    + HexOf(b[8..10]) + [DASH] + HexOf(b[10..])
  }

  lemma {:induction false} StripHex(bytes: seq<u8>)
    ensures Strip(HexOf(bytes)) == HexOf(bytes)
  {
    if bytes != [] {
      StripHex(bytes[1..]);
      var two := [Lower(bytes[0] / 16), Lower(bytes[0] % 16)];
      StripAppends(two, HexOf(bytes[1..]));
      assert Strip(two[1..]) == two[1..] by { assert two[1..][1..] == []; }
      assert Strip(two) == two;
    }
  }

  lemma {:induction false} HexAppends(a: seq<u8>, b: seq<u8>)
    ensures HexOf(a + b) == HexOf(a) + HexOf(b)
  {
    if a == [] {
      assert a + b == b;
    } else {
      assert (a + b)[0] == a[0] && (a + b)[1..] == a[1..] + b;
      HexAppends(a[1..], b);
      Assoc([Lower(a[0] / 16), Lower(a[0] % 16)], HexOf(a[1..]), HexOf(b));
    }
  }

  lemma {:induction false} HexAt(bytes: seq<u8>, i: nat)
    requires i < |bytes|
    ensures HexOf(bytes)[2 * i] == Lower(bytes[i] / 16) && HexOf(bytes)[2 * i + 1] == Lower(bytes[i] % 16)
  {
    if i > 0 { HexAt(bytes[1..], i - 1); }
  }

  lemma {:induction false} PairsOfHex(bytes: seq<u8>, n: nat)
    requires n <= |bytes|
    ensures PairsOf(HexOf(bytes), n) == Some(bytes[..n])
  {
    hide FromStrRadix, HexOf;
    if n > 0 {
      PairsOfHex(bytes, n - 1);
      HexAt(bytes, n - 1);
      var hi, lo := Lower(bytes[n - 1] / 16), Lower(bytes[n - 1] % 16);
      assert HexOf(bytes)[2 * n - 2..2 * n] == [hi, lo];
      PairValue(hi, lo);
      assert bytes[..n] == bytes[..n - 1] + [bytes[n - 1]];
    }
  }

  /** One more group of digits behind what was printed so far. */
  lemma StripPart(before: Str, b: Bytes16, i: nat, j: nat)
    requires i <= j <= 16 && Strip(before) == HexOf(b[..i])
    ensures Strip(before + [DASH] + HexOf(b[i..j])) == HexOf(b[..j])
    ensures Strip(before + HexOf(b[i..j])) == HexOf(b[..j])
  {
    hide Strip, HexOf;
    DashStrips();
    StripAppends(before, [DASH]);
    StripAppends(before + [DASH], HexOf(b[i..j]));
    StripAppends(before, HexOf(b[i..j]));
    StripHex(b[i..j]);
    HexAppends(b[..i], b[i..j]);
    assert b[..j] == b[..i] + b[i..j];
  }

  lemma DashedStrips(b: Bytes16)
    ensures Strip(Dashed(b)) == HexOf(b)
  {
    hide HexOf;
    StripPart([], b, 0, 4);
    StripPart(HexOf(b[..4]), b, 4, 6);
    StripPart(HexOf(b[..4]) + [DASH] + HexOf(b[4..6]), b, 6, 8);
    StripPart(HexOf(b[..4]) + [DASH] + HexOf(b[4..6]) + [DASH] + HexOf(b[6..8]), b, 8, 10);
    StripPart(HexOf(b[..4]) + [DASH] + HexOf(b[4..6]) + [DASH] + HexOf(b[6..8]) + [DASH] + HexOf(b[8..10]), b, 10, 16);
    assert b[..16] == b && [] + HexOf(b[..4]) == HexOf(b[0..4]);
  }

  /** The dashed spelling of any sixteen bytes is accepted and means those bytes. */
  lemma DashedParses(b: Bytes16)
    ensures UuidBytes(Dashed(b)) == Some(b) && ParseUuid(Dashed(b)) == Some(Shrink(b))
  {
    assert Strip(Dashed(b)) == HexOf(b) by { DashedStrips(b); }
    PairsOfHex(b, 16);
    assert b[..16] == b;
  }

  /** 0000xxxx-0000-1000-8000-00805f9b34fb is the 16-bit UUID xxxx; with other leading digits, the
      32-bit one. */
  lemma BaseUuidsShrink(a: u8, b: u8, c: u8, d: u8)
    ensures var base := [0x00, 0x00, 0x10, 0x00, 0x80, 0x00, 0x00, 0x80, 0x5F, 0x9B, 0x34, 0xFB];
            ParseUuid(Dashed([a, b, c, d] + base)) ==
            Some(if a == 0 && b == 0 then Bit16(Be16(c, d)) else Bit32(Be32(a, b, c, d)))
  {
    hide UuidBytes, Dashed, Be16, Be32;
    var bytes: Bytes16 := [a, b, c, d] + BASE_UUID_SUFFIX;
    DashedParses(bytes);
    assert bytes[4..] == BASE_UUID_SUFFIX;
  }

  // ---- Little-endian bytes on the air ----

  function Reversed(bs: seq<u8>): (r: seq<u8>)
    ensures |r| == |bs|
  {
    seq(|bs|, i requires 0 <= i < |bs| => bs[|bs| - 1 - i])
  }

  /** `to_le_bytes`, or the bytes reversed. */
  function LeBytes(u: ShortUuid): seq<u8> {
    match u
    case Bit16(id) => [id % 0x100, id / 0x100]
    case Bit32(id) => [id % 0x100, id / 0x100 % 0x100, id / 0x1_0000 % 0x100, id / 0x100_0000]
    case Bit128(bytes) => Reversed(bytes)
  }

  function Width(u: ShortUuid): (w: nat)
    ensures w == |LeBytes(u)|
  {
    match u case Bit16(_) => 2 case Bit32(_) => 4 case Bit128(_) => 16
  }

  /** The bytes on the air are the UUID's own, the last of them first; a short form omits the Base UUID. */
  lemma LittleEndian(u: ShortUuid)
    ensures |LeBytes(u)| == if u.Bit16? then 2 else if u.Bit32? then 4 else 16
    ensures forall i | 0 <= i < |LeBytes(u)| :: LeBytes(u)[i] == Expand(u)[(if u.Bit128? then 15 else 3) - i]
    ensures !u.Bit128? ==>
              Expand(u)[4..] == [0x00, 0x00, 0x10, 0x00, 0x80, 0x00, 0x00, 0x80, 0x5F, 0x9B, 0x34, 0xFB]
    ensures u.Bit16? ==> Expand(u)[..2] == [0, 0]
  {
  }

  /** What a receiver makes of a UUID of 2, 4 or 16 bytes on the air. */
  function ReadLe(le: seq<u8>): (b: Bytes16)
    requires |le| in {2, 4, 16}
  {
    if |le| == 2 then [0, 0, le[1], le[0]] + BASE_UUID_SUFFIX
    else if |le| == 4 then [le[3], le[2], le[1], le[0]] + BASE_UUID_SUFFIX
    else Reversed(le)
  }

  lemma ReadBack(u: ShortUuid)
    ensures ReadLe(LeBytes(u)) == Expand(u)
  {
  }
}
