/** The base-128 varint of the plaintext protocol (src/proto.rs, "Base 128 Varints" of the Protocol
    Buffers encoding), on 64-bit words. */
module Varint {
  import opened Words

  datatype Decoded = Ok(value: u64, consumed: nat) | TooLong | Incomplete

  /** The number a group of bytes stands for: little-endian base 128, continuation bits ignored. */
  function Value(bs: seq<u8>): nat {
    if bs == [] then 0 else bs[0] % 0x80 + 0x80 * Value(bs[1..])
  }

  /** How many leading bytes carry the continuation bit. */
  function ContinuationRun(buf: seq<u8>): (n: nat)
    ensures n <= |buf| && (forall i | 0 <= i < n :: buf[i] >= 0x80) && (n < |buf| ==> buf[n] < 0x80)
  {
    if buf == [] || buf[0] < 0x80 then 0 else 1 + ContinuationRun(buf[1..])
  }

  function Decode(buf: seq<u8>): (r: Decoded)
    ensures r.Ok? ==> 1 <= r.consumed <= 10 && r.consumed <= |buf|
    ensures r.Incomplete? ==> |buf| <= 9
  {
    var n := ContinuationRun(buf);
    if n >= 10 then TooLong
    else if n == |buf| then Incomplete
    else Ok(Value(buf[..n + 1]) % TWO_64, n + 1)
  }

  function Encode(value: nat): (bs: seq<u8>)
    ensures bs != []
  {
    if value < 0x80 then [value] else [value % 0x80 + 0x80] + Encode(value / 0x80)
  }

  // ---- The loops of src/proto.rs ----

  lemma SevenBits(b: nat)
    ensures BitAnd(b, 0x7F) == b % 0x80
    ensures b < 0x100 ==> (BitAnd(b, 0x80) == 0 <==> b < 0x80)
  {
    hide BitAnd, Pow2;
    Pow2Literals();
    MaskIsRemainder(b, 7);
    AndBit(b, 7);
  }

  lemma {:induction false} ValueSnoc(bs: seq<u8>, b: u8)
    ensures Value(bs + [b]) == Value(bs) + b % 0x80 * Pow2(7 * |bs|)
  {
    if bs == [] {
      assert bs + [b] == [b];
    } else {
      hide Pow2;
      ValueSnoc(bs[1..], b);
      assert (bs + [b])[1..] == bs[1..] + [b];
      Pow2Add(7, 7 * |bs[1..]|);
      Pow2Literals();
      var p := Pow2(7 * |bs[1..]|);
      assert Pow2(7 * |bs|) == 0x80 * p;
      assert 0x80 * (b % 0x80 * p) == b % 0x80 * (0x80 * p);
    }
  }

  lemma {:induction false} ValueBound(bs: seq<u8>)
    ensures Value(bs) < Pow2(7 * |bs|)
  {
    if bs != [] {
      ValueBound(bs[1..]);
      Pow2Add(7, 7 * |bs[1..]|);
      Pow2Literals();
    }
  }

  /** Nine groups or fewer never reach the top of the word. */
  lemma NoWrap(bs: seq<u8>)
    requires |bs| <= 9
    ensures Value(bs) < Pow2(7 * |bs|) <= 0x8000_0000_0000_0000 && Value(bs) % TWO_64 == Value(bs)
  {
    hide Pow2, Value;
    ValueBound(bs);
    Pow2Literals();
    Pow2Monotone(7 * |bs|, 63);
  }

  /** One more group: the OR adds its seven bits, and nothing is lost before the tenth group. */
  lemma DecodeStep(buf: seq<u8>, i: nat, result: u64)
    requires i < |buf| && i < 10 && result == Value(buf[..i]) < Pow2(7 * i)
    ensures BitAnd(buf[i], 0x7F) == buf[i] % 0x80 && (BitAnd(buf[i], 0x80) == 0 <==> buf[i] < 0x80)
    ensures BitOr(result, Shl64(BitAnd(buf[i], 0x7F), 7 * i)) == Value(buf[..i + 1]) % TWO_64
    ensures i < 9 ==> Value(buf[..i + 1]) % TWO_64 == Value(buf[..i + 1]) < Pow2(7 * (i + 1))
  {
    hide Value, Pow2, BitAnd, BitOr, Shl64;
    SevenBits(buf[i]);
    OrIsSum64(result, buf[i] % 0x80, 7 * i);
    ValueSnoc(buf[..i], buf[i]);
    assert buf[..i + 1] == buf[..i] + [buf[i]];
    if i < 9 { NoWrap(buf[..i + 1]); }
  }

  lemma {:induction false} RunIsFirst(buf: seq<u8>, n: nat)
    requires n <= |buf| && forall i | 0 <= i < n :: buf[i] >= 0x80
    ensures n <= ContinuationRun(buf)
    ensures n < |buf| ==> (ContinuationRun(buf) == n <==> buf[n] < 0x80)
  {
    if n > 0 {
      RunIsFirst(buf[1..], n - 1);
    }
  }

  method DecodeVarint(buf: seq<u8>) returns (r: Decoded)
    ensures r == Decode(buf)
  {
    var result: u64 := 0;
    var shift := 0;
    assert result == Value([]) < Pow2(0) && buf[..0] == [];
    hide Value, ContinuationRun, Pow2, BitAnd, BitOr, Shl64;
    for i := 0 to |buf|
      invariant shift == 7 * i && i < 10
      invariant i <= ContinuationRun(buf)
      invariant result == Value(buf[..i]) < Pow2(shift)
    {
      DecodeStep(buf, i, result);
      RunIsFirst(buf, i);
      var val := BitAnd(buf[i], 0x7F);
      result := BitOr(result, Shl64(val, shift));
      if BitAnd(buf[i], 0x80) == 0 {
        return Ok(result, i + 1);
      }
      shift := shift + 7;
      if shift > 63 {
        return TooLong;
      }
    }
    assert buf[..|buf|] == buf;
    return Incomplete;
  }

  lemma SetContinuation(b: u8)
    requires b < 0x80
    ensures BitOr(b, 0x80) == b + 0x80
  {
    hide BitOr, Pow2;
    Pow2Literals();
    OrIsSum(b, 1, 7);
  }

  method EncodeVarint(v: u64) returns (buf: seq<u8>)
    ensures buf == Encode(v)
  {
    hide BitAnd, BitOr, Pow2;
    var value: u64 := v;
    buf := [];
    while true
      invariant buf + Encode(value) == Encode(v)
      decreases value
    {
      SevenBits(value);
      ShrDivides(value, 7);
      Pow2Literals();
      var byte: u8 := BitAnd(value, 0x7F);
      ghost var before := value;
      value := Shr(value, 7);
      assert value == before / 0x80;
      if value != 0 {
        SetContinuation(byte);
        byte := BitOr(byte, 0x80);
      }
      buf := buf + [byte];
      if value == 0 {
        break;
      }
    }
  }

  // ---- What a byte string decodes to ----

  predicate Terminated(buf: seq<u8>, n: nat) {
    1 <= n <= 10 && n <= |buf| && buf[n - 1] < 0x80 && forall i | 0 <= i < n - 1 :: buf[i] >= 0x80
  }

  /** Every byte string is in exactly one of the three classes, told apart by its first ten bytes. */
  lemma DecodeCharacterised(buf: seq<u8>, v: u64, n: nat)
    ensures Decode(buf) == Ok(v, n) <==> Terminated(buf, n) && v == Value(buf[..n]) % TWO_64
    ensures Decode(buf) == TooLong <==> |buf| >= 10 && forall i | 0 <= i < 10 :: buf[i] >= 0x80
    ensures Decode(buf) == Incomplete <==> |buf| <= 9 && forall i | 0 <= i < |buf| :: buf[i] >= 0x80
  {
    if 1 <= n <= |buf| && forall i | 0 <= i < n - 1 :: buf[i] >= 0x80 {
      RunIsFirst(buf, n - 1);
    }
  }

  /** A decision, once made, is not changed by what arrives later. */
  lemma DecodeStable(a: seq<u8>, b: seq<u8>)
    requires !Decode(a).Incomplete?
    ensures Decode(a + b) == Decode(a)
  {
    var n := ContinuationRun(a);
    if n < |a| {
      RunIsFirst(a + b, n);
      if n < 10 { assert (a + b)[..n + 1] == a[..n + 1]; }
    } else {
      RunIsFirst(a + b, 10);
    }
  }

  /** An undecided prefix can be completed, and with any further group at that. */
  lemma IncompleteCanEnd(a: seq<u8>, b: u8)
    requires Decode(a).Incomplete? && b < 0x80
    ensures Decode(a + [b]) == Ok(Value(a + [b]) % TWO_64, |a| + 1)
  {
    hide Value;
    RunIsFirst(a + [b], |a|);
    assert (a + [b])[..|a| + 1] == a + [b];
  }

  // ---- Round trip, length and minimality ----

  lemma {:induction false} EncodeShape(v: nat)
    ensures Value(Encode(v)) == v
    ensures forall i | 0 <= i < |Encode(v)| - 1 :: Encode(v)[i] >= 0x80
    ensures Encode(v)[|Encode(v)| - 1] < 0x80
    ensures |Encode(v)| > 1 ==> Encode(v)[|Encode(v)| - 1] != 0
  {
    if v < 0x80 {
      assert Encode(v)[1..] == [];
    } else {
      EncodeShape(v / 0x80);
      assert Encode(v)[1..] == Encode(v / 0x80);
    }
  }

  lemma DigitLater(v: nat, i: nat)
    requires i > 0
    ensures v / 0x80 / Pow2(7 * (i - 1)) == v / Pow2(7 * i)
  {
    hide Pow2;
    var d := Pow2(7 * (i - 1));
    Pow2Literals();
    Pow2Add(7, 7 * (i - 1));
    var q, r := v / 0x80 / d, v / 0x80 % d;
    assert v == q * (0x80 * d) + (0x80 * r + v % 0x80) by {
      assert v / 0x80 == q * d + r;
      assert q * (0x80 * d) == 0x80 * (q * d);
    }
    RemainderOf(v, q, 0x80 * d, 0x80 * r + v % 0x80);
  }

  /** Byte i of an encoding is the i-th base-128 digit, with the high bit on all but the last. */
  lemma {:induction false} EncodeDigits(v: nat, i: nat)
    requires i < |Encode(v)|
    ensures Encode(v)[i] == v / Pow2(7 * i) % 0x80 + if i + 1 < |Encode(v)| then 0x80 else 0
  {
    if i > 0 {
      EncodeDigits(v / 0x80, i - 1);
      DigitLater(v, i);
    }
  }

  /** The k-th power-of-128 band takes k bytes. */
  lemma {:induction false} EncodeLength(v: nat, k: nat)
    requires k > 0
    ensures |Encode(v)| <= k <==> v < Pow2(7 * k)
  {
    hide Pow2;
    Pow2Literals();
    if v < 0x80 {
      Pow2Monotone(7, 7 * k);
    } else if k > 1 {
      EncodeLength(v / 0x80, k - 1);
      Pow2Add(7, 7 * (k - 1));
    }
  }

  lemma EncodeBand(v: nat, k: nat)
    requires k > 0
    ensures |Encode(v)| == k <==> v < Pow2(7 * k) && (k > 1 ==> v >= Pow2(7 * (k - 1)))
  {
    EncodeLength(v, k);
    if k > 1 { EncodeLength(v, k - 1); }
  }

  lemma EncodeFits(v: u64)
    ensures |Encode(v)| <= 10
    ensures v < 0x1_0000_0000 ==> |Encode(v)| <= 5
  {
    hide Encode;
    Pow2Literals();
    Pow2Monotone(64, 70);
    Pow2Monotone(32, 35);
    EncodeLength(v, 10);
    EncodeLength(v, 5);
  }

  lemma VarintRoundTrip(v: u64, tail: seq<u8>)
    ensures Decode(Encode(v) + tail) == Ok(v, |Encode(v)|)
  {
    hide Encode, Value, Pow2, ContinuationRun;
    var e := Encode(v);
    EncodeShape(v);
    EncodeFits(v);
    assert (e + tail)[..|e|] == e;
    DecodeCharacterised(e + tail, v, |e|);
  }

  /** Nothing that decodes to a value is shorter than its encoding. */
  lemma EncodeMinimal(bs: seq<u8>)
    requires Decode(bs).Ok?
    ensures |Encode(Decode(bs).value)| <= Decode(bs).consumed
  {
    var n := Decode(bs).consumed;
    if n <= 9 {
      NoWrap(bs[..n]);
      EncodeLength(Value(bs[..n]), n);
    } else {
      EncodeFits(Decode(bs).value);
    }
  }

  lemma EncodeMore(b: u8, v: nat)
    requires b >= 0x80 && v > 0
    ensures Encode(b % 0x80 + 0x80 * v) == [b] + Encode(v)
  {
  }

  lemma {:induction false} EncodeUnique(e: seq<u8>)
    requires e != [] && e[|e| - 1] < 0x80 && (|e| == 1 || e[|e| - 1] != 0)
    requires forall i | 0 <= i < |e| - 1 :: e[i] >= 0x80
    ensures Encode(Value(e)) == e && (|e| > 1 ==> Value(e) >= 0x80) && (e[|e| - 1] != 0 ==> Value(e) > 0)
  {
    if |e| == 1 {
      assert Value(e[1..]) == 0;
    } else {
      EncodeUnique(e[1..]);
      EncodeMore(e[0], Value(e[1..]));
      assert e == [e[0]] + e[1..];
    }
  }

  /** Re-encoding what was decoded gives the same bytes back exactly for the canonical varints:
      no redundant last group, and no bits lost off the top of the word. */
  lemma CanonicalVarint(bs: seq<u8>)
    requires Decode(bs).Ok?
    ensures var n := Decode(bs).consumed;
            Encode(Decode(bs).value) == bs[..n] <==> (n == 1 || bs[n - 1] != 0) && Value(bs[..n]) < TWO_64
  {
    hide Encode, Value;
    var n := Decode(bs).consumed;
    var e := bs[..n];
    EncodeShape(Decode(bs).value);
    if (n == 1 || bs[n - 1] != 0) && Value(e) < TWO_64 {
      EncodeUnique(e);
    }
  }
}
