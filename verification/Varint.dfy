/**
  The 7-bit variable-length integers of Util/ProtocoIStream.cpp.

  The header declares decoders (Util/ProtocoIStream.h:36-38) that the source never defines; `Decode` is the decoder that
  the encoders call for, with no limit on the number of bytes.
 */
module Varints {
  import opened Bytes

  /** `value & 0x7f`, `value >>= 7` and `c |= 0x80`, in arithmetic. */
  function Encode(value: nat): (b: seq<byte>)
    ensures |b| >= 1
  {
    if value < 0x80 then [value] else [value % 0x80 + 0x80] + Encode(value / 0x80)
  }

  /** The value at the front of `b` and the number of bytes it takes; None when `b` ends before the value does. */
  function Decode(b: seq<byte>): (r: Option<(nat, nat)>)
    ensures r.Some? ==> 1 <= r.value.1 <= |b|
    decreases |b|
  {
    if b == [] then None
    else if b[0] < 0x80 then Some((b[0], 1))
    else
      match Decode(b[1..])
      case None => None
      case Some((v, n)) => Some((b[0] - 0x80 + 0x80 * v, n + 1))
  }

  function Pow128(n: nat): (p: nat)
    ensures p >= 1
  {
    if n == 0 then 1 else 0x80 * Pow128(n - 1)
  }

  // ---------- the encoders ----------

  /** Both overloads of `write7BitEncode`; `width` is 32 or 64. */
  method Write7BitEncode(value: nat, width: nat, buf: seq<byte>) returns (buf': seq<byte>)
    requires width == 32 || width == 64
    requires value < if width == 32 then 0x1_0000_0000 else 0x1_0000_0000_0000_0000
    ensures buf' == buf + Encode(value)
    ensures |buf'| <= |buf| + if width == 32 then 5 else 10
  {
    var rest := value;
    buf' := buf;
    while true
      invariant buf' + Encode(rest) == buf + Encode(value)
      decreases rest
    {
      var c: byte := rest % 0x80;
      ghost var before := rest;
      rest := rest / 0x80;
      if rest != 0 {
        c := c + 0x80;
      }
      assert Encode(before) == [c] + if rest == 0 then [] else Encode(rest);
      buf' := buf' + [c];
      if rest == 0 {
        break;
      }
    }
    LengthOfEncode(value, if width == 32 then 5 else 10);
  }

  // ---------- round trip ----------

  /** Decoding gives the value back, whatever follows. */
  lemma {:induction false} RoundTrip(value: nat, rest: seq<byte>)
    ensures Decode(Encode(value) + rest) == Some((value, |Encode(value)|))
    decreases value
  {
    var b := Encode(value) + rest;
    if value >= 0x80 {
      RoundTrip(value / 0x80, rest);
      assert b[1..] == Encode(value / 0x80) + rest;
      assert value % 0x80 + 0x80 * (value / 0x80) == value;
    }
  }

  /** Byte `i` of an encoding has the bits from `7 * i` on, and its highest bit tells whether there is another byte. */
  lemma {:induction false} EncodedByte(value: nat, i: nat)
    requires i < |Encode(value)|
    ensures Encode(value)[i] == value / Pow128(i) % 128 + if i < |Encode(value)| - 1 then 128 else 0
    decreases i
  {
    if i == 0 {
      assert value / Pow128(0) == value;
    } else {
      EncodedByte(value / 0x80, i - 1);
      DivTwice(value, Pow128(i - 1));
      assert Encode(value)[i] == Encode(value / 0x80)[i - 1];
    }
  }

  lemma DivTwice(value: nat, p: nat)
    requires p >= 1
    ensures value / 0x80 / p == value / (0x80 * p)
  {
    var q, r := value / 0x80, value % 0x80;
    var k, l := q / p, q % p;
    assert value == 0x80 * p * k + (0x80 * l + r);
    assert 0x80 * l + r < 0x80 * p;
    QuotientIs(value, 0x80 * p, k, 0x80 * l + r);
  }

  lemma QuotientIs(n: nat, d: nat, k: nat, rest: nat)
    requires d >= 1 && n == d * k + rest && rest < d
    ensures n / d == k
  {
    ProductGrows(d, n / d, k);
    ProductGrows(d, k, n / d);
  }

  lemma ProductGrows(d: nat, a: nat, b: nat)
    ensures a < b ==> d * (a + 1) <= d * b
  {}

  function EncodeAll(values: seq<nat>): seq<byte> {
    if values == [] then [] else Encode(values[0]) + EncodeAll(values[1..])
  }

  /** A list of values has only one reading: its encoding determines it. */
  lemma {:induction false} EncodeAllIsInjective(values: seq<nat>, others: seq<nat>)
    requires EncodeAll(values) == EncodeAll(others)
    ensures values == others
    decreases |values|
  {
    if values != [] && others != [] {
      RoundTrip(values[0], EncodeAll(values[1..]));
      RoundTrip(others[0], EncodeAll(others[1..]));
      var n := |Encode(values[0])|;
      assert EncodeAll(values)[n..] == EncodeAll(values[1..]);
      assert EncodeAll(others)[n..] == EncodeAll(others[1..]);
      EncodeAllIsInjective(values[1..], others[1..]);
    }
  }

  // ---------- length ----------

  /** An encoding takes at most `n` bytes if and only if the value has at most `7 * n` bits. */
  lemma {:induction false} LengthOfEncodeIff(value: nat, n: nat)
    requires n >= 1
    ensures |Encode(value)| <= n <==> value < Pow128(n)
    decreases value
  {
    assert Pow128(1) == 0x80 * Pow128(0) == 0x80;
    if value >= 0x80 {
      if n > 1 {
        LengthOfEncodeIff(value / 0x80, n - 1);
        assert value < 0x80 * Pow128(n - 1) <==> value / 0x80 < Pow128(n - 1);
      }
    } else {
      PowAtLeast128(n);
    }
  }

  lemma {:induction false} PowAtLeast128(n: nat)
    requires n >= 1
    ensures Pow128(n) >= 0x80
  {
    if n > 1 { PowAtLeast128(n - 1); }
  }

  lemma LengthOfEncode(value: nat, n: nat)
    requires (n == 5 && value < 0x1_0000_0000) || (n == 10 && value < 0x1_0000_0000_0000_0000)
    ensures |Encode(value)| <= n
  {
    LengthOfEncodeIff(value, n);
    assert Pow128(5) == 0x8_0000_0000 by {
      assert Pow128(2) == 0x80 * Pow128(1) && Pow128(1) == 0x80 * Pow128(0);
      assert Pow128(5) == 0x80 * Pow128(4) && Pow128(4) == 0x80 * Pow128(3) && Pow128(3) == 0x80 * Pow128(2);
    }
    assert Pow128(10) == 0x40_0000_0000_0000_0000 by {
      assert Pow128(7) == 0x80 * Pow128(6) && Pow128(6) == 0x80 * Pow128(5);
      assert Pow128(10) == 0x80 * Pow128(9) && Pow128(9) == 0x80 * Pow128(8) && Pow128(8) == 0x80 * Pow128(7);
    }
  }

  /** No byte string that decodes to `value` is shorter than its encoding. */
  lemma {:induction false} EncodeIsMinimal(b: seq<byte>)
    requires Decode(b).Some?
    ensures |Encode(Decode(b).value.0)| <= Decode(b).value.1
    decreases |b|
  {
    if b[0] >= 0x80 {
      EncodeIsMinimal(b[1..]);
      var v := Decode(b[1..]).value.0;
      var value := Decode(b).value.0;
      assert value / 0x80 == v;
    }
  }
}
