/** The one word of output: the circuit, the Rust encoder and the int256 of the Solidity ABI write the same 32 bytes. */
module OutputWord {
  import opened ByteStrings

  type I64 = x: int | -0x8000_0000_0000_0000 <= x < 0x8000_0000_0000_0000

  /** Reinterpretation of an i64 as a u64. */
  function AsU64(n: I64): nat { if n < 0 then n + 0x1_0000_0000_0000_0000 else n }

  /** n bytes of x, most significant first. */
  function BigEndian(x: nat, n: nat): (b: Bytes)
    ensures |b| == n
  {
    if n == 0 then [] else BigEndian(x / 256, n - 1) + [x % 256]
  }

  function FromBigEndian(b: Bytes): nat {
    if b == [] then 0 else 256 * FromBigEndian(b[..|b| - 1]) + b[|b| - 1]
  }

  lemma {:induction false} BigEndianRoundTrip(x: nat, n: nat)
    requires x < Pow256(n)
    ensures FromBigEndian(BigEndian(x, n)) == x
  {
    if n > 0 {
      BigEndianRoundTrip(x / 256, n - 1);
      var b := BigEndian(x, n);
      assert b[..n - 1] == BigEndian(x / 256, n - 1);
    }
  }

  lemma {:induction false} BigEndianBack(b: Bytes)
    ensures BigEndian(FromBigEndian(b), |b|) == b
  {
    if b != [] {
      var front, last := b[..|b| - 1], b[|b| - 1];
      BigEndianBack(front);
      assert FromBigEndian(b) / 256 == FromBigEndian(front) && FromBigEndian(b) % 256 == last;
    }
  }

  /** The first byte says in which 256th of the range the value lies. */
  lemma {:induction false} HighByte(b: Bytes)
    requires b != []
    ensures b[0] * Pow256(|b| - 1) as int <= FromBigEndian(b) < (b[0] as int + 1) * Pow256(|b| - 1)
    decreases |b|
  {
    if |b| == 1 {
      assert b[..0] == [] && Pow256(0) == 1;
    } else {
      var front := b[..|b| - 1];
      HighByte(front);
      HighStep(b[0], Pow256(|b| - 2), FromBigEndian(front), b[|b| - 1]);
    }
  }

  lemma HighStep(high: int, p: int, x: int, last: Byte)
    requires high * p <= x < (high + 1) * p
    ensures high * (256 * p) <= 256 * x + last < (high + 1) * (256 * p)
  {
    assert high * (256 * p) == 256 * (high * p) && (high + 1) * (256 * p) == 256 * ((high + 1) * p);
  }

  /** A word of n equal bytes. */
  function Fill(b: Byte, n: nat): (r: Bytes)
    ensures |r| == n && forall i | 0 <= i < n :: r[i] == b
  {
    seq(n, i => b)
  }

  // ----- Three ways to write the word -----

  /** The int256 of the ABI: the big-endian two's complement of the value, padded to 32 bytes. */
  ghost function AbiInt256(v: int): Bytes
    requires 0 <= Pow256(32) + v
  {
    BigEndian(if v < 0 then Pow256(32) + v else v, 32)
  }

  /** The word as the Rust encoder assembles it: a sign fill, then the eight bytes of the value. */
  function Word(n: I64): (r: Bytes)
    ensures |r| == 32
  {
    Fill(if n < 0 then 255 else 0, 24) + BigEndian(AsU64(n), 8)
  }

  method AbiEncodeInt256(n: I64) returns (out: Bytes)
    ensures out == Word(n)
  {
    var word := new Byte[32](_ => if n < 0 then 255 else 0);
    var low := BigEndian(AsU64(n), 8);
    for i := 0 to 8
      invariant word[..24] == Fill(if n < 0 then 255 else 0, 24)
      invariant word[24..24 + i] == low[..i]
    {
      word[24 + i] := low[i];
    }
    assert word[..] == word[..24] + word[24..32];
    out := word[..];
  }

  /** Dividing by 256 i times. */
  function Shifted(x: nat, i: nat): nat { if i == 0 then x else Shifted(x, i - 1) / 256 }

  lemma {:induction false} ShiftedBytes(x: nat, n: nat, i: nat)
    requires i < n
    ensures BigEndian(x, n)[n - 1 - i] == Shifted(x, i) % 256
  {
    if i > 0 {
      ShiftedFront(x, i);
      ShiftedBytes(x / 256, n - 1, i - 1);
    }
  }

  lemma {:induction false} ShiftedFront(x: nat, i: nat)
    requires i > 0
    ensures Shifted(x, i) == Shifted(x / 256, i - 1)
  {
    if i > 1 { ShiftedFront(x, i - 1); }
  }

  /** The payload of the circuit, byte by byte from the least significant end. */
  method CircuitPayload(n: I64) returns (payload: Bytes)
    ensures payload == Word(n)
  {
    var fill: Byte := if n < 0 then 255 else 0;
    var p := new Byte[32](_ => fill);
    var v := AsU64(n);
    ghost var low := BigEndian(v, 8);
    hide BigEndian, Fill;
    for i := 0 to 8
      invariant v == Shifted(AsU64(n), i)
      invariant forall k | 0 <= k < 32 - i :: p[k] == fill
      invariant forall k | 32 - i <= k < 32 :: p[k] == low[k - 24]
    {
      ShiftedBytes(AsU64(n), 8, i);
      p[31 - i] := v % 256;
      v := v / 256;
    }
    assert p[..] == Fill(fill, 24) + low;
    payload := p[..];
  }

  lemma {:induction false} BigEndianHigh(x: nat, n: nat, k: nat)
    requires x < Pow256(n)
    ensures BigEndian(x, k + n) == Fill(0, k) + BigEndian(x, n)
  {
    if n == 0 {
      ZeroBytes(k);
    } else {
      BigEndianHigh(x / 256, n - 1, k);
      assert BigEndian(x, k + n) == BigEndian(x / 256, k + n - 1) + [x % 256];
    }
  }

  lemma {:induction false} ZeroBytes(k: nat)
    ensures BigEndian(0, k) == Fill(0, k)
  {
    if k > 0 { ZeroBytes(k - 1); }
  }

  /** A negative value in two's complement starts with bytes 255. */
  lemma {:induction false} BigEndianNegative(y: int, n: nat, k: nat)
    requires 0 < y <= Pow256(n)
    ensures Pow256(k + n) >= y && BigEndian(Pow256(k + n) - y, k + n) == Fill(255, k) + BigEndian(Pow256(n) - y, n)
  {
    hide Fill, BigEndian;
    Pow256Monotone(n, k + n);
    if n == 0 {
      AllOnes(k);
      NoBytes(Fill(255, k));
    } else {
      var q := (y + 255) / 256;
      var p, p' := Pow256(n - 1), Pow256(k + n - 1);
      assert Pow256(n) == 256 * p && Pow256(k + n) == 256 * p';
      hide Pow256;
      NegativeBytes(p', y, q, k + n);
      NegativeBytes(p, y, q, n);
      BigEndianNegative(q, n - 1, k);
    }
  }

  lemma NoBytes(b: Bytes)
    ensures BigEndian(0, 0) == [] && b + BigEndian(0, 0) == b
  {}

  lemma NegativeBytes(p: int, y: int, q: int, n: nat)
    requires q == (y + 255) / 256 && 0 < y <= 256 * p && n > 0
    ensures q <= p && BigEndian(256 * p - y, n) == BigEndian(p - q, n - 1) + [256 * q - y]
  {
    Borrow(p, y, q);
  }

  /** Subtracting a small number from a multiple of 256. */
  lemma Borrow(p: int, y: int, q: int)
    requires q == (y + 255) / 256
    ensures (256 * p - y) / 256 == p - q && (256 * p - y) % 256 == 256 * q - y
  {}

  lemma {:induction false} AllOnes(k: nat)
    ensures BigEndian(Pow256(k) - 1, k) == Fill(255, k)
  {
    if k > 0 {
      AllOnes(k - 1);
      assert (Pow256(k) - 1) / 256 == Pow256(k - 1) - 1 && (Pow256(k) - 1) % 256 == 255;
    }
  }

  lemma {:induction false} Pow256Monotone(a: nat, b: nat)
    requires a <= b
    ensures Pow256(a) <= Pow256(b)
  {
    if a < b { Pow256Monotone(a, b - 1); }
  }

  /** For every i64 the word is the ABI encoding of that integer as an int256. */
  lemma WordIsAbiInt256(n: I64)
    ensures 0 <= Pow256(32) + n && Word(n) == AbiInt256(n)
  {
    hide BigEndian, Pow256, Fill;
    WordLimits();
    Pow256Monotone(8, 32);
    if n < 0 { BigEndianNegative(-(n as int), 8, 24); } else { BigEndianHigh(n, 8, 24); }
  }

  /** abi.decode of an int256: 32 bytes exactly are read, as a two's complement. */
  function DecodeInt256(b: Bytes): int
    requires |b| == 32
  {
    var x := FromBigEndian(b);
    if b[0] >= 128 then x - Pow256(32) else x
  }

  /** Decoding the word returns the value. */
  lemma WordDecodes(n: I64)
    ensures DecodeInt256(Word(n)) == n
  {
    WordIsAbiInt256(n);
    WordLimits();
    Pow256Monotone(8, 32);
    BigEndianRoundTrip(if n < 0 then Pow256(32) + n else n, 32);
  }

  /** Every word of 32 bytes decodes to the one int256 it encodes, over the whole range of the type. */
  lemma EveryWordDecodes(b: Bytes)
    requires |b| == 32
    ensures var d := DecodeInt256(b);
            -128 * Pow256(31) as int <= d < 128 * Pow256(31) as int && 0 <= Pow256(32) + d && AbiInt256(d) == b
  {
    hide FromBigEndian, BigEndian, Pow256;
    HighByte(b);
    BigEndianBack(b);
    NextPower(31);
    HalfRange(b[0], Pow256(31), FromBigEndian(b));
  }

  lemma NextPower(n: nat)
    ensures Pow256(n + 1) == 256 * Pow256(n)
  {}

  lemma HalfRange(high: int, p: int, x: int)
    requires p >= 1 && 0 <= high < 256 && high * p <= x < (high + 1) * p
    ensures if high >= 128 then 128 * p <= x < 256 * p else 0 <= x < 128 * p
  {
    if high >= 128 {
      ScaleLe(128, high, p);
      ScaleLe(high + 1, 256, p);
    } else {
      ScaleLe(0, high, p);
      ScaleLe(high + 1, 128, p);
    }
  }

  lemma ScaleLe(a: int, b: int, p: int)
    requires a <= b && p >= 0
    ensures a * p <= b * p
  {
    assert (b - a) * p >= 0;
  }
}
