/** The serialisers: unsigned integers of any whole number of bytes, most significant byte first
    (Appendix B of RFC 791). The program has widths of 2, 4 and 8 bytes. */
module ByteOrder {
  import opened Machine

  function Power256(n: nat): (p: nat)
    ensures p >= 1
  {
    if n == 0 then 1 else 256 * Power256(n - 1)
  }

  /** The n low base-256 digits of a value, most significant first. */
  function Digits(value: nat, n: nat): (d: seq<u8>)
    ensures |d| == n
  {
    if n == 0 then [] else Digits(value / 256, n - 1) + [value % 256]
  }

  function FromDigits(d: seq<u8>): nat {
    if d == [] then 0 else FromDigits(d[..|d| - 1]) * 256 + d[|d| - 1]
  }

  /** The first digit is the most significant. */
  lemma {:induction false} MostSignificantFirst(first: u8, rest: seq<u8>)
    ensures FromDigits([first] + rest) == first * Power256(|rest|) + FromDigits(rest)
  {
    var d := [first] + rest;
    if rest == [] {
      assert d[..0] == [];
    } else {
      var last := rest[|rest| - 1];
      assert d[..|d| - 1] == [first] + rest[..|rest| - 1];
      MostSignificantFirst(first, rest[..|rest| - 1]);
      assert (first * Power256(|rest| - 1)) * 256 == first * (256 * Power256(|rest| - 1));
    }
  }

  /** A shift right by 8 * k bits, truncated to a byte. */
  function ShiftedByte(value: nat, k: nat): u8 {
    value / Power256(k) % 256
  }

  lemma DivDiv(v: nat, p: nat)
    requires p >= 1
    ensures v / 256 / p == v / (256 * p)
  {
    var q, r := v / 256, v % 256;
    var a, b := q / p, q % p;
    assert q == p * a + b;
    assert v == 256 * q + r;
    assert 256 * (p * a) == (256 * p) * a;
    assert v == (256 * p) * a + (256 * b + r);
    assert 0 <= 256 * b + r < 256 * p;
    QuotientIs(v, 256 * p, a, 256 * b + r);
  }

  lemma QuotientIs(v: nat, d: nat, a: nat, r: nat)
    requires d >= 1 && v == d * a + r && r < d
    ensures v / d == a
  {
    if v / d < a {
      MulLess(d, v / d, a);
    } else if v / d > a {
      MulLess(d, a, v / d);
    }
  }

  lemma MulLess(d: nat, x: nat, y: nat)
    requires x < y
    ensures d * x + d <= d * y
  {
    var k: nat := y - x - 1;
    assert d * y == d * x + d + d * k;
    ProductNonNegative(d, k);
  }

  lemma ProductNonNegative(a: nat, b: nat)
    ensures a * b >= 0
  {
  }

  /** Digit i of n is the value shifted right by the bytes after it. */
  lemma {:induction false} DigitIsShiftedByte(value: nat, n: nat, i: nat)
    requires i < n
    ensures Digits(value, n)[i] == ShiftedByte(value, n - 1 - i)
  {
    if i < n - 1 {
      DigitIsShiftedByte(value / 256, n - 1, i);
      DivDiv(value, Power256(n - 2 - i));
    }
  }

  /** serialize_u16, _u32 and _u64: n bytes from the given offset; the result is the offset after them. */
  method Serialize(buffer: array<u8>, offset: nat, n: nat, value: nat) returns (next: nat)
    requires offset + n <= buffer.Length && value < Power256(n)
    modifies buffer
    ensures next == offset + n
    ensures buffer[offset..next] == Digits(value, n)
    ensures buffer[..offset] == old(buffer[..offset]) && buffer[next..] == old(buffer[next..])
  {
    var bit := 0;
    while bit < n
      invariant 0 <= bit <= n
      invariant forall i :: 0 <= i < bit ==> buffer[offset + i] == Digits(value, n)[i]
      invariant buffer[..offset] == old(buffer[..offset]) && buffer[offset + n..] == old(buffer[offset + n..])
    {
      DigitIsShiftedByte(value, n, bit);
      buffer[offset + bit] := ShiftedByte(value, n - 1 - bit);
      bit := bit + 1;
    }
    next := offset + n;
  }

  lemma {:induction false} FromDigitsBound(d: seq<u8>)
    ensures FromDigits(d) < Power256(|d|)
  {
    if d != [] {
      FromDigitsBound(d[..|d| - 1]);
    }
  }

  lemma {:induction false} Power256Grows(m: nat, n: nat)
    requires m <= n
    ensures Power256(m) <= Power256(n)
    decreases n
  {
    if m < n {
      Power256Grows(m, n - 1);
    }
  }

  /** value << 8 plus a byte, in an accumulator of n bytes. */
  function Accumulate(value: nat, b: u8, n: nat): nat {
    (value * 256 + b) % Power256(n)
  }

  lemma ModSmall(x: nat, p: nat)
    requires x < p
    ensures x % p == x
  {
  }

  /** deserialize_u16, _u32 and _u64: the accumulator is n bytes wide, and each turn shifts and adds in
      that width. */
  method Deserialize(buffer: array<u8>, offset: nat, n: nat) returns (value: nat)
    requires offset + n <= buffer.Length
    ensures value == FromDigits(buffer[offset..offset + n])
    ensures value < Power256(n)
  {
    value := 0;
    var i := 0;
    while i < n
      invariant 0 <= i <= n
      invariant value == FromDigits(buffer[offset..offset + i])
    {
      assert buffer[offset..offset + i + 1][..i] == buffer[offset..offset + i];
      FromDigitsBound(buffer[offset..offset + i + 1]);
      Power256Grows(i + 1, n);
      ModSmall(value * 256 + buffer[offset + i], Power256(n));
      value := Accumulate(value, buffer[offset + i], n);
      i := i + 1;
    }
    FromDigitsBound(buffer[offset..offset + n]);
  }

  /** Deserialise after serialise is the identity on values that fit; in general it keeps the value
      modulo 256^n. */
  lemma {:induction false} DigitsThenValue(value: nat, n: nat)
    ensures FromDigits(Digits(value, n)) == value % Power256(n)
    ensures value < Power256(n) ==> FromDigits(Digits(value, n)) == value
  {
    if n > 0 {
      var d := Digits(value, n);
      assert d[..n - 1] == Digits(value / 256, n - 1);
      DigitsThenValue(value / 256, n - 1);
      ModStep(value, Power256(n - 1));
    }
  }

  lemma ModStep(value: nat, p: nat)
    requires p >= 1
    ensures value / 256 % p * 256 + value % 256 == value % (256 * p)
  {
    var q, r := value / 256, value % 256;
    var a, b := q / p, q % p;
    assert q == p * a + b;
    assert value == 256 * (p * a) + 256 * b + r;
    assert 256 * (p * a) == (256 * p) * a;
    QuotientIs(value, 256 * p, a, 256 * b + r);
  }

  /** Serialise after deserialise is the identity on byte sequences. */
  lemma {:induction false} ValueThenDigits(d: seq<u8>)
    ensures Digits(FromDigits(d), |d|) == d
  {
    if d != [] {
      ValueThenDigits(d[..|d| - 1]);
    }
  }
}
