/** 32-bit little-endian words in byte sequences. */
module LittleEndian {
  import opened Common

  const WORD_LIMIT: int := 0x1_0000_0000

  type u32 = x: int | 0 <= x < 0x1_0000_0000

  /** The k lowest base-256 digits of n, lowest first. */
  function Digits(n: nat, k: nat): (b: Bytes)
    ensures |b| == k
  {
    if k == 0 then [] else [(n % 256) as byte] + Digits(n / 256, k - 1)
  }

  function Value(b: Bytes): (n: nat) {
    if b == [] then 0 else b[0] as int + 256 * Value(b[1..])
  }

  function Power256(k: nat): (p: nat)
    ensures p > 0
  {
    if k == 0 then 1 else 256 * Power256(k - 1)
  }

  lemma {:induction false} ValueBound(b: Bytes)
    ensures Value(b) < Power256(|b|)
  {
    if b != [] {
      ValueBound(b[1..]);
    }
  }

  lemma {:induction false} ValueDigits(n: nat, k: nat)
    requires n < Power256(k)
    ensures Value(Digits(n, k)) == n
  {
    if k > 0 {
      ValueDigits(n / 256, k - 1);
      assert Digits(n, k)[1..] == Digits(n / 256, k - 1);
    }
  }

  lemma SplitByte(low: int, high: nat)
    requires 0 <= low < 256
    ensures (low + 256 * high) % 256 == low && (low + 256 * high) / 256 == high
  {
  }

  lemma {:induction false} DigitsValue(b: Bytes)
    ensures Digits(Value(b), |b|) == b
  {
    if b != [] {
      DigitsValue(b[1..]);
      SplitByte(b[0] as int, Value(b[1..]));
      assert b == [b[0]] + b[1..];
    }
  }

  lemma FourDigits()
    ensures Power256(4) == WORD_LIMIT
  {
    assert Power256(1) == 256;
    assert Power256(2) == 0x1_0000;
  }

  function ToLe(n: u32): (b: Bytes)
    ensures |b| == 4
  {
    Digits(n, 4)
  }

  function FromLe(b: Bytes): (n: u32)
    requires |b| == 4
  {
    ValueBound(b);
    FourDigits();
    Value(b)
  }

  lemma FromToLe(n: u32)
    ensures FromLe(ToLe(n)) == n
  {
    FourDigits();
    ValueDigits(n, 4);
  }

  lemma ToFromLe(b: Bytes)
    requires |b| == 4
    ensures ToLe(FromLe(b)) == b
  {
    DigitsValue(b);
  }

  /** n modulo 2^32. */
  function Wrap(n: int): (w: u32) { if 0 <= n < WORD_LIMIT then n else n % WORD_LIMIT }

  function Zeros(n: nat): (b: Bytes)
    ensures |b| == n
  {
    seq(n, _ => 0 as byte)
  }
}
