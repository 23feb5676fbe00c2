/** The radix-36 block codec of the Cuid class: `base_convert($n, 10, 36)`,
    PHP's `str_pad`/`substr` as the class uses them, and `pad`, which stages a
    value in a 36-character zero-filled buffer and keeps its last `size`
    characters. `Decode` is the inverse used to state what a block means. */
module Radix36 {

  /** `Cuid::BASE36`: the radix, and also the width of the staging buffer in `pad`. */
  const BASE36: nat := 36

  /** 36^k, the number of distinct blocks of width k. */
  function Pow36(k: nat): (p: nat)
    ensures p >= 1
  {
    if k == 0 then 1 else 36 * Pow36(k - 1)
  }

  /** The output alphabet of `base_convert(…, 10, 36)`: `[0-9a-z]`. */
  predicate IsDigit(c: char) {
    ('0' <= c <= '9') || ('a' <= c <= 'z')
  }

  predicate AllDigits(s: string) {
    forall i :: 0 <= i < |s| ==> IsDigit(s[i])
  }

  /** The value of one radix-36 digit. */
  function Value(c: char): (v: nat)
    requires IsDigit(c)
    ensures v < 36
  {
    if c <= '9' then c as int - '0' as int else c as int - 'a' as int + 10
  }

  /** The lower-case digit for a value below 36. */
  function Digit(d: nat): (c: char)
    requires d < 36
    ensures IsDigit(c) && Value(c) == d
  {
    if d < 10 then ('0' as int + d) as char else ('a' as int + d - 10) as char
  }

  lemma DigitOfValue(c: char)
    requires IsDigit(c)
    ensures Digit(Value(c)) == c
  {
  }

  /** `base_convert($n, 10, 36)` for a non-negative integer: lower-case digits,
      most significant first, with no leading zero except for 0 itself. */
  function Encode(n: nat): (s: string)
    ensures |s| >= 1 && AllDigits(s)
    decreases n
  {
    if n < 36 then [Digit(n)] else Encode(n / 36) + [Digit(n % 36)]
  }

  /** `base_convert` writes 0 as "0" and never puts a zero in front of any
      other value. */
  lemma {:induction false} EncodeNoLeadingZero(n: nat)
    ensures n == 0 <==> Encode(n) == "0"
    ensures n > 0 ==> Encode(n)[0] != '0'
    decreases n
  {
    if n >= 36 {
      EncodeNoLeadingZero(n / 36);
      assert Encode(n)[0] == Encode(n / 36)[0];
    } else if n > 0 {
      assert Value(Encode(n)[0]) == n;
    }
  }

  /** The value of a radix-36 digit string, most significant digit first. */
  function Decode(s: string): nat
    requires AllDigits(s)
  {
    if s == [] then 0 else Decode(s[..|s| - 1]) * 36 + Value(s[|s| - 1])
  }

  /** A string of k digits is worth less than 36^k. */
  lemma {:induction false} DecodeBound(s: string)
    requires AllDigits(s)
    ensures Decode(s) < Pow36(|s|)
    decreases |s|
  {
    if s != [] {
      var front := s[..|s| - 1];
      DecodeBound(front);
      MulMonotone(Decode(front), Pow36(|front|) - 1, 36);
    }
  }

  lemma MulMonotone(a: nat, b: nat, k: nat)
    requires a <= b
    ensures a * k <= b * k
  {
  }

  /** Decoding inverts `base_convert`. */
  lemma {:induction false} DecodeEncode(n: nat)
    ensures Decode(Encode(n)) == n
    decreases n
  {
    var s := Encode(n);
    if n >= 36 {
      assert s[..|s| - 1] == Encode(n / 36);
      DecodeEncode(n / 36);
    }
  }

  /** `base_convert` is injective. */
  lemma EncodeInjective(m: nat, n: nat)
    requires Encode(m) == Encode(n)
    ensures m == n
  {
    DecodeEncode(m);
    DecodeEncode(n);
  }

  /** Encode(n) has more than k digits exactly when n >= 36^k (for k >= 1). */
  lemma {:induction false} EncodeLength(n: nat, k: nat)
    requires k >= 1
    ensures |Encode(n)| > k <==> n >= Pow36(k)
    decreases n
  {
    if n >= 36 {
      if k > 1 {
        EncodeLength(n / 36, k - 1);
        DivBound(n, Pow36(k - 1));
      }
    } else {
      assert Pow36(k) >= 36 by { PowAtLeast36(k); }
    }
  }

  lemma PowAtLeast36(k: nat)
    requires k >= 1
    ensures Pow36(k) >= 36
  {
    if k > 1 { PowAtLeast36(k - 1); }
  }

  /** n / 36 >= p exactly when n >= 36 * p. */
  lemma DivBound(n: nat, p: nat)
    ensures n / 36 >= p <==> n >= 36 * p
  {
  }

  /** A block of k zeros. */
  function Zeros(k: nat): (z: string)
    ensures |z| == k
    ensures forall i :: 0 <= i < k ==> z[i] == '0'
  {
    if k == 0 then "" else Zeros(k - 1) + "0"
  }

  /** `str_pad($s, $width, '0', STR_PAD_LEFT)`. */
  function StrPadLeft(s: string, width: nat): string {
    if |s| >= width then s else Zeros(width - |s|) + s
  }

  /** `substr($s, $start)` without a length, as PHP 8 defines it: a negative
      start counts from the end and is clamped at the beginning; a start past
      the end gives the empty string. */
  function Substr(s: string, start: int): string {
    if start > |s| then ""
    else if start >= 0 then s[start..]
    else if -start <= |s| then s[|s| + start..]
    else s
  }

  /** `substr($s, 0, $length)` for a non-negative length. */
  function Prefix(s: string, length: nat): string {
    if length <= |s| then s[..length] else s
  }

  /** `Cuid::pad`: left-pad to the 36-character staging width with '0', then
      keep the last `size` characters. */
  function Pad(s: string, size: int): string {
    var staged := StrPadLeft(s, BASE36);
    Substr(staged, |staged| - size)
  }

  /** For a size up to 36, `pad` returns exactly `size` characters: the
      tail of `s` when `s` is long enough, otherwise `s` behind enough zeros. */
  lemma PadShape(s: string, size: nat)
    requires size <= BASE36
    ensures |Pad(s, size)| == size
    ensures size <= |s| ==> Pad(s, size) == s[|s| - size..]
    ensures size > |s| ==> Pad(s, size) == Zeros(size - |s|) + s
  {
  }

  /** Decode(a + b) shifts a by the width of b. */
  lemma {:induction false} DecodeAppend(a: string, b: string)
    requires AllDigits(a) && AllDigits(b)
    ensures AllDigits(a + b)
    ensures Decode(a + b) == Decode(a) * Pow36(|b|) + Decode(b)
    decreases |b|
  {
    var ab := a + b;
    if b == [] {
      assert ab == a;
    } else {
      var b' := b[..|b| - 1];
      assert ab[..|ab| - 1] == a + b';
      assert ab[|ab| - 1] == b[|b| - 1];
      DecodeAppend(a, b');
      calc {
        Decode(ab);
        Decode(a + b') * 36 + Value(b[|b| - 1]);
        (Decode(a) * Pow36(|b'|) + Decode(b')) * 36 + Value(b[|b| - 1]);
        { MulAssoc(Decode(a), Pow36(|b'|), 36); }
        Decode(a) * Pow36(|b|) + (Decode(b') * 36 + Value(b[|b| - 1]));
      }
    }
  }

  lemma MulAssoc(a: nat, b: nat, c: nat)
    ensures (a * b) * c == a * (c * b)
  {
  }

  /** Leading zeros do not change the value. */
  lemma {:induction false} DecodeZeros(k: nat)
    ensures AllDigits(Zeros(k)) && Decode(Zeros(k)) == 0
  {
    if k > 0 {
      DecodeZeros(k - 1);
      assert Zeros(k)[..k - 1] == Zeros(k - 1);
    }
  }

  /** (q * p + r) % p == r and (q * p + r) / p == q for r < p. */
  lemma DivModUnique(q: nat, p: nat, r: nat)
    requires r < p
    ensures (q * p + r) % p == r && (q * p + r) / p == q
  {
    var x := q * p + r;
    var d, m := x / p, x % p;
    assert x == d * p + m && m < p;
    if d > q {
      MulMonotone(q + 1, d, p);
      assert false;
    } else if d < q {
      MulMonotone(d + 1, q, p);
      assert false;
    }
  }

  /** The last w digits of a digit string are its value modulo 36^w. */
  lemma DecodeSuffix(s: string, w: nat)
    requires AllDigits(s) && w <= |s|
    ensures AllDigits(s[|s| - w..])
    ensures Decode(s[|s| - w..]) == Decode(s) % Pow36(w)
  {
    var k := |s| - w;
    var a, b := s[..k], s[k..];
    assert a + b == s;
    assert |b| == w;
    DecodeSplitMod(a, b);
    assert Decode(b) == Decode(a + b) % Pow36(w);
    assert Decode(a + b) == Decode(s);
  }

  lemma DecodeSplitMod(a: string, b: string)
    requires AllDigits(a) && AllDigits(b)
    ensures AllDigits(a + b)
    ensures Decode(b) == Decode(a + b) % Pow36(|b|)
  {
    DecodeAppend(a, b);
    DecodeBound(b);
    DivModUnique(Decode(a), Pow36(|b|), Decode(b));
  }

  /** Two digit strings of one width with one value are the same string. */
  lemma {:induction false} DecodeInjective(a: string, b: string)
    requires AllDigits(a) && AllDigits(b) && |a| == |b|
    requires Decode(a) == Decode(b)
    ensures a == b
    decreases |a|
  {
    if a != [] {
      var n := |a|;
      var a', b' := a[..n - 1], b[..n - 1];
      SplitLastDigit(Decode(a'), Value(a[n - 1]), Decode(b'), Value(b[n - 1]));
      DecodeInjective(a', b');
      DigitOfValue(a[n - 1]);
      DigitOfValue(b[n - 1]);
      assert a == a' + [a[n - 1]];
      assert b == b' + [b[n - 1]];
    }
  }

  /** Equal values agree in their last digit and in the rest. */
  lemma SplitLastDigit(fa: nat, va: nat, fb: nat, vb: nat)
    requires va < 36 && vb < 36 && fa * 36 + va == fb * 36 + vb
    ensures fa == fb && va == vb
  {
    DivModUnique(fa, 36, va);
    DivModUnique(fb, 36, vb);
  }

  /** A block of width w (at most 36) holding n: w radix-36 digits whose value
      is n modulo 36^w, so oversized values keep their low-order digits. */
  lemma PadBlock(n: nat, w: nat)
    requires w <= BASE36
    ensures |Pad(Encode(n), w)| == w
    ensures AllDigits(Pad(Encode(n), w))
    ensures Decode(Pad(Encode(n), w)) == n % Pow36(w)
  {
    DecodeEncode(n);
    PadShape(Encode(n), w);
    PadDigits(Encode(n), w);
  }

  /** Padding a digit string to width w keeps its value modulo 36^w. */
  lemma PadDigits(s: string, w: nat)
    requires AllDigits(s) && w <= BASE36
    ensures AllDigits(Pad(s, w))
    ensures Decode(Pad(s, w)) == Decode(s) % Pow36(w)
  {
    PadShape(s, w);
    if w <= |s| {
      DecodeSuffix(s, w);
    } else {
      var z := Zeros(w - |s|);
      DecodeZeros(w - |s|);
      DecodeAppend(z, s);
      DecodeBound(s);
      PowMonotone(|s|, w);
      ModBelow(Decode(s), Pow36(w));
    }
  }

  lemma ModBelow(n: nat, p: nat)
    requires n < p
    ensures n % p == n
  {
  }

  lemma {:induction false} PowMonotone(i: nat, j: nat)
    requires i <= j
    ensures Pow36(i) <= Pow36(j)
    decreases j
  {
    if i < j { PowMonotone(i, j - 1); }
  }

  /** A value below 36^w survives a width-w block unchanged. */
  lemma PadRoundTrip(n: nat, w: nat)
    requires w <= BASE36 && n < Pow36(w)
    ensures Decode(Pad(Encode(n), w)) == n
  {
    PadBlock(n, w);
    ModBelow(n, Pow36(w));
  }

  /** Padding wraps: n and n mod 36^w give the same block. */
  lemma PadWraps(n: nat, w: nat)
    requires w <= BASE36
    ensures Pad(Encode(n), w) == Pad(Encode(n % Pow36(w)), w)
  {
    var p := Pow36(w);
    var low := n % p;
    PadBlock(n, w);
    PadBlock(low, w);
    ModBelow(low, p);
    DecodeInjective(Pad(Encode(n), w), Pad(Encode(low), w));
  }

  /** Two blocks of one width are equal exactly when their values agree modulo 36^w. */
  lemma PadEqual(m: nat, n: nat, w: nat)
    requires w <= BASE36
    ensures Pad(Encode(m), w) == Pad(Encode(n), w) <==> m % Pow36(w) == n % Pow36(w)
  {
    PadBlock(m, w);
    PadBlock(n, w);
    if m % Pow36(w) == n % Pow36(w) {
      DecodeInjective(Pad(Encode(m), w), Pad(Encode(n), w));
    }
  }

  /** Two distinct values less than p apart differ modulo p. */
  lemma ModDistinct(a: nat, b: nat, p: nat)
    requires a < b < a + p
    ensures a % p != b % p
  {
    var qa, qb := a / p, b / p;
    if a % p == b % p {
      assert b - a == (qb - qa) * p;
      if qb <= qa {
        MulMonotone(qb, qa, p);
        assert false;
      } else {
        MulMonotone(1, qb - qa, p);
        assert false;
      }
    }
  }

  /** Values fewer than 36^w apart give different blocks of width w. */
  lemma PadDistinct(a: nat, b: nat, w: nat)
    requires w <= BASE36 && a < b < a + Pow36(w)
    ensures Pad(Encode(a), w) != Pad(Encode(b), w)
  {
    PadBlock(a, w);
    PadBlock(b, w);
    ModDistinct(a, b, Pow36(w));
  }

  /** 0 in a normal block is "0000"; 36^2 - 1 in a small block is "zz". */
  lemma PadExamples()
    ensures Pad(Encode(0), 4) == "0000"
    ensures Pad(Encode(1295), 2) == "zz"
  {
    assert Zeros(3) == "000" by {
      assert Zeros(1) == "0";
      assert Zeros(2) == "00";
    }
    assert Digit(35) == 'z';
    assert Encode(1295) == Encode(35) + [Digit(35)] == "zz";
  }
}
