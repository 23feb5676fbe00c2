/** The pure half of `Cuid::fingerprint`: the hostname checksum, the two
    2-character blocks built from the stored process id and the checksum, and
    their combination into a normal (4-character) or small (2-character)
    fingerprint. The stored process id itself is kept by Storage.Store. */
module Fingerprints {
  import opened Radix36

  /** One byte of the hostname, as `ord` reads it. */
  newtype byte = x: int | 0 <= x < 256

  /** `Cuid::NORMAL_BLOCK` and `Cuid::SMALL_BLOCK`. */
  const NORMAL_BLOCK: int := 4
  const SMALL_BLOCK: int := 2

  /** The sum of the character codes of a hostname, taken from the last
      character back; the reference the fold below is proved against. */
  function CodeSum(h: seq<byte>): nat {
    if h == [] then 0 else CodeSum(h[..|h| - 1]) + h[|h| - 1] as nat
  }

  /** `array_reduce(str_split($h), fn($carry, $c) => $carry + ord($c), $carry)`:
      a left fold over the characters. (For the empty hostname `str_split`
      yields one empty piece whose `ord` is 0, so the fold returns the seed
      there as well.) */
  function Reduce(h: seq<byte>, carry: nat): nat {
    if h == [] then carry else Reduce(h[1..], carry + h[0] as nat)
  }

  lemma {:induction false} CodeSumFront(h: seq<byte>)
    requires |h| > 0
    ensures CodeSum(h) == h[0] as nat + CodeSum(h[1..])
    decreases |h|
  {
    if |h| > 1 {
      var init := h[..|h| - 1];
      CodeSumFront(init);
      assert init[1..] == h[1..][..|h[1..]| - 1];
    }
  }

  /** The fold adds every character code to its seed. */
  lemma {:induction false} ReduceIsSum(h: seq<byte>, carry: nat)
    ensures Reduce(h, carry) == carry + CodeSum(h)
    decreases |h|
  {
    if h != [] {
      ReduceIsSum(h[1..], carry + h[0] as nat);
      CodeSumFront(h);
    }
  }

  /** The hostname checksum: the fold seeded with `strlen($h) + BASE36`, that
      is 36 + the length + the sum of the character codes. */
  function HostChecksum(h: seq<byte>): (sum: nat)
    ensures sum == BASE36 + |h| + CodeSum(h)
  {
    ReduceIsSum(h, |h| + BASE36);
    Reduce(h, |h| + BASE36)
  }

  /** The block of the stored process id: width `NORMAL_BLOCK / 2`. */
  function PidBlock(pid: nat): string {
    Pad(Encode(pid), NORMAL_BLOCK / 2)
  }

  /** The block of the hostname checksum: width 2. */
  function HostBlock(h: seq<byte>): string {
    Pad(Encode(HostChecksum(h)), 2)
  }

  /** The fingerprint returned for a stored process id and a hostname: the
      first character of the pid block and the last of the hostname block
      for the small block size, both blocks whole for any other size. */
  function FingerprintBlock(pid: nat, h: seq<byte>, blockSize: int): (r: string)
    ensures AllDigits(r)
    ensures |r| == if blockSize == SMALL_BLOCK then 2 else 4
  {
    var p, q := PidBlock(pid), HostBlock(h);
    PadBlock(pid, 2);
    PadBlock(HostChecksum(h), 2);
    assert |p| == 2 && AllDigits(p) && |q| == 2 && AllDigits(q);
    if blockSize == SMALL_BLOCK then
      CombineSmall(p, q);
      Prefix(p, 1) + Substr(q, -1)
    else
      p + q
  }

  /** The small combination of two 2-digit blocks: high digit of the first,
      low digit of the second. */
  lemma CombineSmall(p: string, q: string)
    requires |p| == 2 && |q| == 2
    ensures Prefix(p, 1) + Substr(q, -1) == [p[0], q[1]]
  {
  }

  /** Digits of n below 36^2: the high digit of n mod 1296 is digit 1 of n,
      the low digit is digit 0. */
  lemma LowDigits(n: nat)
    ensures (n % 1296) / 36 == (n / 36) % 36
    ensures (n % 1296) % 36 == n % 36
  {
    var a, m := n / 1296, n % 1296;
    var b, c := m / 36, m % 36;
    assert n == (36 * a + b) * 36 + c;
    DivModUnique(36 * a + b, 36, c);
    DivModUnique(a, 36, b);
    DivModUnique(b, 36, c);
  }

  /** A 2-digit string is worth its high digit times 36 plus its low digit. */
  lemma DecodeTwo(s: string)
    requires |s| == 2 && AllDigits(s)
    ensures Decode(s) == Value(s[0]) * 36 + Value(s[1])
  {
    var first := s[..1];
    assert first[..0] == [];
    assert Decode(first) == Value(s[0]);
    assert Decode(s) == Decode(first) * 36 + Value(s[1]);
  }

  /** The two digits of a block of width 2 holding n: digit 1 and digit 0 of n. */
  lemma SmallBlockDigits(n: nat)
    ensures |Pad(Encode(n), 2)| == 2 && AllDigits(Pad(Encode(n), 2))
    ensures Decode(Pad(Encode(n), 2)) == n % 1296
    ensures Value(Pad(Encode(n), 2)[0]) == n / 36 % 36
    ensures Value(Pad(Encode(n), 2)[1]) == n % 36
  {
    var p := Pad(Encode(n), 2);
    PadBlock(n, 2);
    assert Pow36(2) == 1296;
    DecodeTwo(p);
    TwoDigits(n, Value(p[0]), Value(p[1]));
  }

  lemma TwoDigits(n: nat, hi: nat, lo: nat)
    requires hi < 36 && lo < 36 && hi * 36 + lo == n % 1296
    ensures hi == n / 36 % 36 && lo == n % 36
  {
    DivModUnique(hi, 36, lo);
    LowDigits(n);
  }

  /** What a fingerprint is worth: in normal size the pid and the checksum
      each modulo 36^2, side by side; in small size digit 1 of the pid
      followed by digit 0 of the checksum. */
  lemma FingerprintValue(pid: nat, h: seq<byte>, blockSize: int)
    ensures blockSize != SMALL_BLOCK ==>
      Decode(FingerprintBlock(pid, h, blockSize)) == (pid % 1296) * 1296 + HostChecksum(h) % 1296
    ensures blockSize == SMALL_BLOCK ==>
      Decode(FingerprintBlock(pid, h, blockSize)) == (pid / 36 % 36) * 36 + HostChecksum(h) % 36
  {
    var sum := HostChecksum(h);
    var p, q := PidBlock(pid), HostBlock(h);
    SmallBlockDigits(pid);
    SmallBlockDigits(sum);
    var r := FingerprintBlock(pid, h, blockSize);
    if blockSize == SMALL_BLOCK {
      CombineSmall(p, q);
      assert r == [p[0], q[1]];
      DecodeTwo(r);
    } else {
      assert r == p + q;
      DecodeAppend(p, q);
      assert Pow36(|q|) == 1296;
    }
  }
}
