/** The public face of the Cuid class: the full identifier (`cuid`) and the
    short one (`slug`), assembled from the timestamp, the counter block, the
    fingerprint block and random blocks. The clock, the random generator, the
    process id, the hostname and whether each cell file opens are inputs,
    bundled per call in a World value. */
module Identifiers {
  import opened Radix36
  import opened Fingerprints
  import opened Storage

  /** What the environment answers during one call. */
  datatype World = World(
    millis: nat,          // floor(microtime(true) * 1000)
    processId: nat,       // getmypid()
    hostname: seq<byte>,  // gethostname()
    random1: nat,         // the value the first random() call converts
    random2: nat,         // the value the second random() call converts
    countOpens: bool,     // whether fopen succeeds on .count
    pidOpens: bool)       // whether fopen succeeds on .pid

  lemma DigitsConcat(a: string, b: string)
    requires AllDigits(a) && AllDigits(b)
    ensures AllDigits(a + b)
  {
  }

  /** A normal block is four radix-36 digits. */
  lemma NormalBlockShape(n: nat)
    ensures |Pad(Encode(n), NORMAL_BLOCK)| == 4 && AllDigits(Pad(Encode(n), NORMAL_BLOCK))
  {
    PadBlock(n, 4);
  }

  /** `Cuid::random` on an already drawn value: a normal block. */
  function RandomBlock(value: nat): (b: string)
    ensures |b| == 4 && AllDigits(b)
  {
    NormalBlockShape(value);
    Pad(Encode(value), NORMAL_BLOCK)
  }

  /** Where the parts of a full identifier land: the timestamp right after
      the 'c', the counter block right after the timestamp. */
  lemma FullLayout(timestamp: string, countBlock: string, fingerprint: string, random: string)
    requires AllDigits(timestamp) && AllDigits(countBlock) && AllDigits(fingerprint) && AllDigits(random)
    requires |countBlock| == 4 && |fingerprint| == 4 && |random| == 8
    ensures var id, n := "c" + timestamp + countBlock + fingerprint + random, |timestamp|;
      |id| == 17 + n && id[0] == 'c' && AllDigits(id[1..]) &&
      id[1..1 + n] == timestamp && id[1 + n..5 + n] == countBlock
  {
    var id := "c" + timestamp + countBlock + fingerprint + random;
    var n := |timestamp|;
    assert id[1..] == timestamp + countBlock + fingerprint + random;
    assert id[1..1 + n] == timestamp;
    assert id[1 + n..5 + n] == countBlock;
  }

  /** The full identifier: 'c', the whole timestamp, a normal counter block,
      a normal fingerprint and two random blocks. Whatever the inputs, it is
      'c' followed by radix-36 digits, 17 more than the timestamp has. */
  function FullId(millis: nat, count: nat, pid: nat, hostname: seq<byte>, random1: nat, random2: nat)
    : (id: string)
    ensures |id| == 17 + |Encode(millis)|
    ensures id[0] == 'c' && AllDigits(id[1..])
  {
    var timestamp := Encode(millis);
    var countBlock := Pad(Encode(count), NORMAL_BLOCK);
    var fingerprint := FingerprintBlock(pid, hostname, NORMAL_BLOCK);
    var random := RandomBlock(random1) + RandomBlock(random2);
    NormalBlockShape(count);
    FullLayout(timestamp, countBlock, fingerprint, random);
    "c" + timestamp + countBlock + fingerprint + random
  }

  /** The short identifier: the last two timestamp digits, a small counter
      block, a small fingerprint and the last two digits of a random block.
      It is made of radix-36 digits, and it is 8 characters long whenever the
      timestamp has at least two digits, however large the counter or the
      process id. */
  function SlugId(millis: nat, count: nat, pid: nat, hostname: seq<byte>, random: nat): (id: string)
    ensures AllDigits(id)
    ensures |id| == if millis >= 36 then 8 else 7
  {
    var timestamp := Substr(Encode(millis), -2);
    var countBlock := Pad(Encode(count), SMALL_BLOCK);
    var fingerprint := FingerprintBlock(pid, hostname, SMALL_BLOCK);
    var randomTail := Substr(RandomBlock(random), -2);
    PadBlock(count, 2);
    EncodeLength(millis, 1);
    DigitsConcat(timestamp, countBlock);
    DigitsConcat(timestamp + countBlock, fingerprint);
    DigitsConcat(timestamp + countBlock + fingerprint, randomTail);
    timestamp + countBlock + fingerprint + randomTail
  }

  /** A full identifier matches `c[0-9a-z]{24,}` once the timestamp has eight
      digits (from 36^7 ms, early 1972, on), and is then exactly 25 characters
      long until the timestamp reaches 36^8 ms (in 2059). */
  lemma FullIdPattern(millis: nat, count: nat, pid: nat, hostname: seq<byte>, random1: nat, random2: nat)
    requires millis >= Pow36(7)
    ensures |FullId(millis, count, pid, hostname, random1, random2)| >= 25
    ensures millis < Pow36(8) ==> |FullId(millis, count, pid, hostname, random1, random2)| == 25
  {
    EncodeLength(millis, 7);
    EncodeLength(millis, 8);
  }

  /** The timestamp and the counter block can be read back from a full
      identifier: they sit right after the 'c'. */
  lemma FullIdFields(millis: nat, count: nat, pid: nat, hostname: seq<byte>, random1: nat, random2: nat)
    ensures FullId(millis, count, pid, hostname, random1, random2)[1..1 + |Encode(millis)|] == Encode(millis)
    ensures FullId(millis, count, pid, hostname, random1, random2)[1 + |Encode(millis)|..5 + |Encode(millis)|]
         == Pad(Encode(count), NORMAL_BLOCK)
  {
    var countBlock := Pad(Encode(count), NORMAL_BLOCK);
    var fingerprint := FingerprintBlock(pid, hostname, NORMAL_BLOCK);
    var random := RandomBlock(random1) + RandomBlock(random2);
    NormalBlockShape(count);
    FullLayout(Encode(millis), countBlock, fingerprint, random);
    assert FullId(millis, count, pid, hostname, random1, random2)
        == "c" + Encode(millis) + countBlock + fingerprint + random;
  }

  /** Two full identifiers built from different timestamps, or from counter
      values that differ modulo 36^4, are different strings, whatever the
      fingerprints and random blocks. */
  lemma FullIdsDistinct(
    millis1: nat, count1: nat, pid1: nat, hostname1: seq<byte>, random11: nat, random12: nat,
    millis2: nat, count2: nat, pid2: nat, hostname2: seq<byte>, random21: nat, random22: nat)
    requires millis1 != millis2 || count1 % Pow36(4) != count2 % Pow36(4)
    ensures FullId(millis1, count1, pid1, hostname1, random11, random12)
         != FullId(millis2, count2, pid2, hostname2, random21, random22)
  {
    var id1 := FullId(millis1, count1, pid1, hostname1, random11, random12);
    var id2 := FullId(millis2, count2, pid2, hostname2, random21, random22);
    var n1, n2 := |Encode(millis1)|, |Encode(millis2)|;
    if n1 == n2 {
      FullIdFields(millis1, count1, pid1, hostname1, random11, random12);
      FullIdFields(millis2, count2, pid2, hostname2, random21, random22);
      if millis1 != millis2 {
        if Encode(millis1) == Encode(millis2) {
          EncodeInjective(millis1, millis2);
        }
        assert id1[1..1 + n1] != id2[1..1 + n2];
      } else {
        PadEqual(count1, count2, 4);
        assert id1[1 + n1..5 + n1] != id2[1 + n2..5 + n2];
      }
    }
  }

  /** The counter block of a slug sits at positions 2 and 3 and holds the
      counter value modulo 36^2. */
  lemma SlugCountField(millis: nat, count: nat, pid: nat, hostname: seq<byte>, random: nat)
    requires millis >= 36
    ensures var id := SlugId(millis, count, pid, hostname, random);
      AllDigits(id[2..4]) && Decode(id[2..4]) == count % 1296
  {
    var timestamp := Substr(Encode(millis), -2);
    var countBlock := Pad(Encode(count), SMALL_BLOCK);
    var rest := FingerprintBlock(pid, hostname, SMALL_BLOCK) + Substr(RandomBlock(random), -2);
    var id := SlugId(millis, count, pid, hostname, random);
    assert id == timestamp + countBlock + rest;
    EncodeLength(millis, 1);
    assert |timestamp| == 2;
    SmallBlockValue(count);
    Slice(timestamp, countBlock, rest);
  }

  lemma SmallBlockValue(count: nat)
    ensures |Pad(Encode(count), SMALL_BLOCK)| == 2 && AllDigits(Pad(Encode(count), SMALL_BLOCK))
    ensures Decode(Pad(Encode(count), SMALL_BLOCK)) == count % 1296
  {
    PadBlock(count, 2);
    assert Pow36(2) == 1296;
  }

  lemma Slice(a: string, b: string, c: string)
    ensures (a + b + c)[|a|..|a| + |b|] == b
  {
  }

  /** A generator bound to one storage path. */
  class Cuid {
    const store: Store

    constructor (store: Store)
      ensures this.store == store
    {
      this.store := store;
    }

    /** `Cuid::cuid`: the full identifier. The counter is advanced first; if
        the pid cell then fails to open, the advance stays and the call fails. */
    method Full(w: World) returns (r: Result<string>)
      modifies store
      ensures store.count == if w.countOpens then old(store.count) + 1 else old(store.count)
      ensures store.pid == if w.countOpens && w.pidOpens then PidAfter(old(store.pid), w.processId)
                           else old(store.pid)
      ensures r == if !w.countOpens then OpenFailed(CountFile)
                   else if !w.pidOpens then OpenFailed(PidFile)
                   else Ok(FullId(w.millis, store.count, store.pid, w.hostname, w.random1, w.random2))
    {
      var timestamp := Encode(w.millis);
      var count :- store.Count(NORMAL_BLOCK, w.countOpens);
      var fingerprint :- store.Fingerprint(NORMAL_BLOCK, w.processId, w.hostname, w.pidOpens);
      var random := RandomBlock(w.random1) + RandomBlock(w.random2);
      var id := "c" + timestamp + count + fingerprint + random;
      assert id == FullId(w.millis, store.count, store.pid, w.hostname, w.random1, w.random2);
      return Ok(id);
    }

    /** `Cuid::slug`: the short identifier, with the same failure behaviour. */
    method Slug(w: World) returns (r: Result<string>)
      modifies store
      ensures store.count == if w.countOpens then old(store.count) + 1 else old(store.count)
      ensures store.pid == if w.countOpens && w.pidOpens then PidAfter(old(store.pid), w.processId)
                           else old(store.pid)
      ensures r == if !w.countOpens then OpenFailed(CountFile)
                   else if !w.pidOpens then OpenFailed(PidFile)
                   else Ok(SlugId(w.millis, store.count, store.pid, w.hostname, w.random1))
    {
      var timestamp := Substr(Encode(w.millis), -2);
      var count :- store.Count(SMALL_BLOCK, w.countOpens);
      var fingerprint :- store.Fingerprint(SMALL_BLOCK, w.processId, w.hostname, w.pidOpens);
      var random := Substr(RandomBlock(w.random1), -2);
      return Ok(timestamp + count + fingerprint + random);
    }
  }
}
