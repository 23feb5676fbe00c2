/** The two persisted cells of the Cuid class, `<path>/.count` and
    `<path>/.pid`, and the two operations that update them in place,
    `Cuid::count` and `Cuid::fingerprint`. A Store object stands for one
    storage path: two generators built on the same Store share its cells,
    as two Cuid instances built on the same path share its files. */
module Storage {
  import opened Radix36
  import opened Fingerprints

  /** The two files kept under the storage path. */
  datatype Cell = CountFile | PidFile

  /** The outcome of an operation that opens a cell: the value, or the
      RuntimeException raised when `fopen` fails on that cell. */
  datatype Result<T> = Ok(value: T) | OpenFailed(cell: Cell) {
    predicate IsFailure() {
      OpenFailed?
    }

    function PropagateFailure<U>(): Result<U>
      requires OpenFailed?
    {
      OpenFailed(cell)
    }

    function Extract(): T
      requires Ok?
    {
      value
    }
  }

  /** The blocks returned by n successive successful `count` calls that start
      from the stored value `stored`: each call stores one more and returns
      the new value as a block. */
  function CountTrace(stored: nat, n: nat, blockSize: int): seq<string>
    decreases n
  {
    if n == 0 then [] else [Pad(Encode(stored + 1), blockSize)] + CountTrace(stored + 1, n - 1, blockSize)
  }

  /** The process id kept after one successful `fingerprint` call: a stored
      nonzero id stays, an absent (zero) one is replaced by the caller's. */
  function PidAfter(stored: nat, currentPid: nat): nat {
    if stored == 0 then currentPid else stored
  }

  /** Call k of n successive `count` calls returns the block of v + k + 1. */
  lemma {:induction false} CountTraceAt(v: nat, n: nat, blockSize: int, k: nat)
    requires k < n
    ensures |CountTrace(v, n, blockSize)| == n
    ensures CountTrace(v, n, blockSize)[k] == Pad(Encode(v + k + 1), blockSize)
    decreases n
  {
    var rest := CountTrace(v + 1, n - 1, blockSize);
    assert CountTrace(v, n, blockSize) == [Pad(Encode(v + 1), blockSize)] + rest;
    if n > 1 {
      CountTraceAt(v + 1, n - 1, blockSize, if k > 0 then k - 1 else 0);
    }
  }

  /** While v + k + 1 fits the block width, call k of n successive `count`
      calls returns a block worth exactly v + k + 1. */
  lemma CountTraceValue(v: nat, n: nat, w: nat, k: nat)
    requires w <= BASE36 && k < n && v + k + 1 < Pow36(w)
    ensures |CountTrace(v, n, w)| == n
    ensures AllDigits(CountTrace(v, n, w)[k]) && Decode(CountTrace(v, n, w)[k]) == v + k + 1
  {
    CountTraceAt(v, n, w, k);
    PadBlock(v + k + 1, w);
    PadRoundTrip(v + k + 1, w);
  }

  /** Starting from v, n calls return v + 1, ..., v + n in order, with no gap
      and no repeat, as long as v + n fits the block width. */
  lemma CountTraceGapless(v: nat, n: nat, w: nat)
    requires w <= BASE36 && v + n < Pow36(w)
    ensures |CountTrace(v, n, w)| == n
    ensures forall k :: 0 <= k < n ==>
      AllDigits(CountTrace(v, n, w)[k]) && Decode(CountTrace(v, n, w)[k]) == v + k + 1
  {
    if n == 0 {
      return;
    }
    CountTraceAt(v, n, w, 0);
    forall k | 0 <= k < n
      ensures AllDigits(CountTrace(v, n, w)[k]) && Decode(CountTrace(v, n, w)[k]) == v + k + 1
    {
      CountTraceValue(v, n, w, k);
    }
  }

  /** Calls i and j (i < j) of a run of at most 36^w calls return different
      blocks of width w. */
  lemma CountTracePairDistinct(v: nat, n: nat, w: nat, i: nat, j: nat)
    requires w <= BASE36 && n <= Pow36(w) && i < j < n
    ensures |CountTrace(v, n, w)| == n
    ensures CountTrace(v, n, w)[i] != CountTrace(v, n, w)[j]
  {
    CountTraceAt(v, n, w, i);
    CountTraceAt(v, n, w, j);
    PadDistinct(v + i + 1, v + j + 1, w);
  }

  /** Within any run of at most 36^w calls the returned blocks of width w are
      pairwise distinct, however large the stored value has grown: the
      counter wraps around but does not repeat sooner. */
  lemma CountTraceDistinct(v: nat, n: nat, w: nat)
    requires w <= BASE36 && n <= Pow36(w)
    ensures |CountTrace(v, n, w)| == n
    ensures forall i, j :: 0 <= i < j < n ==> CountTrace(v, n, w)[i] != CountTrace(v, n, w)[j]
  {
    if n == 0 {
      return;
    }
    CountTraceAt(v, n, w, 0);
    forall i, j | 0 <= i < j < n
      ensures CountTrace(v, n, w)[i] != CountTrace(v, n, w)[j]
    {
      CountTracePairDistinct(v, n, w, i, j);
    }
  }

  /** First writer wins: once a process id is stored it is never replaced,
      and every later call returns the same fingerprint for one hostname. */
  lemma {:induction false} PidAfterStable(stored: nat, first: nat, later: nat, h: seq<byte>, blockSize: int)
    requires PidAfter(stored, first) != 0
    ensures PidAfter(PidAfter(stored, first), later) == PidAfter(stored, first)
    ensures FingerprintBlock(PidAfter(PidAfter(stored, first), later), h, blockSize)
         == FingerprintBlock(PidAfter(stored, first), h, blockSize)
    ensures stored != 0 ==> PidAfter(stored, first) == stored
  {
  }

  /** The persisted state under one storage path. */
  class Store {
    /** The integer read back from `.count`: 0 when the file is missing,
        empty or does not start with a number. */
    var count: nat
    /** The process id read back from `.pid`: 0 when absent. */
    var pid: nat

    constructor (count: nat, pid: nat)
      ensures this.count == count && this.pid == pid
    {
      this.count := count;
      this.pid := pid;
    }

    /** `Cuid::count`: open `.count` (failing with the open error), read the
        stored value, store it plus one, and return the new value as a block
        of `blockSize` characters. */
    method Count(blockSize: int, opens: bool) returns (r: Result<string>)
      modifies this
      ensures pid == old(pid)
      ensures !opens ==> count == old(count) && r == OpenFailed(CountFile)
      ensures opens ==> count == old(count) + 1 && r == Ok(Pad(Encode(count), blockSize))
    {
      if !opens {
        return OpenFailed(CountFile);
      }
      var next := count + 1;
      count := next;
      r := Ok(Pad(Encode(next), blockSize));
    }

    /** `Cuid::fingerprint`: open `.pid` (failing with the open error), keep a
        stored process id or else store the current one, and return the
        fingerprint block of the kept id and the hostname. */
    method Fingerprint(blockSize: int, currentPid: nat, hostname: seq<byte>, opens: bool)
      returns (r: Result<string>)
      modifies this
      ensures count == old(count)
      ensures old(pid) != 0 ==> pid == old(pid)
      ensures pid == if opens then PidAfter(old(pid), currentPid) else old(pid)
      ensures r == if opens then Ok(FingerprintBlock(pid, hostname, blockSize)) else OpenFailed(PidFile)
    {
      if !opens {
        return OpenFailed(PidFile);
      }
      var stored := pid;
      if stored == 0 {
        stored := currentPid;
        pid := stored;
      }
      r := Ok(FingerprintBlock(stored, hostname, blockSize));
    }
  }
}
