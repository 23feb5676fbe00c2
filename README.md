# cuid (PHP) — identifier construction, modelled in Dafny

`EndyJasmi\Cuid` generates collision-resistant identifiers. A full identifier
(`cuid`) is the letter `c`, followed by:

- the millisecond timestamp in radix 36;
- a 4-character counter block;
- a 4-character machine fingerprint;
- two 4-character random blocks.

The short identifier (`slug`) is built from:

- the last two timestamp digits;
- a 2-character counter block;
- a 2-character fingerprint;
- the last two digits of a random block.

The counter and the first process id seen are kept in two files under a
storage path, `.count` and `.pid`. Every `count` call advances the counter. A
`.pid` that already holds an id is never overwritten.

The model has four modules.

- **Radix36** (`radix36.dfy`) covers the block codec:
  - `Encode` is `base_convert(n, 10, 36)`.
  - `StrPadLeft`, `Substr` and `Prefix` are PHP's `str_pad`/`substr`, as the class calls them.
  - `Pad` is `Cuid::pad`.
  - `Decode` is the reference inverse, used to state what a block is worth.
- **Fingerprints** (`fingerprints.dfy`) covers the pure half of `fingerprint`:
  - the hostname checksum, as an `array_reduce` fold proved equal to 36 + length + the sum of the byte codes;
  - the pid block and the hostname block;
  - the small or normal combination of the two.
- **Storage** (`storage.dfy`) covers the persisted state:
  - `class Store` holds the two cells as fields;
  - `Count` and `Fingerprint` are methods that update the cells in place and return a `Result`;
  - a failed `fopen` is the `OpenFailed` outcome;
  - `CountTrace` is the sequence of blocks returned by repeated `count` calls, with its gap-free and no-repeat lemmas.
- **Identifiers** (`identifiers.dfy`) covers the assembly:
  - `FullId` and `SlugId` are the pure assembly functions, with their shape and field lemmas;
  - `class Cuid` holds a `Store` (the storage path) and has the methods `Full` (`cuid`) and `Slug` (`slug`).
  - Everything that comes from the environment during one call is a `World` value. That covers the clock, the random values, `getmypid`, `gethostname`, and whether each file opens.

## Model

| member | source | states |
|---|---|---|
| Radix36.Encode | src/Cuid.php:83-87 | `base_convert` to radix 36 yields at least one character, all from `[0-9a-z]` |
| Radix36.EncodeNoLeadingZero | src/Cuid.php:83-87 | 0 is written "0"; any other value starts with a nonzero digit |
| Radix36.DecodeEncode | src/Cuid.php:83-87 | decoding the radix-36 text of n gives back n (round trip) |
| Radix36.EncodeInjective | src/Cuid.php:83-87 | different values have different radix-36 texts |
| Radix36.EncodeLength | src/Cuid.php:223-227 | the text of n is longer than k digits exactly when n >= 36^k |
| Radix36.DecodeBound | src/Cuid.php:83-87 | k radix-36 digits are worth less than 36^k |
| Radix36.DecodeInjective | src/Cuid.php:180-190 | two digit strings of equal length and equal value are equal |
| Radix36.DecodeSuffix | src/Cuid.php:189 | the last w digits of a digit string are worth its value modulo 36^w |
| Radix36.PadShape | src/Cuid.php:180-190 | for size <= 36, pad returns exactly size characters: the tail of the input, or the input behind '0's |
| Radix36.PadDigits | src/Cuid.php:180-190 | padding digits keeps the alphabet and keeps the value modulo 36^size |
| Radix36.PadBlock | src/Cuid.php:180-190 | the padded block of n has width w, is all radix-36 digits and is worth n mod 36^w |
| Radix36.PadRoundTrip | src/Cuid.php:180-190 | a value below 36^w reads back exactly from its block |
| Radix36.PadWraps | src/Cuid.php:180-190 | an oversized value gives the same block as its remainder modulo 36^w, with no error |
| Radix36.PadEqual | src/Cuid.php:180-190 | two values give the same block if and only if they agree modulo 36^w |
| Radix36.PadDistinct | src/Cuid.php:180-190 | values fewer than 36^w apart give different blocks |
| Radix36.PadExamples | src/Cuid.php:180-190 | 0 at width 4 is "0000"; 1295 at width 2 is "zz" |
| Fingerprints.ReduceIsSum | src/Cuid.php:151-156 | the `array_reduce` fold adds every character code to its seed |
| Fingerprints.HostChecksum | src/Cuid.php:150-157 | the hostname checksum is 36 + the hostname's length + the sum of its byte codes |
| Fingerprints.FingerprintBlock | src/Cuid.php:139-169 | the fingerprint is radix-36 digits, 2 characters for the small size and 4 for any other |
| Fingerprints.SmallBlockDigits | src/Cuid.php:139-162 | a 2-wide block of n holds digit 1 then digit 0 of n, and is worth n mod 1296 |
| Fingerprints.FingerprintValue | src/Cuid.php:164-169 | normal: pid mod 1296 then checksum mod 1296; small: digit 1 of the pid then digit 0 of the checksum |
| Storage.Store.constructor | src/Cuid.php:235-238 | a store starts with the given cell contents (0 = missing or unparseable) |
| Storage.Store.Count | src/Cuid.php:57-90 | open failure leaves the counter and raises; otherwise the stored value v becomes v+1, the pid cell is untouched, and the block of v+1 is returned |
| Storage.Store.Fingerprint | src/Cuid.php:108-170 | open failure changes nothing and raises; otherwise a nonzero stored pid stays, a zero one is replaced by the current pid, the counter is untouched, and the fingerprint of the kept pid is returned |
| Storage.PidAfterStable | src/Cuid.php:124-133 | first writer wins: once a pid is kept, later calls keep it and return the same fingerprint for the same hostname |
| Storage.CountTraceAt | src/Cuid.php:57-90 | n successive `count` calls from v return the blocks of v+1, ..., v+n, in order |
| Storage.CountTraceValue | src/Cuid.php:73-89 | call k returns a block worth exactly v+k+1 while that fits the width |
| Storage.CountTraceGapless | src/Cuid.php:57-90 | while v+n fits the width, the n blocks decode to v+1 ... v+n with no gap |
| Storage.CountTraceDistinct | src/Cuid.php:57-90 | any run of at most 36^w calls returns pairwise distinct blocks, even after wrap-around |
| Identifiers.RandomBlock | src/Cuid.php:206-213 | a random block is 4 radix-36 digits |
| Identifiers.FullId | src/Cuid.php:255-268 | the full identifier is 'c' followed only by radix-36 digits, 17 more than the timestamp has |
| Identifiers.FullIdPattern | tests/CuidTest.php:36 | from an 8-digit timestamp on, the identifier matches `c[0-9a-z]{24,}`; it is exactly 25 characters until 36^8 ms |
| Identifiers.FullIdFields | src/Cuid.php:263-267 | the timestamp and the counter block can be read back at their positions |
| Identifiers.FullIdsDistinct | src/Cuid.php:255-268 | different timestamps, or counters that differ mod 36^4, give different full identifiers |
| Identifiers.SlugId | src/Cuid.php:281-292 | a slug is radix-36 digits, 8 characters whenever the timestamp has two or more digits, however large the counter or pid |
| Identifiers.SlugCountField | src/Cuid.php:284-289 | characters 2-3 of a slug hold the counter modulo 1296 |
| Identifiers.Cuid.constructor | src/Cuid.php:235-238 | a generator is bound to one storage path |
| Identifiers.Cuid.Full | src/Cuid.php:255-268 | a `.count` open failure raises before anything changes; a `.pid` open failure raises after the counter advanced; otherwise both cells are updated and the result is FullId of the new counter and the kept pid |
| Identifiers.Cuid.Slug | src/Cuid.php:281-292 | the same failure and update behaviour as `Full`, returning SlugId of the new counter and the kept pid |

## Left out

- File I/O and locking (`fopen`, `flock`, `fseek`, `ftruncate`, `fwrite`, `fclose`): each file is a `nat` field of `Store`. An `fopen` failure is an input flag that yields `OpenFailed`. The exception message and the path string are not modelled.
- Concurrency between processes sharing the files is not modelled. Preventing it is the whole purpose of `flock`, and the model is sequential.
- Storage.Store: the cells hold what `intval(trim(fgets()))` returns, restricted to non-negative values. Negative file contents, PHP's 64-bit integer overflow and the float precision of `base_convert` on very large values are not modelled.
- Identifiers.RandomBlock: takes the random value as an arbitrary `nat`. The float `mt_rand() / mt_getrandmax() * 36^4` is not modelled. Converting that float to text and dropping the '.' in `base_convert` can yield any non-negative integer, so the width-4 padding is the only part stated.
- Identifiers.World: the clock `floor(microtime(true) * 1000)` is a `nat` millisecond parameter. `getmypid()` and `gethostname()` are parameters too, and the hostname is a byte sequence.
- Radix36.PadShape: covers sizes 0 to 36, the only sizes the class uses. The shape of `pad` for larger or negative sizes is not stated.
- Radix36.Substr: follows PHP 8. PHP 7 returned `false` when the start was past the end of the string. That case never arises in the model, because every call site passes a start inside the string.
- The `__invoke` alias for `cuid` (src/Cuid.php:245-248) is not modelled, because it only forwards the call.
- Storage.CountTraceAt: the property about repeated calls is stated on `CountTrace`, the function that iterates the per-call effect of `Store.Count`, rather than on a sequence of method calls.
