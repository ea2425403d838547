# GETBIT over a TTL-aware key-value storage

This project models the command core of a Redis-style key-value store in Dafny,
through its representative bit-level command, GETBIT.

- **Values** are strings or bitmaps, and each may carry an absolute expiration time.
  A bitmap is a sequence of unsigned 64-bit words, index 0 first. Bit `b` of word `i`
  is offset `64 * i + b`, and bit 0 is the least-significant bit.
- **Storage** is an abstract lookup. There are two backends: an in-memory map from keys
  to values, and a backend whose every lookup fails with a given error. Expiry is lazy.
  A lookup at time `now` treats a value whose expiration time is before `now` as absent.
- **Results** are an integer success or an error. The error is one of WrongArgsNumber,
  WrongTypeOp, InvalidOffset (the "invalid offset" error) or a storage failure carrying the
  backend's own error.
- **GETBIT key offset** (`GetBit.Execute`) works through these steps in order:
  1. It checks that there are exactly two arguments.
  2. It parses the offset as a non-negative decimal integer.
  3. It looks up the key. A backend failure is passed on unchanged. A missing or expired
     key reads as 0.
  4. It checks that the value is a bitmap.
  5. It returns bit `offset % 64` of word `offset / 64`. An offset past the stored words
     reads as 0.

GETBIT, its name and help text, and the storage lookup are modelled as their tests fix them,
branch by branch; the Go source of `getbit.go` and of the storage package is not followed
line by line.
A GETBIT result is related to an independent reading of the bitmap: `BitMap.Num` reads the
word sequence as one little-endian natural number. `GetBit.ReadsBitOfBitmap` proves that
GETBIT at any valid offset string returns the bit of that number the string denotes, including offsets past the stored
words. The decimal parser is likewise tied to the canonical decimal rendering
(`Decimal.Render`) in both directions.

Files: `wrappers.dfy` (Option), `bitmap.dfy` (words and bit addressing), `decimal.dfy`
(offset parsing), `storage.dfy` (values and the lookup contract), `command.dfy` (result and
error model), `getbit.dfy` (the command), `getbit_test.dfy` (the test table, one lemma per row).

## Model

| member | source | states |
|---|---|---|
| BitMap.ReadBit | internal/pkg/command/getbit_test.go:42-46 | the bit read at an offset is 0 or 1, and is 0 whenever the word index offset / 64 lies past the stored words |
| BitMap.ReadBitIsNumBit | internal/pkg/command/getbit_test.go:42-46 | for every word sequence and every offset, addressing word offset / 64, bit offset % 64 (LSB first) gives bit `offset` of the little-endian number the words spell |
| BitMap.NumPastEnd | internal/pkg/command/getbit_test.go:46 | every offset at or beyond 64 bits per stored word is a zero bit of the bitmap's number |
| BitMap.SingleBit | internal/pkg/command/getbit_test.go:32 | the word 1 << k has bit k set and every other bit clear |
| BitMap.NumBound | internal/pkg/command/getbit_test.go:46 | a bitmap of n words is a number below 2^(64 n), so nothing is stored beyond its words |
| Decimal.ParseOffset | internal/pkg/command/getbit_test.go:53-54 | an offset string is accepted exactly when it is non-empty and made of the digits 0-9 only, so "-1" and "string" are rejected |
| Decimal.Accumulate | internal/pkg/command/getbit_test.go:53-54 | left-to-right digit reading succeeds exactly when every remaining character is a digit |
| Decimal.AccumulateAppend | internal/pkg/command/getbit_test.go:42-47 | reading a concatenation of digit strings is reading the first and then continuing with the second |
| Decimal.ParseOffsetValue | internal/pkg/command/getbit_test.go:42-47 | an accepted offset string parses to the number its digits denote |
| Decimal.RenderValue | internal/pkg/command/getbit_test.go:42-47 | the canonical decimal form of a number denotes that number |
| Decimal.ParseRender | internal/pkg/command/getbit_test.go:42-47 | every natural number written in decimal is a valid offset that parses back to itself |
| Decimal.RenderParse | internal/pkg/command/getbit_test.go:42-47 | a digit string without leading zeros is the decimal form of the number it parses to |
| Storage.Value.Type | internal/pkg/command/getbit_test.go:31-34 | a value is of the bitmap kind exactly when it is a bitmap value |
| Storage.Value.IsExpired | internal/pkg/command/getbit_test.go:27-28 | a value without an expiration time never expires; one with an expiration time is expired exactly when that time is before `now` |
| Storage.NewStringValue | internal/pkg/command/getbit_test.go:31 | a fresh string value holds the given text and has no expiration time, so it is never expired |
| Storage.NewBitMapValue | internal/pkg/command/getbit_test.go:32-33 | a fresh bitmap value holds exactly the given words and has no expiration time, so it is never expired |
| Storage.Value.SetTTL | internal/pkg/command/getbit_test.go:27-28 | setting the expiration time keeps the value's kind and payload and changes nothing else |
| Storage.Get | internal/pkg/command/getbit_test.go:47-49 | a lookup finds a value exactly when the key is present and unexpired, and returns the stored value; it fails exactly on a failing backend and then carries that backend's error |
| Storage.ExpiredIsAbsent | internal/pkg/command/getbit_test.go:27-28 | looking up a key whose value has expired is the same as looking it up after deleting it: not found |
| Storage.ExpiryIsPermanent | internal/pkg/command/getbit_test.go:27-28 | a key not found at some time stays not found at every later time |
| Storage.GetIgnoresOtherKeys | internal/pkg/command/getbit_test.go:30-35 | storing a value under one key does not change what a lookup of another key returns |
| GetBit.Name | internal/pkg/command/getbit_test.go:14-17 | the command's name is a non-empty upper-case token |
| GetBit.Help | internal/pkg/command/getbit_test.go:19-24 | the help text is the usage line, a line break, then the description line |
| GetBit.Usage | internal/pkg/command/getbit_test.go:21 | the usage line is "Usage: " followed by the command's name and its arguments "key offset" |
| GetBit.Description | internal/pkg/command/getbit_test.go:22 | the description is a non-empty sentence ending in a full stop |
| GetBit.Execute | internal/pkg/command/getbit_test.go:37-55 | an integer result is always 0 or 1, and a storage-failure result only arises when there are two arguments and the lookup of the key failed, and then it carries exactly the lookup's error |
| GetBit.WrongArgCountRejected | internal/pkg/command/getbit_test.go:51-52 | any argument count other than two gives WrongArgsNumber, whatever the storage holds or does |
| GetBit.InvalidOffsetRejected | internal/pkg/command/getbit_test.go:53-54 | an empty or non-digit offset gives "invalid offset" before the storage is consulted, even on a failing backend |
| GetBit.StorageFailurePropagated | internal/pkg/command/getbit_test.go:66-80 | with valid arguments, a failing backend's error is the result, unchanged |
| GetBit.MissingKeyReadsZero | internal/pkg/command/getbit_test.go:47-48 | a key the lookup does not find reads as 0 at every valid offset |
| GetBit.ExpiredKeyIsAbsent | internal/pkg/command/getbit_test.go:49 | GETBIT on an expired key gives the same result as on the storage with that key deleted |
| GetBit.WrongTypeRejected | internal/pkg/command/getbit_test.go:50 | a key holding a non-bitmap value gives WrongTypeOp, never a number |
| GetBit.SucceedsIff | internal/pkg/command/getbit_test.go:37-55 | GETBIT returns an integer exactly when there are two arguments, the offset is valid, the backend answers, and the key holds no value of another kind |
| GetBit.DependsOnlyOnLookup | internal/pkg/command/getbit_test.go:76-79 | two storages whose lookups of the named key agree give the same GETBIT result |
| GetBit.ReadsBitOfBitmap | internal/pkg/command/getbit_test.go:42-45 | on a stored bitmap, GETBIT at any valid offset string, leading zeros included, returns the bit of the bitmap's little-endian number at the offset the string denotes |
| GetBit.ReadsBitAtRenderedOffset | internal/pkg/command/getbit_test.go:42-45 | on a stored bitmap, GETBIT at the decimal form of o returns bit o of the bitmap's little-endian number, for every natural o |
| GetBit.PastEndReadsZero | internal/pkg/command/getbit_test.go:46 | on a stored bitmap, every valid offset string denoting an offset at or past 64 bits per stored word gives 0, not an error |
| GetBitTest.Fixture | internal/pkg/command/getbit_test.go:27-35 | the fixture storage is in memory and holds exactly the four test keys; the string key holds a string, the big-offset key holds the words [0, 3], the expired bitmap is expired at `now` but was not one second earlier, and no other key has an expiration time |
| GetBitTest.NameIsGetBit | internal/pkg/command/getbit_test.go:14-17 | the name is "GETBIT" |
| GetBitTest.HelpText | internal/pkg/command/getbit_test.go:19-24 | the help text is the two-line usage and description |
| GetBitTest.SetBit | internal/pkg/command/getbit_test.go:42 | [1 << 5] at offset 5 gives 1 |
| GetBitTest.UnsetBit | internal/pkg/command/getbit_test.go:43 | [1 << 5] at offset 10 gives 0 |
| GetBitTest.BigOffsetSecondWordLowBit | internal/pkg/command/getbit_test.go:44 | [0, 3] at offset 64 gives 1 |
| GetBitTest.BigOffsetSecondWordNextBit | internal/pkg/command/getbit_test.go:45 | [0, 3] at offset 65 gives 1 |
| GetBitTest.BigOffsetPastEnd | internal/pkg/command/getbit_test.go:46 | [0, 3] at offset 1000 gives 0 |
| GetBitTest.KeyNotExistsReadsZero | internal/pkg/command/getbit_test.go:47-48 | an absent key at offset 0 gives 0 |
| GetBitTest.ExpiredKeyReadsZero | internal/pkg/command/getbit_test.go:49 | the bitmap [1 << 10] that expired one second ago gives 0 at offset 10 |
| GetBitTest.WrongTypeOperation | internal/pkg/command/getbit_test.go:50 | a string value gives WrongTypeOp |
| GetBitTest.OneArgument | internal/pkg/command/getbit_test.go:51 | one argument gives WrongArgsNumber |
| GetBitTest.NoArguments | internal/pkg/command/getbit_test.go:52 | no arguments give WrongArgsNumber |
| GetBitTest.NegativeOffset | internal/pkg/command/getbit_test.go:53 | offset "-1" gives "invalid offset" |
| GetBitTest.OffsetNotInteger | internal/pkg/command/getbit_test.go:54 | offset "string" gives "invalid offset" |
| GetBitTest.StorageErr | internal/pkg/command/getbit_test.go:66-80 | a backend whose lookup fails with "error" makes GETBIT return exactly that error |

## Left out

- The Go source of `getbit.go` and of the storage package is not followed line by line; GETBIT and the lookup follow the behaviour their tests fix.
- Decimal.ParseOffset: accepts every non-empty digit string, whatever its size. Any 64-bit upper bound the implementation's integer parser may impose is not fixed by the tests, so it is not modelled. A sign prefix such as "+5" or "-0" is rejected like any other non-digit; the tests fix only "-1" and "string".
- Storage.Value.IsExpired: a value counts as expired when its expiration time is strictly before `now`. The tests fix only a time one second in the past, so the boundary where the expiration time equals `now` is a modelling choice.
- Wall-clock time becomes the parameter `now`, and expiration times are compared as integers.
- The concrete memory backend becomes a Dafny `map`. The mock storage of the failure test becomes the `Failing` backend, whose every lookup returns the same error. Call counting on the mock is not modelled; that no lookup happens before validation is stated by `GetBit.WrongArgCountRejected` and `GetBit.InvalidOffsetRejected`, which hold for a failing backend too.
- GetBit.Description: its contract says only that the description is a sentence ending in a full stop, not that it contains no line break; its exact text, and so the two-line shape of the help, is stated by `GetBitTest.HelpText`.
- The messages of the WrongArgsNumber and WrongTypeOp errors are not modelled. Each error kind is its own variant, and a storage error is carried as an opaque string.
- The storage mutators (Set, Delete and kind-specific updates), the command registry, protocol encoding of results, and concurrency are outside the command's reading of a single key and are not modelled. GETBIT is a function of the storage, so it cannot change it.
- The test runner loop and the assertion library are test harness only.
