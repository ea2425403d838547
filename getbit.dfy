/**
 The GETBIT command: GETBIT key offset returns the bit at offset of the bitmap
 stored at key.

 Validation runs in a fixed order, and the order shows in the result:
   1. exactly two arguments, else WrongArgsNumber;
   2. the offset is a non-negative decimal integer, else InvalidOffset, before
      the storage is consulted;
   3. the lookup of key: a backend failure is returned unchanged, a missing or
      expired key reads as 0;
   4. the value must be a bitmap, else WrongTypeOp;
   5. the bit is bit offset % 64 of word offset / 64, and 0 past the stored words.
 The command only reads the storage.
 */
module GetBit {
  import opened Wrappers
  import BitMap
  import Decimal
  import opened Storage
  import opened Command

  /** The upper-case token the command is dispatched by. */
  function Name(): (r: string)
    ensures r != [] && forall i :: 0 <= i < |r| ==> 'A' <= r[i] <= 'Z'
  {
    "GETBIT"
  }

  /**
   Two lines: the usage line, naming the command and its arguments, then a
   one-sentence description.
   */
  function Help(): (r: string)
    ensures |r| > |Usage()| && r[..|Usage()|] == Usage() && r[|Usage()|] == '\n'
    ensures r[|Usage()| + 1..] == Description()
  {
    var usage, description := Usage(), Description();
    var help := usage + "\n" + description;
    assert help[..|usage|] == usage;
    assert help[|usage| + 1..] == description;
    help
  }

  /** The first line of the help text: the command's name followed by its arguments. */
  function Usage(): (r: string)
    ensures r == "Usage: " + Name() + " key offset"
  {
    "Usage: GETBIT key offset"
  }

  /** The second line of the help text: one sentence saying what the command does. */
  function Description(): (r: string)
    ensures |r| > 0 && r[|r| - 1] == '.'
  {
    "Returns the bit value at offset in the string value stored at key."
  }

  function Execute(strg: Storage, now: int, args: seq<string>): (r: Result)
    ensures r.IntResult? ==> r.value == 0 || r.value == 1
    ensures r.ErrResult? && r.err.StorageFailure? ==>
      |args| == 2 && Get(strg, args[0], now) == Failed(r.err.fault)
  {
    if |args| != 2 then ErrResult(WrongArgsNumber)
    else
      match Decimal.ParseOffset(args[1])
      case None => ErrResult(InvalidOffset)
      case Some(offset) =>
        match Get(strg, args[0], now)
        case Failed(fault) => ErrResult(StorageFailure(fault))
        case KeyNotExists => IntResult(0)
        case Found(value) =>
          if value.Type() != BitMapDataType then ErrResult(WrongTypeOp)
          else IntResult(BitMap.ReadBit(value.words, offset))
  }

  // ---------------------------------------------------------------------------
  // The validation order

  /** Any argument count other than two is rejected, whatever the storage holds or does. */
  lemma WrongArgCountRejected(strg: Storage, now: int, args: seq<string>)
    requires |args| != 2
    ensures Execute(strg, now, args) == ErrResult(WrongArgsNumber)
  {
  }

  /** An offset that is not a non-negative decimal integer is rejected before any lookup, even on a failing backend. */
  lemma InvalidOffsetRejected(strg: Storage, now: int, key: Key, offset: string)
    requires offset == [] || !Decimal.AllDigits(offset)
    ensures Execute(strg, now, [key, offset]) == ErrResult(InvalidOffset)
  {
  }

  /** With valid arguments, a failure of the backend is the result, unchanged. */
  lemma StorageFailurePropagated(fault: StorageError, now: int, key: Key, offset: string)
    requires Decimal.ParseOffset(offset).Some?
    ensures Execute(Failing(fault), now, [key, offset]) == ErrResult(StorageFailure(fault))
  {
  }

  /** A missing or expired key reads as an all-zero bitmap. */
  lemma MissingKeyReadsZero(strg: Storage, now: int, key: Key, offset: string)
    requires Decimal.ParseOffset(offset).Some?
    requires Get(strg, key, now) == KeyNotExists
    ensures Execute(strg, now, [key, offset]) == IntResult(0)
  {
  }

  /** GETBIT answers for an expired key exactly as it would after the key was deleted. */
  lemma ExpiredKeyIsAbsent(data: map<Key, Value>, now: int, key: Key, offset: string)
    requires key in data && data[key].IsExpired(now)
    ensures Execute(Memory(data), now, [key, offset]) == Execute(Memory(data - {key}), now, [key, offset])
  {
    ExpiredIsAbsent(data, key, now);
  }

  /** A key holding anything but a bitmap is a type error, never a number. */
  lemma WrongTypeRejected(strg: Storage, now: int, key: Key, offset: string)
    requires Decimal.ParseOffset(offset).Some?
    requires Get(strg, key, now).Found? && Get(strg, key, now).value.Type() != BitMapDataType
    ensures Execute(strg, now, [key, offset]) == ErrResult(WrongTypeOp)
  {
  }

  /**
   The command succeeds exactly when there are two arguments, the offset is
   valid, the backend answers, and the key does not hold a value of another kind.
   */
  lemma SucceedsIff(strg: Storage, now: int, args: seq<string>)
    ensures Execute(strg, now, args).IntResult? <==>
      && |args| == 2
      && Decimal.ParseOffset(args[1]).Some?
      && !Get(strg, args[0], now).Failed?
      && (Get(strg, args[0], now).Found? ==> Get(strg, args[0], now).value.BitMapValue?)
  {
  }

  /** The result depends on the storage only through the lookup of the key named in the arguments. */
  lemma DependsOnlyOnLookup(strg1: Storage, strg2: Storage, now: int, args: seq<string>)
    requires |args| == 2 ==> Get(strg1, args[0], now) == Get(strg2, args[0], now)
    ensures Execute(strg1, now, args) == Execute(strg2, now, args)
  {
  }

  // ---------------------------------------------------------------------------
  // Bit extraction

  /**
   On a stored bitmap, GETBIT at any valid offset string returns bit `offset`
   of the little-endian number the words spell, where `offset` is the number
   the string denotes (leading zeros included).
   */
  lemma ReadsBitOfBitmap(strg: Storage, now: int, key: Key, s: string)
    requires Decimal.ParseOffset(s).Some?
    requires Get(strg, key, now).Found? && Get(strg, key, now).value.BitMapValue?
    ensures Execute(strg, now, [key, s]) ==
      IntResult(BitMap.Bit(BitMap.Num(Get(strg, key, now).value.words), Decimal.ParseOffset(s).value))
  {
    BitMap.ReadBitIsNumBit(Get(strg, key, now).value.words, Decimal.ParseOffset(s).value);
  }

  /** Every natural number written in decimal addresses that bit of a stored bitmap. */
  lemma ReadsBitAtRenderedOffset(strg: Storage, now: int, key: Key, offset: nat)
    requires Get(strg, key, now).Found? && Get(strg, key, now).value.BitMapValue?
    ensures Execute(strg, now, [key, Decimal.Render(offset)]) ==
      IntResult(BitMap.Bit(BitMap.Num(Get(strg, key, now).value.words), offset))
  {
    Decimal.ParseRender(offset);
    ReadsBitOfBitmap(strg, now, key, Decimal.Render(offset));
  }

  /** Offsets at or past 64 bits per stored word read as 0, never an error. */
  lemma PastEndReadsZero(strg: Storage, now: int, key: Key, s: string)
    requires Decimal.ParseOffset(s).Some?
    requires Get(strg, key, now).Found? && Get(strg, key, now).value.BitMapValue?
    requires Decimal.ParseOffset(s).value >= BitMap.WordWidth * |Get(strg, key, now).value.words|
    ensures Execute(strg, now, [key, s]) == IntResult(0)
  {
    ReadsBitOfBitmap(strg, now, key, s);
    BitMap.NumPastEnd(Get(strg, key, now).value.words, Decimal.ParseOffset(s).value);
  }
}
