/**
 The GETBIT test table, one lemma per row, each proved of the model for every
 time `now`. The fixture storage holds a string, two bitmaps, and a bitmap whose
 expiration time is one second before `now`.
 */
module GetBitTest {
  import BitMap
  import opened Storage
  import opened Command
  import opened GetBit

  /** The in-memory storage every row of the table runs against. */
  function Fixture(now: int): (s: Storage)
    ensures s.Memory?
    ensures s.data.Keys == {"string", "bitmap", "bitmap_with_big_offset", "expired_bitmap"}
    ensures s.data["string"].StringValue? && s.data["bitmap_with_big_offset"] == NewBitMapValue([0, 3])
    ensures s.data["expired_bitmap"].IsExpired(now) && !s.data["expired_bitmap"].IsExpired(now - 1)
    ensures forall k :: k in s.data && k != "expired_bitmap" ==> s.data[k].ttl.None?
  {
    Memory(map[
      "string" := NewStringValue("string"),
      "bitmap" := NewBitMapValue([BitMap.Pow2(5)]),
      "bitmap_with_big_offset" := NewBitMapValue([0, 3]),
      "expired_bitmap" := NewBitMapValue([BitMap.Pow2(10)]).SetTTL(now - 1)
    ])
  }

  lemma NameIsGetBit()
    ensures Name() == "GETBIT"
  {
  }

  lemma HelpText()
    ensures Help() ==
      "Usage: GETBIT key offset" + "\n" +
      "Returns the bit value at offset in the string value stored at key."
  {
  }

  lemma SetBit(now: int)
    ensures Execute(Fixture(now), now, ["bitmap", "5"]) == IntResult(1)
  {
  }

  lemma UnsetBit(now: int)
    ensures Execute(Fixture(now), now, ["bitmap", "10"]) == IntResult(0)
  {
  }

  lemma BigOffsetSecondWordLowBit(now: int)
    ensures Execute(Fixture(now), now, ["bitmap_with_big_offset", "64"]) == IntResult(1)
  {
  }

  lemma BigOffsetSecondWordNextBit(now: int)
    ensures Execute(Fixture(now), now, ["bitmap_with_big_offset", "65"]) == IntResult(1)
  {
  }

  lemma BigOffsetPastEnd(now: int)
    ensures Execute(Fixture(now), now, ["bitmap_with_big_offset", "1000"]) == IntResult(0)
  {
  }

  lemma KeyNotExistsReadsZero(now: int)
    ensures Execute(Fixture(now), now, ["key_not_exists", "0"]) == IntResult(0)
  {
  }

  lemma ExpiredKeyReadsZero(now: int)
    ensures Execute(Fixture(now), now, ["expired_bitmap", "10"]) == IntResult(0)
  {
  }

  lemma WrongTypeOperation(now: int)
    ensures Execute(Fixture(now), now, ["string", "1"]) == ErrResult(WrongTypeOp)
  {
  }

  lemma OneArgument(now: int)
    ensures Execute(Fixture(now), now, ["key1"]) == ErrResult(WrongArgsNumber)
  {
  }

  lemma NoArguments(now: int)
    ensures Execute(Fixture(now), now, []) == ErrResult(WrongArgsNumber)
  {
  }

  lemma NegativeOffset(now: int)
    ensures Execute(Fixture(now), now, ["bitmap", "-1"]) == ErrResult(InvalidOffset)
  {
  }

  lemma OffsetNotInteger(now: int)
    ensures Execute(Fixture(now), now, ["bitmap", "string"]) == ErrResult(InvalidOffset)
  {
  }

  /** A backend whose lookup fails: the failure is GETBIT's result. */
  lemma StorageErr(now: int)
    ensures Execute(Failing("error"), now, ["key", "10"]) == ErrResult(StorageFailure("error"))
  {
  }
}
