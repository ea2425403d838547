/**
 Stored values and the lookup contract of the key-value storage.

 A value is a string or a bitmap and may carry an absolute expiration time.
 Expiry is lazy: an expired value may still be physically present, but a lookup
 treats it as absent. Time enters as the explicit parameter `now`, compared with
 the expiration time as an integer. A backend whose lookups fail (an I/O fault,
 say) is a storage of its own kind, so a lookup has three outcomes: found, not
 found, and failure.
 */
module Storage {
  import opened Wrappers
  import BitMap

  type Key = string

  /** A backend failure, carried as its message; callers pass it on without looking inside. */
  type StorageError = string

  /** The kind of a stored value; it never changes once the value exists. */
  datatype DataType = StringDataType | BitMapDataType

  datatype Value =
    | StringValue(text: string, ttl: Option<int>)
    | BitMapValue(words: seq<BitMap.Word>, ttl: Option<int>)
  {
    function Type(): (t: DataType)
      ensures t == BitMapDataType <==> BitMapValue?
    {
      match this
      case StringValue(_, _) => StringDataType
      case BitMapValue(_, _) => BitMapDataType
    }

    /** Expired once the expiration time lies in the past; a value without one never expires. */
    predicate IsExpired(now: int): (b: bool)
      ensures ttl.None? ==> !b
      ensures ttl.Some? ==> (b <==> ttl.value < now)
    {
      ttl.Some? && ttl.value < now
    }

    /** The same value with expiration time `at`: kind and payload are kept. */
    function SetTTL(at: int): (v: Value)
      ensures v.Type() == Type()
      ensures v.ttl == Some(at)
      ensures v.(ttl := ttl) == this
    {
      this.(ttl := Some(at))
    }
  }

  /** A fresh string value without expiration. */
  function NewStringValue(text: string): (v: Value)
    ensures v.StringValue? && v.text == text && v.ttl == None
    ensures forall now :: !v.IsExpired(now)
  {
    StringValue(text, None)
  }

  /** A fresh bitmap value without expiration. */
  function NewBitMapValue(words: seq<BitMap.Word>): (v: Value)
    ensures v.BitMapValue? && v.words == words && v.ttl == None
    ensures forall now :: !v.IsExpired(now)
  {
    BitMapValue(words, None)
  }

  /**
   A storage backend: the in-memory mapping from keys to values, or a backend
   whose every lookup fails with the same error.
   */
  datatype Storage =
    | Memory(data: map<Key, Value>)
    | Failing(fault: StorageError)

  datatype GetResult =
    | Found(value: Value)
    | KeyNotExists
    | Failed(fault: StorageError)

  /** Looks up key at time now. */
  function Get(strg: Storage, key: Key, now: int): (r: GetResult)
    ensures r.Found? <==> strg.Memory? && key in strg.data && !strg.data[key].IsExpired(now)
    ensures r.Found? ==> r.value == strg.data[key]
    ensures r.Failed? <==> strg.Failing?
    ensures r.Failed? ==> r.fault == strg.fault
  {
    match strg
    case Failing(fault) => Failed(fault)
    case Memory(data) =>
      if key in data && !data[key].IsExpired(now) then Found(data[key]) else KeyNotExists
  }

  // ---------------------------------------------------------------------------

  /** A key whose value has expired is looked up exactly as if it had been deleted. */
  lemma ExpiredIsAbsent(data: map<Key, Value>, key: Key, now: int)
    requires key in data && data[key].IsExpired(now)
    ensures Get(Memory(data), key, now) == Get(Memory(data - {key}), key, now) == KeyNotExists
  {
  }

  /** Expiry is permanent: a key that is not found stays not found as time goes on. */
  lemma ExpiryIsPermanent(strg: Storage, key: Key, now: int, later: int)
    requires Get(strg, key, now) == KeyNotExists && now <= later
    ensures Get(strg, key, later) == KeyNotExists
  {
  }

  /** A lookup of key depends on the value stored at key alone. */
  lemma GetIgnoresOtherKeys(data: map<Key, Value>, key: Key, other: Key, v: Value, now: int)
    requires other != key
    ensures Get(Memory(data[other := v]), key, now) == Get(Memory(data), key, now)
  {
  }
}
