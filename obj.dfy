/**
 * The reference-counted value wrapper of obj.go: a type tag, a payload and a
 * reference count. The payload is Go's `interface{}`; only strings matter to
 * the rest of the model, every other payload is an opaque handle.
 */
module Obj {
  import opened Strconv

  /** RedisType is a uint8 in the source. */
  newtype RedisType = x: int | 0 <= x < 256

  const REDISSTR: RedisType := 1
  const REDISLIST: RedisType := 2
  const REDISDICT: RedisType := 3

  /** The dynamic value held in `Val_`: nil, a Go string, or some other Go value. */
  datatype RedisVal = Nil | Str(s: string) | Other(handle: nat)

  /** `Val_.(string)` succeeds only on a string payload; StrVal and IntVal need it for string objects. */
  predicate PayloadReadable(t: RedisType, v: RedisVal)
  {
    t == REDISSTR ==> v.Str?
  }

  /**
   * The payload of an object after n DecrRefCount calls in a row from count
   * c: cleared when one of them brings the count to 0, otherwise v.
   */
  function PayloadAfterDecrs(v: RedisVal, c: int, n: nat): RedisVal
  {
    if 1 <= c <= n then Nil else v
  }

  class RedisObj {
    /** `Type_` is set at creation and never reassigned. */
    const type_: RedisType
    var val_: RedisVal
    var refCount: int

    /** CreateObject: a new object holding v with a reference count of 1. */
    constructor CreateObject(t: RedisType, v: RedisVal)
      ensures type_ == t && val_ == v && refCount == 1
    {
      type_ := t;
      val_ := v;
      refCount := 1;
    }

    /** CreateFromInt: a new string object holding the decimal form of n, whose IntVal is n. */
    constructor CreateFromInt(n: int)
      requires MIN_INT64 <= n <= MAX_INT64
      ensures type_ == REDISSTR && val_ == Str(FormatInt(n)) && refCount == 1
      ensures IntVal() == n
    {
      type_ := REDISSTR;
      val_ := Str(FormatInt(n));
      refCount := 1;
      new;
      ParseFormatIgnoringError(n);
    }

    /** The payload string of a string object, "" for every other type. */
    function StrVal(): (r: string)
      reads this
      requires PayloadReadable(type_, val_)
      ensures type_ != REDISSTR ==> r == ""
      ensures type_ == REDISSTR ==> r == val_.s
    {
      if type_ != REDISSTR then "" else val_.s
    }

    /**
     * ParseInt of the payload with the error discarded: 0 for a non-string type
     * or a malformed string, the clamped bound on overflow; always an int64.
     */
    function IntVal(): (r: int)
      reads this
      requires PayloadReadable(type_, val_)
      ensures MIN_INT64 <= r <= MAX_INT64
      ensures type_ != REDISSTR ==> r == 0
    {
      if type_ != REDISSTR then 0 else ParseIntIgnoringError(val_.s)
    }

    method IncrRefCount()
      modifies this
      ensures refCount == old(refCount) + 1 && val_ == old(val_)
    {
      refCount := refCount + 1;
    }

    /** The payload is dropped exactly when the count reaches zero. */
    method DecrRefCount()
      modifies this
      ensures refCount == old(refCount) - 1
      ensures val_ == if refCount == 0 then Nil else old(val_)
    {
      refCount := refCount - 1;
      if refCount == 0 {
        val_ := Nil;
      }
    }
  }
}
