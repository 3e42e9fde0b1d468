/** The cache of short strings (Charsxp_Cache in common.hpp). */
module CharsxpCaches {
  import opened Values

  const N_SLOTS: nat := 1024
  const MAX_KEY_LENGTH: nat := 24

  /** An R string object. */
  class Charsxp {
    const bytes: Bytes

    constructor (bytes: Bytes)
      ensures this.bytes == bytes
    {
      this.bytes := bytes;
    }
  }

  method MakeCharsxp(sv: Bytes) returns (r: Result<Charsxp>)
    ensures match Made(sv)
            case Success(bytes) => r.Success? && fresh(r.value) && r.value.bytes == bytes
            case Failure(e) => r == Failure(e)
  {
    var bytes :- Made(sv);
    var charsxp := new Charsxp(bytes);
    r := Success(charsxp);
  }

  function HashStart(length: nat): bv32
    requires length <= MAX_KEY_LENGTH
  {
    2166136261 ^ (length as bv32)
  }

  function HashStep(h: bv32, c: Byte): bv32 {
    (h ^ (c as bv32)) * 16777619
  }

  function HashEnd(h: bv32): (i: nat)
    ensures i < N_SLOTS
  {
    ((h ^ (h >> 16)) as nat) % N_SLOTS
  }

  function HashState(start: bv32, sv: Bytes): bv32 {
    if sv == [] then start else HashStep(HashState(start, sv[..|sv| - 1]), sv[|sv| - 1])
  }

  /** The slot of a short string: one hash step for each byte, from a start that depends on the length. */
  function SlotIndex(sv: Bytes): (i: nat)
    requires |sv| <= MAX_KEY_LENGTH
    ensures i < N_SLOTS
  {
    HashEnd(HashState(HashStart(|sv|), sv))
  }

  /** Room for a short string; only the first `length` bytes matter. */
  datatype Slot = Slot(length: nat, bytes: Bytes)

  ghost predicate SlotHolds(slot: Slot, sv: Bytes) {
    slot.length <= |slot.bytes| == MAX_KEY_LENGTH && slot.bytes[..slot.length] == sv
  }

  /** The slot with a short string written over what it held. */
  function Store(slot: Slot, sv: Bytes): (r: Slot)
    requires |slot.bytes| == MAX_KEY_LENGTH && |sv| <= MAX_KEY_LENGTH
    ensures SlotHolds(r, sv)
  {
    Slot(|sv|, sv + slot.bytes[|sv|..])
  }

  /** A cached string matches its slot, lives in the slot its bytes hash to, and is kept alive. */
  ghost predicate EntryHolds(i: nat, slot: Slot, value: Charsxp?, kept: Charsxp?) {
    && |slot.bytes| == MAX_KEY_LENGTH
    && (value != null ==>
          SlotHolds(slot, value.bytes) && SlotIndex(value.bytes) == i && !EmbedsNul(value.bytes) && kept == value)
  }

  const EMPTY_SLOT: Slot := Slot(0, seq(MAX_KEY_LENGTH, _ => 0))

  class CharsxpCache {
    const slots: array<Slot>
    const values: array<Charsxp?>
    var keepAlive: array?<Charsxp?>

    /** Three tables of one size, apart from each other, with every entry in order. */
    ghost predicate Valid()
      reads this, slots, values, keepAlive
    {
      && slots.Length == values.Length == N_SLOTS
      && values != keepAlive
      && (keepAlive != null ==> keepAlive.Length == N_SLOTS)
      && forall i | 0 <= i < N_SLOTS ::
           EntryHolds(i, slots[i], values[i], if keepAlive == null then null else keepAlive[i])
    }

    constructor ()
      ensures Valid() && fresh(slots) && fresh(values) && keepAlive == null
    {
      slots := new Slot[N_SLOTS](_ => EMPTY_SLOT);
      values := new Charsxp?[N_SLOTS](_ => null);
      keepAlive := null;
    }

    static method Hash(sv: Bytes) returns (i: nat)
      requires |sv| <= MAX_KEY_LENGTH
      ensures i == SlotIndex(sv)
    {
      hide HashStart, HashStep, HashEnd;
      var h := HashStart(|sv|);
      for k := 0 to |sv|
        invariant h == HashState(HashStart(|sv|), sv[..k])
      {
        assert sv[..k + 1][..k] == sv[..k];
        h := HashStep(h, sv[k]);
      }
      assert sv[..|sv|] == sv;
      i := HashEnd(h);
    }

    static method Same(slot: Slot, sv: Bytes) returns (same: bool)
      requires |slot.bytes| == MAX_KEY_LENGTH && |sv| <= MAX_KEY_LENGTH
      ensures same <==> SlotHolds(slot, sv)
    {
      if slot.length != |sv| {
        return false;
      }
      for i := 0 to |sv|
        invariant slot.bytes[..i] == sv[..i]
      {
        if slot.bytes[i] != sv[i] {
          assert slot.bytes[..slot.length][i] != sv[i];
          return false;
        }
      }
      return true;
    }

    /** Indistinguishable from MakeCharsxp(), whatever was cached, evicted or refused before. */
    method Get(sv: Bytes) returns (r: Result<Charsxp>)
      requires Valid()
      modifies this, values, slots, keepAlive
      ensures Valid() && (keepAlive == old(keepAlive) || fresh(keepAlive))
      ensures match Made(sv)
              case Success(bytes) => r.Success? && r.value.bytes == bytes
              case Failure(e) => r == Failure(e)
      ensures r.Success? && |sv| <= MAX_KEY_LENGTH ==> values[SlotIndex(sv)] == r.value
      ensures |sv| <= MAX_KEY_LENGTH ==>
                var cached := old(values[SlotIndex(sv)]);
                cached != null && cached.bytes == sv ==> r == Success(cached)
      ensures forall i | 0 <= i < N_SLOTS && (|sv| > MAX_KEY_LENGTH || r.Failure? || i != SlotIndex(sv)) ::
                values[i] == old(values[i])
    {
      if |sv| > MAX_KEY_LENGTH {
        r := MakeCharsxp(sv);
        return;
      }
      hide SlotIndex, SlotHolds, Store;
      var i := Hash(sv);
      if values[i] != null {
        var same := Same(slots[i], sv);
        if same {
          return Success(values[i]);
        }
      }
      if keepAlive == null {
        keepAlive := new Charsxp?[N_SLOTS](_ => null);
      }
      var charsxp :- MakeCharsxp(sv);
      keepAlive[i] := charsxp;
      values[i] := charsxp;
      slots[i] := Store(slots[i], sv);
      r := Success(charsxp);
    }

    /** Empties the cache and lets go of its strings. */
    method Clear()
      requires Valid()
      modifies this, slots, values
      ensures Valid() && keepAlive == null && forall i | 0 <= i < N_SLOTS :: values[i] == null
    {
      keepAlive := null;
      forall i | 0 <= i < slots.Length {
        slots[i] := EMPTY_SLOT;
      }
      forall i | 0 <= i < values.Length {
        values[i] := null;
      }
    }
  }

  datatype Call = CallGet(sv: Bytes) | CallClear

  /** Over any sequence of calls, each string comes out as it would without the cache. */
  method Replay(calls: seq<Call>) returns (results: seq<Result<Bytes>>)
    ensures |results| == |calls|
    ensures forall k | 0 <= k < |calls| && calls[k].CallGet? :: results[k] == Made(calls[k].sv)
  {
    var cache := new CharsxpCache();
    results := [];
    for k := 0 to |calls|
      invariant cache.Valid() && fresh(cache) && fresh(cache.slots) && fresh(cache.values)
      invariant cache.keepAlive == null || fresh(cache.keepAlive)
      invariant |results| == k
      invariant forall m | 0 <= m < k && calls[m].CallGet? :: results[m] == Made(calls[m].sv)
    {
      match calls[k]
      case CallGet(sv) =>
        var r := cache.Get(sv);
        results := results + [if r.Success? then Success(r.value.bytes) else Failure(r.error)];
      case CallClear =>
        cache.Clear();
        results := results + [Success([])];
    }
  }
}
