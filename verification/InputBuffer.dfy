/** The padded input buffer that is reused across documents and calls (Input_Buffer in deserialize.hpp). */
module InputBuffers {
  import opened Values

  const SIMDJSON_PADDING: nat := 64
  const MAX_RETAINED_CAPACITY: nat := 0x400_0000  // 64 MiB

  /** What the parser is handed: the document, and zeros after it. */
  function Padded(json: Bytes): Bytes {
    json + seq(SIMDJSON_PADDING, _ => 0)
  }

  /** The parser sees the document and 64 zeros after it. */
  lemma PaddedIs(json: Bytes)
    ensures var seen := Padded(json);
            && |seen| == |json| + 64 && seen[..|json|] == json
            && forall k | |json| <= k < |seen| :: seen[k] == 0
  {
  }

  datatype Event = Parse(json: Bytes) | Release | EndScope

  /** The capacity held after an event, if a buffer is held at all. */
  function Step(held: Option<nat>, e: Event): Option<nat> {
    match e
    case Parse(json) => if held == None || |json| > held.value then Some(|json|) else held
    case Release => None
    case EndScope => if held.Some? && held.value > MAX_RETAINED_CAPACITY then None else held
  }

  function Run(events: seq<Event>): Option<nat> {
    if events == [] then None else Step(Run(events[..|events| - 1]), events[|events| - 1])
  }

  /** What a release gives back. */
  function Footprint(held: Option<nat>): nat {
    if held == None then 0 else held.value + SIMDJSON_PADDING
  }

  class InputBuffer {
    var data: array?<Byte>
    var capacity: nat  // the longest document that fits in front of the padding

    predicate Valid()
      reads this
    {
      if data == null then capacity == 0 else data.Length == capacity + SIMDJSON_PADDING
    }

    function Held(): Option<nat>
      reads this
    {
      if data == null then None else Some(capacity)
    }

    constructor ()
      ensures Valid() && data == null
    {
      data, capacity := null, 0;
    }

    /** Copies a document into the buffer, growing it if needed; `seen` is all that the parser may read. */
    method ParseDocument(json: Bytes) returns (seen: Bytes)
      requires Valid()
      modifies this, data
      ensures Valid() && (data == old(data) || fresh(data)) && Held() == Step(old(Held()), Parse(json))
      ensures data != null && |json| <= capacity && seen == data[..|json| + SIMDJSON_PADDING] == Padded(json)
    {
      if data == null || |json| > capacity {
        data := new Byte[|json| + SIMDJSON_PADDING];
        capacity := |json|;
      }
      var buffer: array<Byte> := data;
      forall i | 0 <= i < |json| {
        buffer[i] := json[i];
      }
      forall i | |json| <= i < |json| + SIMDJSON_PADDING {
        buffer[i] := 0;
      }
      seen := data[..|json| + SIMDJSON_PADDING];
    }

    /** Frees the buffer and tells how many bytes that were. */
    method ReleaseBuffer() returns (freed: nat)
      requires Valid()
      modifies this
      ensures Valid() && Held() == None && freed == Footprint(old(Held()))
      ensures freed == if old(data) == null then 0 else old(data.Length)
    {
      freed := if data != null then capacity + SIMDJSON_PADDING else 0;
      data, capacity := null, 0;
    }

    /** The end of a call: an unusually large buffer is not kept. */
    method End()
      requires Valid()
      modifies this
      ensures Valid() && Held() == Step(old(Held()), EndScope) && (data == null || data == old(data))
      ensures capacity <= MAX_RETAINED_CAPACITY
    {
      if capacity > MAX_RETAINED_CAPACITY {
        var _ := ReleaseBuffer();
      }
    }
  }

  /** The sizes of the documents parsed since the buffer was last let go. */
  function SizesSinceRelease(events: seq<Event>): seq<nat> {
    if events == [] then []
    else
      var sizes := SizesSinceRelease(events[..|events| - 1]);
      match events[|events| - 1]
      case Parse(json) => sizes + [|json|]
      case Release => []
      case EndScope => if exists s | s in sizes :: s > MAX_RETAINED_CAPACITY then [] else sizes
  }

  predicate IsLargest(n: nat, sizes: seq<nat>) {
    n in sizes && forall s | s in sizes :: s <= n
  }

  /** Over any run, the capacity is that of the largest document since the last release. */
  lemma {:induction false} CapacityIsLargest(events: seq<Event>)
    ensures if SizesSinceRelease(events) == [] then Run(events) == None
            else Run(events).Some? && IsLargest(Run(events).value, SizesSinceRelease(events))
  {
    if events != [] {
      CapacityIsLargest(events[..|events| - 1]);
    }
  }

  /** Between calls: only releases, and whole calls that parse documents and then end their scope. */
  predicate CallsEnded(events: seq<Event>) {
    events == [] || !events[|events| - 1].Parse?
  }

  /** Whatever was parsed, at most 64 MiB (and the padding) stay allocated between calls. */
  lemma BoundedBetweenCalls(events: seq<Event>)
    requires CallsEnded(events)
    ensures Footprint(Run(events)) <= 67108864 + 64
  {
  }

  /** The end of a call keeps a buffer exactly if it holds at most 64 MiB. */
  lemma KeptUpToLimit(events: seq<Event>)
    requires Run(events).Some?
    ensures Run(events + [EndScope]) == if Run(events).value <= 67108864 then Run(events) else None
  {
    assert (events + [EndScope])[..|events|] == events;
  }

  /** Over any run of a buffer: what each parse sees, what each release frees, and what is held in the end. */
  method Replay(events: seq<Event>) returns (seen: seq<Bytes>, freed: seq<nat>, held: Option<nat>)
    ensures |seen| == |freed| == |events| && held == Run(events)
    ensures forall k | 0 <= k < |events| && events[k].Parse? :: seen[k] == Padded(events[k].json)
    ensures forall k | 0 <= k < |events| && events[k].Release? :: freed[k] == Footprint(Run(events[..k]))
  {
    var buffer := new InputBuffer();
    seen, freed := [], [];
    for k := 0 to |events|
      invariant fresh(buffer) && buffer.Valid() && (buffer.data == null || fresh(buffer.data))
      invariant |seen| == |freed| == k && buffer.Held() == Run(events[..k])
      invariant forall m | 0 <= m < k && events[m].Parse? :: seen[m] == Padded(events[m].json)
      invariant forall m | 0 <= m < k && events[m].Release? :: freed[m] == Footprint(Run(events[..m]))
    {
      assert events[..k + 1][..k] == events[..k];
      match events[k]
      case Parse(json) =>
        var bytes := buffer.ParseDocument(json);
        seen, freed := seen + [bytes], freed + [0];
      case Release =>
        var n := buffer.ReleaseBuffer();
        seen, freed := seen + [[]], freed + [n];
      case EndScope =>
        buffer.End();
        seen, freed := seen + [[]], freed + [0];
    }
    assert events[..|events|] == events;
    held := buffer.Held();
  }
}
