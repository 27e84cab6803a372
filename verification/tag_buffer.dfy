/** Tag identities and the two per-tag receive buffers: the latest-version-only
    buffer used by subscriptions and the FIFO buffer used by reduce groups.
    Versions are std::uint32_t and "no data" is the all-ones value, so adding
    one to it wraps to version 0. */
module TagBuffer {
  import opened CInts
  import opened Types

  const TagNoData: U32 := Two32 - 1

  /** A typed tag's id: its kind marker followed by the user's name. */
  function TagId(kind: TagKind, name: TagID): (id: TagID)
    ensures |id| == |name| + 1 && id[0] == Marker(kind) && id[1..] == name
  {
    [Marker(kind)] + name
  }

  /** Every typed tag id is a well-formed tag name, and the id determines both
      the kind and the name. */
  lemma TagIdOkay(kind: TagKind, name: TagID)
    ensures TagNameOkay(TagId(kind, name))
  {
  }

  lemma TagIdInjective(k1: TagKind, n1: TagID, k2: TagKind, n2: TagID)
    requires TagId(k1, n1) == TagId(k2, n2)
    ensures k1 == k2 && n1 == n2
  {
    assert TagId(k1, n1)[1..] == n1;
    MarkersDistinct(k1, k2);
  }

  /** The span has one element per expected type, each holding the expected
      alternative. */
  function SpanIsValid(value: Span, expected: seq<U8>): (ok: bool)
    ensures ok <==> |value| == |expected|
                    && forall i :: 0 <= i < |value| ==> value[i].typeIndex == expected[i]
  {
    if |value| == 0 || |expected| == 0 then |value| == |expected|
    else value[0].typeIndex == expected[0] && SpanIsValid(value[1..], expected[1..])
  }

  // ---------------------------------------------------------------------
  // Latest-version buffer
  // ---------------------------------------------------------------------

  /** The stored value is kept across a reset; only the versions are cleared. */
  datatype DiscardOld = DiscardOld(value: Span, stored: U32, lastFetched: U32)

  function NewDiscardOld(): DiscardOld
  {
    DiscardOld([], TagNoData, TagNoData)
  }

  /** Something has been stored and it is newer than what was last fetched
      (`last_fetched + 1` wraps to 0 while nothing has been fetched). */
  predicate HasData(b: DiscardOld)
  {
    b.stored != TagNoData && b.stored >= Inc32(b.lastFetched)
  }

  /** Fetches the stored value and records its version as fetched. */
  function Get(b: DiscardOld): (r: (Span, DiscardOld))
    requires HasData(b)
    ensures r.0 == b.value
    ensures r.1 == b.(lastFetched := b.stored)
    ensures !HasData(r.1)
  {
    (b.value, b.(lastFetched := b.stored))
  }

  /** Stores the value when its version is newer than the stored one or nothing
      is stored; otherwise the buffer is left as it is. */
  function Add(b: DiscardOld, value: Span, version: U32): (r: DiscardOld)
    ensures version > b.stored || b.stored == TagNoData ==>
              r == b.(value := value, stored := version)
    ensures version <= b.stored && b.stored != TagNoData ==> r == b
  {
    if version > b.stored || b.stored == TagNoData then b.(value := value, stored := version)
    else b
  }

  function Reset(b: DiscardOld): (r: DiscardOld)
    ensures r.stored == TagNoData && r.lastFetched == TagNoData
    ensures !HasData(r)
  {
    b.(stored := TagNoData, lastFetched := TagNoData)
  }

  /** The versions of a latest-version buffer only ever satisfy this: what was
      fetched is no newer than what is stored. */
  predicate DiscardOldValid(b: DiscardOld)
  {
    b.lastFetched == TagNoData || (b.stored != TagNoData && b.lastFetched <= b.stored)
  }

  lemma DiscardOldOperationsPreserveValid(b: DiscardOld, value: Span, version: U32)
    requires DiscardOldValid(b)
    ensures DiscardOldValid(NewDiscardOld())
    ensures DiscardOldValid(Reset(b))
    ensures version != TagNoData ==> DiscardOldValid(Add(b, value, version))
    ensures HasData(b) ==> DiscardOldValid(Get(b).1)
  {
  }

  /** After a reset, any add of a real version makes data available. */
  lemma AddAfterResetHasData(b: DiscardOld, value: Span, version: U32)
    requires version != TagNoData
    ensures HasData(Add(Reset(b), value, version))
    ensures Get(Add(Reset(b), value, version)).0 == value
  {
  }

  /** Once fetched, data is available again exactly when a strictly newer
      version arrives. */
  lemma NewerAddAfterGet(b: DiscardOld, value: Span, version: U32)
    requires HasData(b)
    requires version != TagNoData
    ensures HasData(Add(Get(b).1, value, version)) <==> version > b.stored
  {
  }

  // ---------------------------------------------------------------------
  // FIFO buffer
  // ---------------------------------------------------------------------

  datatype Entry = Entry(value: Span, version: U32)

  datatype Fifo = Fifo(buffer: seq<Entry>, lastStored: U32, lastFetched: U32)

  function NewFifo(): Fifo
  {
    Fifo([], TagNoData, TagNoData)
  }

  /** Some entry holds version v or newer: the condition under which `get(v)`
      finds an entry before the buffer runs dry. */
  predicate Available(buffer: seq<Entry>, v: U32)
  {
    exists i :: 0 <= i < |buffer| && buffer[i].version >= v
  }

  /** `has_data(v)`: the buffer is non-empty and its last entry is at least v. */
  predicate FifoHasData(b: Fifo, v: U32)
  {
    |b.buffer| > 0 && b.buffer[|b.buffer| - 1].version >= v
  }

  lemma HasDataAvailable(b: Fifo, v: U32)
    requires FifoHasData(b, v)
    ensures Available(b.buffer, v)
  {
    assert b.buffer[|b.buffer| - 1].version >= v;
  }

  /** The position of the first entry of version v or newer. */
  function FirstAtLeast(buffer: seq<Entry>, v: U32): (i: nat)
    requires Available(buffer, v)
    ensures i < |buffer| && buffer[i].version >= v
    ensures forall j :: 0 <= j < i ==> buffer[j].version < v
  {
    if buffer[0].version >= v then 0
    else
      var k :| 0 <= k < |buffer| && buffer[k].version >= v;
      assert Available(buffer[1..], v) by { assert buffer[1..][k - 1] == buffer[k]; }
      1 + FirstAtLeast(buffer[1..], v)
  }

  /** `get(v)`: drops leading entries older than v, then removes and returns the
      first entry of version v or newer, recording its version as fetched. */
  function FifoGet(b: Fifo, v: U32): (r: (Span, Fifo))
    requires Available(b.buffer, v)
    ensures var i := FirstAtLeast(b.buffer, v);
            r.0 == b.buffer[i].value
            && r.1 == Fifo(b.buffer[i + 1..], b.lastStored, b.buffer[i].version)
    decreases |b.buffer|
  {
    var front := b.buffer[0];
    if front.version >= v then
      (front.value, Fifo(b.buffer[1..], b.lastStored, front.version))
    else
      assert Available(b.buffer[1..], v) by {
        var k :| 0 <= k < |b.buffer| && b.buffer[k].version >= v;
        assert b.buffer[1..][k - 1] == b.buffer[k];
      }
      FifoGet(b.(buffer := b.buffer[1..]), v)
  }

  /** `add` as written: the guard compares against `last_stored_version_`, but
      nothing ever assigns that field, so it stays "no data" and every value is
      appended. */
  function FifoAddAsWritten(b: Fifo, value: Span, version: U32): (r: Fifo)
    ensures r.lastStored == b.lastStored && r.lastFetched == b.lastFetched
    ensures b.lastStored == TagNoData ==>
              r == b.(buffer := b.buffer + [Entry(value, version)])
  {
    if version > b.lastStored || b.lastStored == TagNoData then
      b.(buffer := b.buffer + [Entry(value, version)])
    else b
  }

  /** The documented behaviour: only versions newer than the last stored one
      are kept, and the stored version is recorded. */
  function FifoAdd(b: Fifo, value: Span, version: U32): (r: Fifo)
    ensures version > b.lastStored || b.lastStored == TagNoData ==>
              r == Fifo(b.buffer + [Entry(value, version)], version, b.lastFetched)
    ensures version <= b.lastStored && b.lastStored != TagNoData ==> r == b
  {
    if version > b.lastStored || b.lastStored == TagNoData then
      Fifo(b.buffer + [Entry(value, version)], version, b.lastFetched)
    else b
  }

  function FifoReset(b: Fifo): (r: Fifo)
    ensures r.buffer == [] && r.lastStored == TagNoData && r.lastFetched == TagNoData
  {
    Fifo([], TagNoData, TagNoData)
  }

  /** The buffer holds strictly increasing versions, the last of which is the
      last stored version. */
  predicate FifoValid(b: Fifo)
  {
    (forall i, j :: 0 <= i < j < |b.buffer| ==> b.buffer[i].version < b.buffer[j].version)
    && (|b.buffer| > 0 ==> b.buffer[|b.buffer| - 1].version == b.lastStored)
    && (b.lastStored == TagNoData ==> |b.buffer| == 0)
  }

  lemma FifoAddPreservesValid(b: Fifo, value: Span, version: U32)
    requires FifoValid(b)
    requires version != TagNoData
    ensures FifoValid(FifoAdd(b, value, version))
  {
  }

  /** Dropping a prefix of a valid buffer leaves a valid buffer. */
  lemma SuffixValid(b: Fifo, k: nat, fetched: U32)
    requires FifoValid(b)
    requires k <= |b.buffer|
    ensures FifoValid(Fifo(b.buffer[k..], b.lastStored, fetched))
  {
    var rest := b.buffer[k..];
    forall p, q | 0 <= p < q < |rest|
      ensures rest[p].version < rest[q].version
    {
      assert rest[p] == b.buffer[k + p];
      assert rest[q] == b.buffer[k + q];
    }
    if |rest| > 0 {
      assert rest[|rest| - 1] == b.buffer[|b.buffer| - 1];
    }
  }

  lemma FifoGetPreservesValid(b: Fifo, v: U32)
    requires FifoValid(b)
    requires Available(b.buffer, v)
    ensures FifoValid(FifoGet(b, v).1)
  {
    var i := FirstAtLeast(b.buffer, v);
    SuffixValid(b, i + 1, b.buffer[i].version);
  }

  lemma FifoResetValid(b: Fifo)
    ensures FifoValid(FifoReset(b))
    ensures FifoValid(NewFifo())
  {
  }

  /** In a valid buffer `has_data(v)` is exactly the condition under which
      `get(v)` succeeds. */
  lemma FifoHasDataIffAvailable(b: Fifo, v: U32)
    requires FifoValid(b)
    ensures FifoHasData(b, v) <==> Available(b.buffer, v)
  {
    if Available(b.buffer, v) {
      var k :| 0 <= k < |b.buffer| && b.buffer[k].version >= v;
      if k < |b.buffer| - 1 {
        assert b.buffer[k].version < b.buffer[|b.buffer| - 1].version;
      }
    }
  }

  /** Two adds of the same version leave two entries in the buffer as written,
      but only one in the documented buffer. */
  lemma FifoAddAsWrittenKeepsDuplicates(value: Span, version: U32)
    ensures |FifoAddAsWritten(FifoAddAsWritten(NewFifo(), value, version), value, version).buffer| == 2
    ensures version != TagNoData ==> |FifoAdd(FifoAdd(NewFifo(), value, version), value, version).buffer| == 1
  {
  }
}
