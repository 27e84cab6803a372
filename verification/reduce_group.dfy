/** One member's view of a Skywing reduce group: three FIFO buffers (parent,
    left child, right child), the queue of reduces this member has started, and
    the disconnection bookkeeping. Every operation is a pure step from one
    state to the next, returning the messages the member would send. The
    buffers use the FIFO add as the code writes it (see the TagBuffer
    module): it appends every value it is given, older versions included. */
module ReduceGroup {
  import opened CInts
  import opened Types
  import opened TagBuffer

  /** A reduce this member has started and not yet completed. */
  datatype PendingReduce = PendingReduce(requiredVersion: U32, value: Span, op: (Span, Span) -> Span, isAllReduce: bool)

  /** What a step hands to the manager to send on. */
  datatype Message =
    | ToParent(version: U32, value: Span)
    | ToChildren(version: U32, value: Span)
    | DisconnectNotice(machine: MachineID, id: nat)

  datatype Group = Group(
    neighbors: ReduceGroupNeighbors,
    producedTag: TagID,
    expectedTypes: seq<U8>,
    buffers: seq<Fifo>,
    pending: seq<PendingReduce>,
    lastSent: U32,
    isValid: bool,
    connCounter: U16,
    lastHeard: map<MachineID, nat>)

  predicate WellFormed(g: Group)
  {
    g.neighbors.Valid() && |g.buffers| == 3 && NeverStored(g.buffers)
  }

  /** The add as written never assigns a buffer's last stored version, and
      nothing else does but reset, so it stays "no data" in all three. */
  predicate NeverStored(bs: seq<Fifo>)
    requires |bs| == 3
  {
    bs[0].lastStored == TagNoData && bs[1].lastStored == TagNoData && bs[2].lastStored == TagNoData
  }

  /** A freshly built member: empty buffers, nothing sent, valid. */
  function NewGroup(neighbors: ReduceGroupNeighbors, producedTag: TagID, expectedTypes: seq<U8>): (g: Group)
    requires neighbors.Valid()
    ensures WellFormed(g)
  {
    Group(neighbors, producedTag, expectedTypes, [NewFifo(), NewFifo(), NewFifo()], [], TagNoData, true, 0, map[])
  }

  /** The root (no parent) is the member whose reduce returns the value. */
  predicate ReturnsValueOnReduce(g: Group)
    requires WellFormed(g)
  {
    g.neighbors.Parent() == ""
  }

  // ---------------------------------------------------------------------
  // Processing the queue of pending reduces
  // ---------------------------------------------------------------------

  /** The children's contributions for the version have arrived: always with no
      children, buffer 1 with a left child only, buffers 1 and 2 with both. */
  predicate Ready(g: Group, version: U32)
    requires WellFormed(g)
  {
    if g.neighbors.LeftChild() == "" then true
    else if g.neighbors.RightChild() == "" then FifoHasData(g.buffers[1], version)
    else FifoHasData(g.buffers[1], version) && FifoHasData(g.buffers[2], version)
  }

  /** Combines the own value with the children's: the own value alone with no
      children, op(left, own) with a left child only, and op(op(left, own),
      right) with both. The children's values are taken out of their buffers. */
  function Combine(g: Group, p: PendingReduce): (r: (Span, seq<Fifo>))
    requires WellFormed(g)
    requires Ready(g, p.requiredVersion)
    ensures |r.1| == 3 && r.1[0] == g.buffers[0]
    ensures g.neighbors.LeftChild() == "" ==> r == (p.value, g.buffers)
    ensures g.neighbors.LeftChild() != "" ==>
              var b1 := g.buffers[1].buffer;
              Available(b1, p.requiredVersion)
              && var left := b1[FirstAtLeast(b1, p.requiredVersion)].value;
                 r.1[1] == FifoGet(g.buffers[1], p.requiredVersion).1
                 && (g.neighbors.RightChild() == "" ==> r.0 == p.op(left, p.value) && r.1[2] == g.buffers[2])
    ensures g.neighbors.LeftChild() != "" && g.neighbors.RightChild() != "" ==>
              var b1 := g.buffers[1].buffer;
              var b2 := g.buffers[2].buffer;
              Available(b1, p.requiredVersion) && Available(b2, p.requiredVersion)
              && var left := b1[FirstAtLeast(b1, p.requiredVersion)].value;
                 var right := b2[FirstAtLeast(b2, p.requiredVersion)].value;
                 r.0 == p.op(p.op(left, p.value), right)
                 && r.1[2] == FifoGet(g.buffers[2], p.requiredVersion).1
  {
    var v := p.requiredVersion;
    if g.neighbors.LeftChild() == "" then (p.value, g.buffers)
    else
      HasDataAvailable(g.buffers[1], v);
      var (left, b1) := FifoGet(g.buffers[1], v);
      if g.neighbors.RightChild() == "" then
        (p.op(left, p.value), [g.buffers[0], b1, g.buffers[2]])
      else
        HasDataAvailable(g.buffers[2], v);
        var (right, b2) := FifoGet(g.buffers[2], v);
        (p.op(p.op(left, p.value), right), [g.buffers[0], b1, b2])
  }

  /** Completes one ready reduce: records its version as sent, then the root
      keeps the result in buffer 0 (and passes it down for an allreduce) while
      any other member sends it to its parent. The queue is left alone. */
  function Complete(g: Group, p: PendingReduce): (r: (Group, seq<Message>))
    requires WellFormed(g)
    requires Ready(g, p.requiredVersion)
    ensures WellFormed(r.0)
    ensures r.0 == g.(lastSent := p.requiredVersion, buffers := r.0.buffers)
  {
    var (result, bs) := Combine(g, p);
    var g1 := g.(lastSent := p.requiredVersion, buffers := bs);
    if ReturnsValueOnReduce(g) then
      var g2 := g1.(buffers := bs[0 := FifoAddAsWritten(bs[0], result, p.requiredVersion)]);
      (g2, if p.isAllReduce then [ToChildren(p.requiredVersion, result)] else [])
    else
      (g1, [ToParent(p.requiredVersion, result)])
  }

  /** At the root, completing a reduce whose version buffer 0 does not hold
      yet makes the waiter at that version return exactly the combined value,
      for a reduce and an allreduce alike; only an allreduce passes the value
      down to the children. */
  lemma CompleteAtRoot(g: Group, p: PendingReduce, connId: U16, isAll: bool)
    requires WellFormed(g) && Ready(g, p.requiredVersion) && ReturnsValueOnReduce(g)
    requires !Available(g.buffers[0].buffer, p.requiredVersion)
    ensures var (g1, msgs) := Complete(g, p);
            var result := Combine(g, p).0;
            FifoHasData(g1.buffers[0], p.requiredVersion)
            && WaiterResult(g1, p.requiredVersion, connId, isAll).0 == Value(result)
            && msgs == (if p.isAllReduce then [ToChildren(p.requiredVersion, result)] else [])
  {
    var v := p.requiredVersion;
    var (result, bs) := Combine(g, p);
    var b0 := Complete(g, p).0.buffers[0];
    assert b0.buffer == g.buffers[0].buffer + [Entry(result, v)];
    forall j | 0 <= j < |g.buffers[0].buffer| ensures b0.buffer[j].version < v {
      assert b0.buffer[j] == g.buffers[0].buffer[j];
    }
    FirstAtEnd(b0.buffer, v);
  }

  /** The first entry at version v or newer is the last one when every
      earlier entry is older. */
  lemma FirstAtEnd(buffer: seq<Entry>, v: U32)
    requires |buffer| > 0 && buffer[|buffer| - 1].version >= v
    requires forall j :: 0 <= j < |buffer| - 1 ==> buffer[j].version < v
    ensures Available(buffer, v) && FirstAtLeast(buffer, v) == |buffer| - 1
  {
  }

  /** Below the root, completing a reduce sends the combined value to the
      parent, leaves buffer 0 alone, and releases the reduce's waiter, which
      yields no value unless a disconnection intervened. */
  lemma CompleteBelowRoot(g: Group, p: PendingReduce, connId: U16)
    requires WellFormed(g) && Ready(g, p.requiredVersion) && !ReturnsValueOnReduce(g)
    requires p.requiredVersion != TagNoData
    ensures var (g1, msgs) := Complete(g, p);
            msgs == [ToParent(p.requiredVersion, Combine(g, p).0)]
            && g1.buffers[0] == g.buffers[0]
            && WaiterReady(g1, p.requiredVersion, connId, false)
            && WaiterResult(g1, p.requiredVersion, connId, false).0
               == (if connId < g.connCounter || !g.isValid then Disconnection else NoValue)
  {
  }

  /** The parts of a member's state that processing the queue never touches. */
  predicate SameSetup(a: Group, b: Group)
  {
    a.neighbors == b.neighbors && a.isValid == b.isValid && a.connCounter == b.connCounter
    && a.lastHeard == b.lastHeard && a.producedTag == b.producedTag && a.expectedTypes == b.expectedTypes
  }

  /** `do_process_pending_reduce_ops`: completes pending reduces in queue order
      and stops at the first that is not ready; while the group is invalid every
      pending reduce is dropped unsent. What remains queued is a suffix of the
      queue. */
  function ProcessPending(g: Group): (r: (Group, seq<Message>))
    requires WellFormed(g)
    ensures WellFormed(r.0) && SameSetup(g, r.0)
    ensures |r.0.pending| <= |g.pending|
    decreases |g.pending|
  {
    if |g.pending| == 0 then (g, [])
    else if !g.isValid then ProcessPending(g.(pending := g.pending[1..]))
    else
      var p := g.pending[0];
      if !Ready(g, p.requiredVersion) then (g, [])
      else
        var (g1, m1) := Complete(g, p);
        var (g2, m2) := ProcessPending(g1.(pending := g.pending[1..]));
        (g2, m1 + m2)
  }

  /** What stays queued is a suffix of the queue. */
  lemma {:induction false} ProcessPendingSuffix(g: Group)
    requires WellFormed(g)
    ensures var r := ProcessPending(g);
            r.0.pending == g.pending[|g.pending| - |r.0.pending|..]
    decreases |g.pending|, 1
  {
    if |g.pending| > 0 && (!g.isValid || Ready(g, g.pending[0].requiredVersion)) {
      SuffixStep(g);
    } else {
      assert g.pending[|g.pending|..] == [];
    }
  }

  /** One reduce leaves the front (dropped or completed) and the rest of the
      queue is processed. */
  lemma {:induction false} SuffixStep(g: Group)
    requires WellFormed(g) && |g.pending| > 0
    requires !g.isValid || Ready(g, g.pending[0].requiredVersion)
    ensures var r := ProcessPending(g);
            r.0.pending == g.pending[|g.pending| - |r.0.pending|..]
    decreases |g.pending|, 0
  {
    var g' := if !g.isValid then g.(pending := g.pending[1..])
              else Complete(g, g.pending[0]).0.(pending := g.pending[1..]);
    assert WellFormed(g') && g'.pending == g.pending[1..];
    assert ProcessPending(g).0 == ProcessPending(g').0;
    ProcessPendingSuffix(g');
    SuffixOfTail(g.pending, ProcessPending(g').0.pending);
  }

  /** A suffix of a queue's tail is a suffix of the queue. */
  lemma SuffixOfTail(q: seq<PendingReduce>, t: seq<PendingReduce>)
    requires |q| > 0 && |t| <= |q| - 1 && t == q[1..][|q| - 1 - |t|..]
    ensures t == q[|q| - |t|..]
  {
    assert q[1..][|q| - 1 - |t|..] == q[|q| - |t|..];
  }

  /** Processing stops only at a reduce that is not ready, in a valid group. */
  lemma {:induction false} ProcessPendingStops(g: Group)
    requires WellFormed(g)
    ensures var r := ProcessPending(g);
            |r.0.pending| > 0 ==> g.isValid && !Ready(r.0, r.0.pending[0].requiredVersion)
    decreases |g.pending|
  {
    if |g.pending| > 0 {
      if !g.isValid {
        ProcessPendingStops(g.(pending := g.pending[1..]));
      } else if Ready(g, g.pending[0].requiredVersion) {
        var (g1, m1) := Complete(g, g.pending[0]);
        ProcessPendingStops(g1.(pending := g.pending[1..]));
      }
    }
  }

  /** An invalid group drops its whole queue and sends nothing. */
  lemma {:induction false} ProcessPendingInvalid(g: Group)
    requires WellFormed(g) && !g.isValid
    ensures ProcessPending(g) == (g.(pending := []), [])
    decreases |g.pending|
  {
    if |g.pending| > 0 {
      ProcessPendingInvalid(g.(pending := g.pending[1..]));
    }
  }

  /** The last version sent is that of the last reduce completed. */
  lemma {:induction false} ProcessPendingLastSent(g: Group)
    requires WellFormed(g) && g.isValid
    ensures var r := ProcessPending(g);
            var k := |g.pending| - |r.0.pending|;
            (k > 0 ==> r.0.lastSent == g.pending[k - 1].requiredVersion)
            && (k == 0 ==> r == (g, []))
    decreases |g.pending|, 1
  {
    if |g.pending| > 0 && Ready(g, g.pending[0].requiredVersion) {
      LastSentStep(g);
    }
  }

  /** Completing the front reduce makes at least one reduce leave the queue,
      and the last to leave is the last recorded as sent. */
  lemma {:induction false} LastSentStep(g: Group)
    requires WellFormed(g) && g.isValid
    requires |g.pending| > 0 && Ready(g, g.pending[0].requiredVersion)
    ensures var r := ProcessPending(g);
            var k := |g.pending| - |r.0.pending|;
            k > 0 && r.0.lastSent == g.pending[k - 1].requiredVersion
    decreases |g.pending|, 0
  {
    var p := g.pending[0];
    var g1' := CompleteFront(g);
    ProcessPendingLastSent(g1');
    var r := ProcessPending(g1');
    var k' := |g1'.pending| - |r.0.pending|;
    if k' > 0 {
      assert g1'.pending[k' - 1] == g.pending[k'];
    } else {
      assert r.0 == g1';
    }
  }

  /** Completing the ready front reduce of a valid member: the state the
      rest of the queue is processed from, which ends up in the same state. */
  lemma CompleteFront(g: Group) returns (g1: Group)
    requires WellFormed(g) && g.isValid
    requires |g.pending| > 0 && Ready(g, g.pending[0].requiredVersion)
    ensures WellFormed(g1) && g1.isValid && g1.pending == g.pending[1..]
    ensures g1.lastSent == g.pending[0].requiredVersion
    ensures ProcessPending(g).0 == ProcessPending(g1).0
  {
    g1 := Complete(g, g.pending[0]).0.(pending := g.pending[1..]);
  }

  /** A member that is not the root sends one message to its parent per
      completed reduce, in queue order, under that reduce's version. */
  lemma {:induction false} ProcessPendingSendsUp(g: Group)
    requires WellFormed(g) && g.isValid && !ReturnsValueOnReduce(g)
    ensures var r := ProcessPending(g);
            var k := |g.pending| - |r.0.pending|;
            |r.1| == k
            && forall i :: 0 <= i < k ==> r.1[i].ToParent? && r.1[i].version == g.pending[i].requiredVersion
    decreases |g.pending|
  {
    if |g.pending| > 0 && Ready(g, g.pending[0].requiredVersion) {
      var p := g.pending[0];
      CompleteSendsUp(g, p);
      var (g1, m1) := Complete(g, p);
      var g1' := g1.(pending := g.pending[1..]);
      ProcessPendingSendsUp(g1');
      var r := ProcessPending(g1');
      assert ProcessPending(g) == (r.0, m1 + r.1);
      SentUpCons(m1[0], r.1, g.pending, |g1'.pending| - |r.0.pending|);
    }
  }

  /** A member that is not the root completes a reduce by one message to its
      parent under the reduce's version, and stays a valid non-root member. */
  lemma CompleteSendsUp(g: Group, p: PendingReduce)
    requires WellFormed(g) && g.isValid && !ReturnsValueOnReduce(g)
    requires Ready(g, p.requiredVersion)
    ensures var (g1, m1) := Complete(g, p);
            |m1| == 1 && m1[0].ToParent? && m1[0].version == p.requiredVersion
            && g1.isValid && g1.neighbors == g.neighbors
  {
  }

  /** A message for the first pending reduce in front of messages for the
      following ones. */
  lemma SentUpCons(m: Message, msgs: seq<Message>, pend: seq<PendingReduce>, k: nat)
    requires |pend| > 0 && m.ToParent? && m.version == pend[0].requiredVersion
    requires |msgs| == k && k < |pend|
    requires forall i :: 0 <= i < k ==> msgs[i].ToParent? && msgs[i].version == pend[1..][i].requiredVersion
    ensures forall i :: 0 <= i < k + 1 ==> ([m] + msgs)[i].ToParent? && ([m] + msgs)[i].version == pend[i].requiredVersion
  {
    forall i | 0 <= i < k + 1 ensures ([m] + msgs)[i].ToParent? && ([m] + msgs)[i].version == pend[i].requiredVersion {
      if i > 0 {
        assert ([m] + msgs)[i] == msgs[i - 1];
        assert pend[1..][i - 1] == pend[i];
      }
    }
  }

  /** `reduce` / `allreduce`: queues the own value for the version after the
      last one sent (0 after a rebuild) and processes the queue. Returns the
      new state, the version the caller waits for, and the connection counter
      the caller's waiter remembers. */
  function Reduce(g: Group, op: (Span, Span) -> Span, value: Span, isAllReduce: bool): (r: (Group, U32, U16, seq<Message>))
    requires WellFormed(g)
    ensures WellFormed(r.0)
    ensures r.1 == Inc32(g.lastSent)
    ensures g.lastSent == TagNoData ==> r.1 == 0
    ensures r.2 == g.connCounter && r.0.connCounter == g.connCounter
  {
    var version := Inc32(g.lastSent);
    var (g1, msgs) := ProcessPending(g.(pending := g.pending + [PendingReduce(version, value, op, isAllReduce)]));
    (g1, version, g1.connCounter, msgs)
  }

  /** A leaf that is not the root completes a reduce at once: it sends its own
      value to the parent under the next version. */
  lemma LeafReducesAtOnce(g: Group, op: (Span, Span) -> Span, value: Span)
    requires WellFormed(g) && g.isValid && g.pending == []
    requires g.neighbors.LeftChild() == "" && g.neighbors.Parent() != ""
    ensures var (g1, version, _, msgs) := Reduce(g, op, value, false);
            msgs == [ToParent(version, value)] && g1.lastSent == version && g1.pending == []
  {
    var version := Inc32(g.lastSent);
    var p := PendingReduce(version, value, op, false);
    var q := g.(pending := [p]);
    var (g1, m1) := Complete(q, p);
    assert m1 == [ToParent(version, value)];
    assert ProcessPending(g1.(pending := [])) == (g1.(pending := []), []);
  }

  // ---------------------------------------------------------------------
  // Waiting for a reduce's result
  // ---------------------------------------------------------------------

  /** The waiter's readiness test: an error ends the wait at once; otherwise an
      allreduce waits for the result in buffer 0 and a reduce for its version
      to have been sent. */
  predicate WaiterReady(g: Group, version: U32, connId: U16, isAllReduce: bool)
    requires WellFormed(g)
  {
    if connId < g.connCounter || !g.isValid then true
    else if isAllReduce then FifoHasData(g.buffers[0], version)
    else g.lastSent != TagNoData && g.lastSent >= version
  }

  /** The waiter's result. A member that holds the result (any allreduce, or
      the root of a reduce) returns it whenever buffer 0 has it, error or not;
      otherwise an error reads as a disconnection and a non-root reduce without
      error yields no value. An allreduce's empty optional is written here as
      Disconnection. */
  function WaiterResult(g: Group, version: U32, connId: U16, isAllReduce: bool): (r: (ReduceResult<Span>, Group))
    requires WellFormed(g)
    ensures WellFormed(r.1)
    ensures isAllReduce ==> !r.0.NoValue?
    ensures !isAllReduce && !ReturnsValueOnReduce(g) ==> !r.0.Value? && r.1 == g
    ensures !isAllReduce && !ReturnsValueOnReduce(g) ==>
              (r.0.Disconnection? <==> connId < g.connCounter || !g.isValid)
    ensures (isAllReduce || ReturnsValueOnReduce(g)) ==>
              (r.0.Value? <==> FifoHasData(g.buffers[0], version))
    ensures r.0.Value? ==>
              var b0 := g.buffers[0].buffer;
              Available(b0, version) && r.0.value == b0[FirstAtLeast(b0, version)].value
  {
    var error := connId < g.connCounter || !g.isValid;
    if isAllReduce || ReturnsValueOnReduce(g) then
      if FifoHasData(g.buffers[0], version) then
        HasDataAvailable(g.buffers[0], version);
        var (value, b0) := FifoGet(g.buffers[0], version);
        (Value(value), g.(buffers := g.buffers[0 := b0]))
      else (Disconnection, g)
    else if error then (Disconnection, g)
    else (NoValue, g)
  }

  // ---------------------------------------------------------------------
  // Receiving data
  // ---------------------------------------------------------------------

  /** The first of the three neighbour slots naming the tag, or 3. */
  function SlotOf(tags: seq<TagID>, tag: TagID): (i: nat)
    requires |tags| == 3
    ensures i <= 3
    ensures i < 3 ==> tags[i] == tag
    ensures forall k :: 0 <= k < i ==> tags[k] != tag
    ensures i == 3 <==> tag !in tags
  {
    if tags[0] == tag then 0 else if tags[1] == tag then 1 else if tags[2] == tag then 2 else 3
  }

  /** `add_data`: values of the wrong types and values on a tag that is none
      of the three neighbours are refused. Otherwise the value goes to the
      neighbour's buffer, a value from the parent is also passed down to the
      children, and the queue is processed. */
  function AddData(g: Group, tag: TagID, value: Span, version: U32): (r: (Group, bool, seq<Message>))
    requires WellFormed(g)
    ensures WellFormed(r.0)
    ensures !SpanIsValid(value, g.expectedTypes) ==> r == (g, false, [])
    ensures tag !in g.neighbors.tags ==> r == (g, false, [])
    ensures r.1 <==> SpanIsValid(value, g.expectedTypes) && tag in g.neighbors.tags
    ensures r.1 ==>
              var i := SlotOf(g.neighbors.tags, tag);
              var g1 := g.(buffers := g.buffers[i := FifoAddAsWritten(g.buffers[i], value, version)]);
              r.0 == ProcessPending(g1).0
              && r.2 == (if i == 0 then [ToChildren(version, value)] else []) + ProcessPending(g1).1
  {
    if !SpanIsValid(value, g.expectedTypes) then (g, false, [])
    else
      var i := SlotOf(g.neighbors.tags, tag);
      if i == 3 then (g, false, [])
      else
        var g1 := g.(buffers := g.buffers[i := FifoAddAsWritten(g.buffers[i], value, version)]);
        var sent := if i == 0 then [ToChildren(version, value)] else [];
        var (g2, msgs) := ProcessPending(g1);
        (g2, true, sent + msgs)
  }

  /** A value from a child that the front reduce waits on completes that
      reduce exactly when its version reaches the reduce's, whatever arrived
      before: the add appends, and `has_data` looks only at the newest entry.
      So a late, older version stalls a reduce the buffer could already
      serve. The other child, if any, must already hold the version. */
  lemma AddDataCompletesIff(g: Group, tag: TagID, value: Span, version: U32)
    requires WellFormed(g) && g.isValid && |g.pending| > 0
    requires SpanIsValid(value, g.expectedTypes)
    requires g.neighbors.LeftChild() != ""
    requires var i := SlotOf(g.neighbors.tags, tag);
             i == 1 || (i == 2 && g.neighbors.RightChild() != "")
    requires var i := SlotOf(g.neighbors.tags, tag);
             g.neighbors.RightChild() != "" ==> FifoHasData(g.buffers[3 - i], g.pending[0].requiredVersion)
    ensures |AddData(g, tag, value, version).0.pending| < |g.pending|
            <==> version >= g.pending[0].requiredVersion
  {
    var i := SlotOf(g.neighbors.tags, tag);
    var g1 := g.(buffers := g.buffers[i := FifoAddAsWritten(g.buffers[i], value, version)]);
    assert g1.buffers[i].buffer == g.buffers[i].buffer + [Entry(value, version)];
    assert Ready(g1, g.pending[0].requiredVersion) <==> version >= g.pending[0].requiredVersion;
    if Ready(g1, g.pending[0].requiredVersion) {
      var c := Complete(g1, g1.pending[0]);
      assert ProcessPending(g1).0 == ProcessPending(c.0.(pending := g1.pending[1..])).0;
    }
  }

  // ---------------------------------------------------------------------
  // Disconnections and rebuilding
  // ---------------------------------------------------------------------

  /** A disconnection notice from a machine is acted on the first time that
      machine reports, and whenever it reports an id different from the last
      one heard; a repeat of the last id is ignored. Acting invalidates the
      group, advances the connection counter and passes the notice on. */
  function PropagateDisconnection(g: Group, machine: MachineID, id: nat): (r: (Group, seq<Message>))
    ensures var acts := machine !in g.lastHeard || g.lastHeard[machine] != id;
            r.0.lastHeard == g.lastHeard[machine := id]
            && (acts ==> !r.0.isValid && r.0.connCounter == Inc16(g.connCounter) && r.1 == [DisconnectNotice(machine, id)])
            && (!acts ==> r.0 == g && r.1 == [])
    ensures r.0 == g.(isValid := r.0.isValid, connCounter := r.0.connCounter, lastHeard := r.0.lastHeard)
  {
    if machine !in g.lastHeard then
      (g.(lastHeard := g.lastHeard[machine := id], isValid := false, connCounter := Inc16(g.connCounter)),
       [DisconnectNotice(machine, id)])
    else if g.lastHeard[machine] == id then
      assert g.lastHeard[machine := id] == g.lastHeard;
      (g, [])
    else
      (g.(lastHeard := g.lastHeard[machine := id], isValid := false, connCounter := Inc16(g.connCounter)),
       [DisconnectNotice(machine, id)])
  }

  /** Hearing the same notice twice acts once. */
  lemma PropagateTwiceActsOnce(g: Group, machine: MachineID, id: nat)
    ensures var (g1, _) := PropagateDisconnection(g, machine, id);
            PropagateDisconnection(g1, machine, id) == (g1, [])
  {
  }

  /** A disconnection this member detects itself always acts, under a fresh id
      drawn by the caller. */
  function ReportDisconnection(g: Group, self: MachineID, freshId: nat): (r: (Group, seq<Message>))
    ensures r.0 == g.(isValid := false, connCounter := Inc16(g.connCounter))
    ensures r.1 == [DisconnectNotice(self, freshId)]
  {
    (g.(isValid := false, connCounter := Inc16(g.connCounter)), [DisconnectNotice(self, freshId)])
  }

  /** Resets the member for a fresh round: nothing sent, valid again, buffers
      emptied. The queue, counter and disconnection history are kept. */
  function Rebuild(g: Group): (r: Group)
    requires WellFormed(g)
    ensures WellFormed(r)
    ensures r == g.(lastSent := TagNoData, isValid := true, buffers := r.buffers)
    ensures forall i :: 0 <= i < 3 ==> r.buffers[i] == NewFifo()
  {
    g.(lastSent := TagNoData, isValid := true, buffers := [FifoReset(g.buffers[0]), FifoReset(g.buffers[1]), FifoReset(g.buffers[2])])
  }

  /** After a disconnection and a rebuild, waiters from before the
      disconnection see the error, and the next reduce asks for version 0. */
  lemma RebuildAfterDisconnection(g: Group, machine: MachineID, id: nat, op: (Span, Span) -> Span, value: Span, isAll: bool, version: U32)
    requires WellFormed(g)
    requires machine !in g.lastHeard
    requires g.connCounter < Two16 - 1
    ensures var g1 := Rebuild(PropagateDisconnection(g, machine, id).0);
            WaiterReady(g1, version, g.connCounter, isAll)
            && Reduce(g1, op, value, isAll).1 == 0
            && forall i :: 0 <= i < 3 ==> FifoValid(g1.buffers[i])
  {
  }
}
