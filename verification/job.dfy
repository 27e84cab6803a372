/** The per-job bookkeeping of a Skywing job: the table of subscribed tags and
    their latest-version buffers, the per-tag publish counters, and the layout
    of a reduce group as a binary heap over the sorted member tags. */
module Job {
  import opened CInts
  import opened Types
  import opened TagBuffer
  import StringOrder

  datatype TagError = NoError | IncorrectType | Disconnected

  datatype TagInfo = TagInfo(buffer: DiscardOld, expectedTypes: seq<U8>, connectionId: U16, error: TagError)

  datatype JobState = JobState(
    subscriptions: map<TagID, TagInfo>,
    lastPublished: map<TagID, U32>,
    tagsProduced: map<TagID, seq<U8>>)

  /** A job that has neither subscribed nor published anything. */
  function NewJob(): JobState
  {
    JobState(map[], map[], map[])
  }

  // ---------------------------------------------------------------------
  // Receiving data
  // ---------------------------------------------------------------------

  /** Hands a received value to the tag's buffer. Data for a tag the job is not
      subscribed to is dropped without complaint; data of the wrong types marks
      the subscription as broken and is refused. */
  function ProcessData(j: JobState, tag: TagID, data: Span, version: U32): (r: (JobState, bool))
    ensures tag !in j.subscriptions ==> r == (j, true)
    ensures tag in j.subscriptions && !SpanIsValid(data, j.subscriptions[tag].expectedTypes) ==>
              !r.1 && r.0 == j.(subscriptions := j.subscriptions[tag := j.subscriptions[tag].(error := IncorrectType)])
    ensures tag in j.subscriptions && SpanIsValid(data, j.subscriptions[tag].expectedTypes) ==>
              r.1 && r.0.subscriptions.Keys == j.subscriptions.Keys
              && r.0.subscriptions[tag].buffer == Add(j.subscriptions[tag].buffer, data, version)
              && r.0.subscriptions[tag].error == j.subscriptions[tag].error
    ensures forall t :: t in j.subscriptions && t != tag ==> t in r.0.subscriptions && r.0.subscriptions[t] == j.subscriptions[t]
    ensures r.0.lastPublished == j.lastPublished && r.0.tagsProduced == j.tagsProduced
  {
    if tag !in j.subscriptions then (j, true)
    else
      var info := j.subscriptions[tag];
      if !SpanIsValid(data, info.expectedTypes) then
        (j.(subscriptions := j.subscriptions[tag := info.(error := IncorrectType)]), false)
      else
        (j.(subscriptions := j.subscriptions[tag := info.(buffer := Add(info.buffer, data, version))]), true)
  }

  /** Marks the tag's subscription as disconnected and advances its connection
      id (a std::uint16_t, so it wraps); unknown tags are ignored. */
  function MarkTagAsDead(j: JobState, tag: TagID): (r: JobState)
    ensures tag !in j.subscriptions ==> r == j
    ensures tag in j.subscriptions ==>
              r.subscriptions.Keys == j.subscriptions.Keys
              && r.subscriptions[tag].error == Disconnected
              && r.subscriptions[tag].connectionId == Inc16(j.subscriptions[tag].connectionId)
              && r.subscriptions[tag].buffer == j.subscriptions[tag].buffer
    ensures forall t :: t in j.subscriptions && t != tag ==> r.subscriptions[t] == j.subscriptions[t]
  {
    if tag !in j.subscriptions then j
    else
      var info := j.subscriptions[tag];
      j.(subscriptions := j.subscriptions[tag := info.(error := Disconnected, connectionId := Inc16(info.connectionId))])
  }

  /** Subscribes to one tag: a new tag gets an empty buffer, connection id 0 and
      no error; a tag already present keeps its expected types, gets the next
      connection id, an emptied buffer and its error cleared. */
  function SubscribeOne(j: JobState, tag: TagID, expected: seq<U8>): (r: JobState)
    ensures tag in r.subscriptions && r.subscriptions[tag].error == NoError
    ensures r.subscriptions.Keys == j.subscriptions.Keys + {tag}
    ensures tag !in j.subscriptions ==> r.subscriptions[tag] == TagInfo(NewDiscardOld(), expected, 0, NoError)
    ensures tag in j.subscriptions ==>
              r.subscriptions[tag].connectionId == Inc16(j.subscriptions[tag].connectionId)
              && r.subscriptions[tag].expectedTypes == j.subscriptions[tag].expectedTypes
              && !HasData(r.subscriptions[tag].buffer)
    ensures forall t :: t in j.subscriptions && t != tag ==> r.subscriptions[t] == j.subscriptions[t]
    ensures r.lastPublished == j.lastPublished && r.tagsProduced == j.tagsProduced
  {
    if tag !in j.subscriptions then
      j.(subscriptions := j.subscriptions[tag := TagInfo(NewDiscardOld(), expected, 0, NoError)])
    else
      var info := j.subscriptions[tag];
      j.(subscriptions := j.subscriptions[tag := info.(connectionId := Inc16(info.connectionId),
                                                       buffer := Reset(info.buffer),
                                                       error := NoError)])
  }

  /** What subscribing to `tags` from j leaves in r: every listed tag and
      every earlier subscription is present, nothing else is added, and a
      subscription the list does not mention is untouched. */
  ghost predicate SubscribeOutcome(j: JobState, tags: seq<(TagID, seq<U8>)>, r: JobState)
  {
    && (forall i :: 0 <= i < |tags| ==> tags[i].0 in r.subscriptions)
    && (forall t :: t in j.subscriptions ==> t in r.subscriptions)
    && (forall t :: t in r.subscriptions && t !in j.subscriptions ==> exists i :: 0 <= i < |tags| && tags[i].0 == t)
    && (forall t :: t in j.subscriptions && (forall i :: 0 <= i < |tags| ==> tags[i].0 != t) ==>
          r.subscriptions[t] == j.subscriptions[t])
  }

  /** Subscribes to the tags in order (a tag listed twice is subscribed and then
      re-subscribed). */
  function InitOrUpdateSubscribe(j: JobState, tags: seq<(TagID, seq<U8>)>): (r: JobState)
    ensures SubscribeOutcome(j, tags, r)
    decreases |tags|
  {
    if |tags| == 0 then j
    else
      var j1 := SubscribeOne(j, tags[0].0, tags[0].1);
      var r := InitOrUpdateSubscribe(j1, tags[1..]);
      SubscribeOutcomeStep(j, tags, j1, r);
      r
  }

  /** Subscribing to the first tag and then to the rest has the outcome of
      subscribing to the whole list. */
  lemma SubscribeOutcomeStep(j: JobState, tags: seq<(TagID, seq<U8>)>, j1: JobState, r: JobState)
    requires |tags| > 0 && j1 == SubscribeOne(j, tags[0].0, tags[0].1)
    requires SubscribeOutcome(j1, tags[1..], r)
    ensures SubscribeOutcome(j, tags, r)
  {
    forall i | 0 <= i < |tags| ensures tags[i].0 in r.subscriptions {
      if i > 0 {
        assert tags[i] == tags[1..][i - 1];
      }
    }
    forall t | t in r.subscriptions && t !in j.subscriptions
      ensures exists i :: 0 <= i < |tags| && tags[i].0 == t
    {
      if t != tags[0].0 {
        var k :| 0 <= k < |tags[1..]| && tags[1..][k].0 == t;
        assert tags[k + 1] == tags[1..][k];
      }
    }
    forall t | t in j.subscriptions && (forall i :: 0 <= i < |tags| ==> tags[i].0 != t)
      ensures r.subscriptions[t] == j.subscriptions[t]
    {
      assert tags[0].0 != t;
      forall i | 0 <= i < |tags[1..]| ensures tags[1..][i].0 != t {
        assert tags[1..][i] == tags[i + 1];
      }
    }
  }

  /** `tag_has_active_publisher`: subscribed and not marked broken. */
  predicate TagHasActivePublisher(j: JobState, tag: TagID)
  {
    tag in j.subscriptions && j.subscriptions[tag].error == NoError
  }

  /** Subscribing makes a tag active; marking it dead makes it inactive; and a
      later subscription revives it. */
  lemma {:induction false} SubscribedTagsAreActive(j: JobState, tags: seq<(TagID, seq<U8>)>, i: nat)
    requires i < |tags|
    ensures TagHasActivePublisher(InitOrUpdateSubscribe(j, tags), tags[i].0)
    decreases |tags|
  {
    var j1 := SubscribeOne(j, tags[0].0, tags[0].1);
    if i == 0 {
      if exists q :: 1 <= q < |tags| && tags[q].0 == tags[0].0 {
        var q :| 1 <= q < |tags| && tags[q].0 == tags[0].0;
        assert tags[1..][q - 1] == tags[q];
        SubscribedTagsAreActive(j1, tags[1..], q - 1);
      } else {
        assert forall q :: 0 <= q < |tags[1..]| ==> tags[1..][q].0 != tags[0].0 by {
          forall q | 0 <= q < |tags[1..]| ensures tags[1..][q].0 != tags[0].0 {
            assert tags[1..][q] == tags[q + 1];
          }
        }
      }
    } else {
      assert tags[1..][i - 1] == tags[i];
      SubscribedTagsAreActive(j1, tags[1..], i - 1);
    }
  }

  lemma DeadTagInactive(j: JobState, tag: TagID)
    ensures !TagHasActivePublisher(MarkTagAsDead(j, tag), tag)
    ensures TagHasActivePublisher(SubscribeOne(MarkTagAsDead(j, tag), tag, []), tag)
  {
  }

  // ---------------------------------------------------------------------
  // Publishing
  // ---------------------------------------------------------------------

  /** The version a tag's next publication carries: one past the last, where a
      tag never published on starts from "no data", so its first version is 0. */
  function PublishImpl(j: JobState, tag: TagID): (r: (JobState, U32))
    requires tag in j.tagsProduced
    ensures tag !in j.lastPublished ==> r.1 == 0
    ensures r.0 == j.(lastPublished := j.lastPublished[tag := r.1])
  {
    var last := if tag in j.lastPublished then j.lastPublished[tag] else TagNoData;
    var next := Inc32(last);
    (j.(lastPublished := j.lastPublished[tag := next]), next)
  }

  /** Publishes on the tag n times, returning the versions used. */
  function PublishTimes(j: JobState, tag: TagID, n: nat): (r: (JobState, seq<U32>))
    requires tag in j.tagsProduced
    ensures r.0.tagsProduced == j.tagsProduced
    ensures |r.1| == n
    decreases n
  {
    if n == 0 then (j, [])
    else
      var (j1, v) := PublishImpl(j, tag);
      var (j2, vs) := PublishTimes(j1, tag, n - 1);
      (j2, [v] + vs)
  }

  /** Versions on a fresh tag run 0, 1, 2, ..., one per publication. */
  lemma {:induction false} PublishVersionsCount(j: JobState, tag: TagID, n: nat, start: U32)
    requires tag in j.tagsProduced
    requires (tag !in j.lastPublished && start == 0) || (tag in j.lastPublished && start == Inc32(j.lastPublished[tag]))
    requires start + n <= TagNoData
    ensures forall i :: 0 <= i < n ==> PublishTimes(j, tag, n).1[i] == start + i
    decreases n
  {
    if n > 0 {
      var (j1, v) := PublishImpl(j, tag);
      assert v == start;
      PublishVersionsCount(j1, tag, n - 1, start + 1);
      var vs := PublishTimes(j1, tag, n - 1).1;
      assert PublishTimes(j, tag, n).1 == [v] + vs;
      forall i | 0 <= i < n ensures PublishTimes(j, tag, n).1[i] == start + i {
        if i > 0 {
          assert ([v] + vs)[i] == vs[i - 1];
        }
      }
    }
  }

  lemma FreshTagVersions(j: JobState, tag: TagID, n: nat)
    requires tag in j.tagsProduced && tag !in j.lastPublished
    requires n <= TagNoData
    ensures forall i :: 0 <= i < n ==> PublishTimes(j, tag, n).1[i] == i
  {
    PublishVersionsCount(j, tag, n, 0);
  }

  // ---------------------------------------------------------------------
  // Reduce-group layout
  // ---------------------------------------------------------------------

  /** The position of the first occurrence of t in s, or |s| when t is absent
      (what std::find reports as a distance). */
  function Find(s: seq<TagID>, t: TagID): (i: nat)
    ensures i <= |s|
    ensures i < |s| ==> s[i] == t
    ensures forall k :: 0 <= k < i ==> s[k] != t
    ensures i == |s| <==> t !in s
  {
    if |s| == 0 then 0
    else if s[0] == t then 0
    else 1 + Find(s[1..], t)
  }

  /** The neighbours of `produced` when the sorted tags are read as a binary
      heap: the parent at (i - 1) / 2 unless i is the root, and the children at
      2i + 1 and 2i + 2 when those exist. */
  function HeapNeighbors(sorted: seq<TagID>, produced: TagID): (nb: ReduceGroupNeighbors)
    ensures nb.Valid()
  {
    var i := Find(sorted, produced);
    var parent := if i != 0 then sorted[(i - 1) / 2] else "";
    var left := if 2 * i + 1 < |sorted| then sorted[2 * i + 1] else "";
    var right := if 2 * i + 2 < |sorted| then sorted[2 * i + 2] else "";
    ReduceGroupNeighbors([parent, left, right])
  }

  /** `create_reduce_group_init`: records the produced tag and lays the group
      out over the tags sorted by std::string's ordering, so every member
      computes the same tree whatever order it was handed the tags in. */
  function CreateReduceGroupInit(j: JobState, produced: TagID, over: seq<TagID>, expected: seq<U8>): (r: (JobState, ReduceGroupNeighbors))
    requires produced !in j.tagsProduced
    ensures r.0 == j.(tagsProduced := j.tagsProduced[produced := expected])
    ensures r.1.Valid()
    ensures forall other :: multiset(other) == multiset(over) ==> r.1 == HeapNeighbors(StringOrder.Sort(other), produced)
  {
    forall other | multiset(other) == multiset(over)
      ensures StringOrder.Sort(other) == StringOrder.Sort(over)
    {
      StringOrder.SortPermutationInvariant(other, over);
    }
    (j.(tagsProduced := j.tagsProduced[produced := expected]), HeapNeighbors(StringOrder.Sort(over), produced))
  }

  predicate Distinct(s: seq<TagID>)
  {
    forall i, j :: 0 <= i < j < |s| ==> s[i] != s[j]
  }

  lemma {:induction false} DistinctCount(s: seq<TagID>, x: TagID)
    requires Distinct(s)
    ensures multiset(s)[x] <= 1
    decreases |s|
  {
    if |s| > 0 {
      assert s == [s[0]] + s[1..];
      assert Distinct(s[1..]) by {
        forall i, j | 0 <= i < j < |s[1..]| ensures s[1..][i] != s[1..][j] {
          assert s[1..][i] == s[i + 1] && s[1..][j] == s[j + 1];
        }
      }
      DistinctCount(s[1..], x);
      if s[0] == x {
        assert x !in s[1..] by {
          forall k | 0 <= k < |s[1..]| ensures s[1..][k] != x {
            assert s[1..][k] == s[k + 1];
          }
        }
      }
    }
  }

  lemma DuplicateCount(s: seq<TagID>, i: nat, j: nat)
    requires i < j < |s| && s[i] == s[j]
    ensures multiset(s)[s[i]] >= 2
  {
    assert s == s[..j] + [s[j]] + s[j + 1..];
    assert s[..j][i] == s[i];
    assert s[i] in multiset(s[..j]);
  }

  /** Sorting keeps the tags distinct. */
  lemma PermutationDistinct(a: seq<TagID>, b: seq<TagID>)
    requires multiset(a) == multiset(b)
    requires Distinct(a)
    ensures Distinct(b)
  {
    forall i, j | 0 <= i < j < |b| ensures b[i] != b[j] {
      if b[i] == b[j] {
        DuplicateCount(b, i, j);
        DistinctCount(a, b[i]);
        assert false;
      }
    }
  }

  lemma DistinctFind(s: seq<TagID>, k: nat)
    requires Distinct(s) && k < |s|
    ensures Find(s, s[k]) == k
  {
  }

  lemma HeapIndex(c: nat, p: nat)
    ensures (c != 0 && (c - 1) / 2 == p) <==> (c == 2 * p + 1 || c == 2 * p + 2)
  {
  }

  /** The heap layout over one sorted list of distinct non-empty tags. */
  lemma HeapConsistent(s: seq<TagID>, t: TagID, u: TagID)
    requires Distinct(s)
    requires forall k :: 0 <= k < |s| ==> s[k] != ""
    requires t in s && u in s
    ensures HeapNeighbors(s, u).Parent() == t
            <==> (HeapNeighbors(s, t).LeftChild() == u || HeapNeighbors(s, t).RightChild() == u)
    ensures HeapNeighbors(s, u).Parent() == "" <==> u == s[0]
  {
    var it := Find(s, t);
    var iu := Find(s, u);
    HeapIndex(iu, it);
    ParentAt(s, t, u);
    assert s[iu] == u;
    if 2 * it + 1 < |s| {
      FindAt(s, 2 * it + 1, u);
    }
    if 2 * it + 2 < |s| {
      FindAt(s, 2 * it + 2, u);
    }
    LeftChildAt(s, t, u);
    RightChildAt(s, t, u);
  }

  /** u's parent is t exactly when t's position is u's heap parent position;
      only the root has the empty parent. */
  lemma ParentAt(s: seq<TagID>, t: TagID, u: TagID)
    requires Distinct(s)
    requires forall k :: 0 <= k < |s| ==> s[k] != ""
    requires t in s && u in s
    ensures var iu := Find(s, u);
            HeapNeighbors(s, u).Parent() == t <==> (iu != 0 && (iu - 1) / 2 == Find(s, t))
    ensures HeapNeighbors(s, u).Parent() == "" <==> u == s[0]
  {
    var iu := Find(s, u);
    FindAt(s, 0, u);
    if iu != 0 {
      var p := (iu - 1) / 2;
      FindAt(s, p, t);
      assert HeapNeighbors(s, u).Parent() == s[p];
    }
  }

  /** t's left child is u exactly when u sits at position 2i + 1 for t's
      position i, given that u is found where it sits. */
  lemma LeftChildAt(s: seq<TagID>, t: TagID, u: TagID)
    requires t in s && u in s && u != ""
    requires var c := 2 * Find(s, t) + 1; c < |s| ==> (s[c] == u <==> Find(s, u) == c)
    ensures HeapNeighbors(s, t).LeftChild() == u <==> Find(s, u) == 2 * Find(s, t) + 1
  {
  }

  /** t's right child is u exactly when u sits at position 2i + 2. */
  lemma RightChildAt(s: seq<TagID>, t: TagID, u: TagID)
    requires t in s && u in s && u != ""
    requires var c := 2 * Find(s, t) + 2; c < |s| ==> (s[c] == u <==> Find(s, u) == c)
    ensures HeapNeighbors(s, t).RightChild() == u <==> Find(s, u) == 2 * Find(s, t) + 2
  {
  }

  /** In a list of distinct tags, u is at position k exactly when that is
      where std::find stops. */
  lemma FindAt(s: seq<TagID>, k: nat, u: TagID)
    requires Distinct(s) && k < |s| && u in s
    ensures s[k] == u <==> Find(s, u) == k
  {
    DistinctFind(s, k);
  }

  /** In a group of distinct non-empty tags, u names t as its parent exactly
      when t names u as one of its children, and only the first tag in sorted
      order has no parent. */
  lemma ReduceTreeConsistent(over: seq<TagID>, t: TagID, u: TagID)
    requires Distinct(over)
    requires forall x :: x in over ==> x != ""
    requires t in over && u in over
    ensures var s := StringOrder.Sort(over);
            HeapNeighbors(s, u).Parent() == t
            <==> (HeapNeighbors(s, t).LeftChild() == u || HeapNeighbors(s, t).RightChild() == u)
    ensures HeapNeighbors(StringOrder.Sort(over), u).Parent() == "" <==> u == StringOrder.Sort(over)[0]
  {
    var s := StringOrder.Sort(over);
    PermutationDistinct(over, s);
    assert t in multiset(s) && u in multiset(s);
    forall k | 0 <= k < |s| ensures s[k] != "" {
      assert s[k] in multiset(s);
      assert s[k] in multiset(over);
      assert s[k] in over;
    }
    HeapConsistent(s, t, u);
  }
}
