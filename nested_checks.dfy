/** checkValid with the sub-groups walked as well.

    The queue loop of checkValid pops every top-level group but never
    pushes a group's sub-groups, so labels and references below the top
    level are never checked, although a queue drained with `pop()` is only
    needed when each popped group pushes its own sub-groups. This module
    exhibits a response that checkValid accepts with a blank nested label,
    and models the evidently intended loop, which appends each popped
    group's sub-groups to the tail of the queue, proving that it checks
    every group of the tree. */
module NestedChecks {
  import opened Outcomes
  import opened JavaLang
  import opened ClusteringResponse
  import opened ResponseChecks

  /** The number of groups in a forest, counting every depth. */
  function QueueSize(queue: seq<DocumentGroup>): nat
    decreases queue
  {
    if queue == [] then 0
    else
      assert queue[0] in queue;
      1 + QueueSize(queue[0].subgroups) + QueueSize(queue[1..])
  }

  /** Every group of a forest, at every depth, parents before children. */
  function Flatten(queue: seq<DocumentGroup>): seq<DocumentGroup>
    decreases queue
  {
    if queue == [] then []
    else
      assert queue[0] in queue;
      [queue[0]] + Flatten(queue[0].subgroups) + Flatten(queue[1..])
  }

  lemma {:induction false} QueueSizeAppend(a: seq<DocumentGroup>, b: seq<DocumentGroup>)
    ensures QueueSize(a + b) == QueueSize(a) + QueueSize(b)
    decreases a
  {
    if a != [] {
      assert (a + b)[0] == a[0];
      assert (a + b)[1..] == a[1..] + b;
      QueueSizeAppend(a[1..], b);
    } else {
      assert a + b == b;
    }
  }

  lemma {:induction false} FlattenAppend(a: seq<DocumentGroup>, b: seq<DocumentGroup>)
    ensures Flatten(a + b) == Flatten(a) + Flatten(b)
    decreases a
  {
    if a != [] {
      assert (a + b)[0] == a[0];
      assert (a + b)[1..] == a[1..] + b;
      FlattenAppend(a[1..], b);
      calc {
        Flatten(a + b);
        [a[0]] + Flatten(a[0].subgroups) + Flatten(a[1..] + b);
        [a[0]] + Flatten(a[0].subgroups) + (Flatten(a[1..]) + Flatten(b));
        ([a[0]] + Flatten(a[0].subgroups) + Flatten(a[1..])) + Flatten(b);
      }
    } else {
      assert a + b == b;
    }
  }

  /** The top-level groups are among the flattened groups. */
  lemma {:induction false} TopLevelInFlatten(queue: seq<DocumentGroup>)
    ensures forall g :: g in queue ==> g in Flatten(queue)
    decreases queue
  {
    if queue != [] {
      TopLevelInFlatten(queue[1..]);
      forall g | g in queue ensures g in Flatten(queue) {
        if g != queue[0] {
          assert g in queue[1..];
        }
      }
    }
  }

  /** Draining a queue that pushes each popped group's sub-groups to its
      tail: the first failing group in breadth-first order decides. */
  function DeepWalk(queue: seq<DocumentGroup>, hitIds: set<string>, containsAllHits: bool): Outcome
    decreases QueueSize(queue)
  {
    if queue == [] then Pass
    else
      var o := CheckGroup(queue[0], hitIds, containsAllHits);
      if o.Fail? then o
      else
        QueueSizeAppend(queue[1..], queue[0].subgroups);
        DeepWalk(queue[1..] + queue[0].subgroups, hitIds, containsAllHits)
  }

  /** The deep walk passes exactly when every group of the forest passes. */
  lemma {:induction false} DeepWalkPassIff(queue: seq<DocumentGroup>, hitIds: set<string>, containsAllHits: bool)
    ensures DeepWalk(queue, hitIds, containsAllHits) == Pass <==>
              forall g :: g in Flatten(queue) ==> CheckGroup(g, hitIds, containsAllHits) == Pass
    decreases QueueSize(queue)
  {
    if queue != [] && CheckGroup(queue[0], hitIds, containsAllHits) == Pass {
      var rest := queue[1..] + queue[0].subgroups;
      QueueSizeAppend(queue[1..], queue[0].subgroups);
      DeepWalkPassIff(rest, hitIds, containsAllHits);
      FlattenAppend(queue[1..], queue[0].subgroups);
      assert forall g :: g in Flatten(queue) <==> g == queue[0] || g in Flatten(rest);
    }
  }

  /** The verdict of checkValid with the sub-groups walked. */
  function CheckValidDeepSpec(r: ClusteringActionResponse): Outcome {
    if r.documentGroups.None? || r.documentGroups.value == [] then Fail(NoDocumentGroups)
    else
      match ContainsAllHits(r.info)
      case Err(f) => Fail(f)
      case Ok(all) =>
        var walk := DeepWalk(r.documentGroups.value, HitMap(r.hits).Keys, all);
        if walk.Fail? then walk else CheckInfoKeys(r.info)
  }

  /** A valid response: every group at every depth has a label and, when
      all hits are claimed, only references known hits. */
  ghost predicate AcceptableDeep(r: ClusteringActionResponse) {
    && r.documentGroups.Some?
    && |r.documentGroups.value| > 0
    && ContainsAllHits(r.info).Ok?
    && (forall g :: g in Flatten(r.documentGroups.value) ==> HasLabel(g))
    && (ContainsAllHits(r.info).value ==>
          forall g :: g in Flatten(r.documentGroups.value) ==> ReferencesKnown(g, HitIds(r.hits)))
    && (forall k :: k in RequiredInfoKeys ==> k in r.info)
  }

  /** The corrected check passes exactly on the responses valid at every depth. */
  lemma CheckValidDeepPassIff(r: ClusteringActionResponse)
    ensures CheckValidDeepSpec(r) == Pass <==> AcceptableDeep(r)
  {
    HitMapKeys(r.hits);
    MissingKeyWalkIff(RequiredInfoKeys, r.info);
    if r.documentGroups.Some? && r.documentGroups.value != [] && ContainsAllHits(r.info).Ok? {
      DeepWalkPassIff(r.documentGroups.value, HitIds(r.hits), ContainsAllHits(r.info).value);
    }
  }

  /** The corrected check is stricter than the original. */
  lemma DeepPassImpliesPass(r: ClusteringActionResponse)
    requires CheckValidDeepSpec(r) == Pass
    ensures CheckValidSpec(r) == Pass
  {
    CheckValidDeepPassIff(r);
    CheckValidPassIff(r);
    TopLevelInFlatten(r.documentGroups.value);
  }

  /** A response whose only top-level group is fine but whose sub-group has
      an empty label and references a document that is not a hit. */
  const BlankNestedLabel: ClusteringActionResponse :=
    ClusteringActionResponse(
      Some([DocumentGroup(Some("Topic"), Some([]), [DocumentGroup(Some(""), Some(["unknown"]), [])])]),
      Some([]),
      map[Algorithm := "lingo", ClusteringMillis := "1", SearchMillis := "2", TotalMillis := "3", MaxHits := ""])

  /** checkValid accepts that response; the corrected check rejects it. */
  lemma AsWrittenAcceptsBlankNestedLabel()
    ensures CheckValidSpec(BlankNestedLabel) == Pass
    ensures !AcceptableDeep(BlankNestedLabel)
    ensures CheckValidDeepSpec(BlankNestedLabel) == Fail(BlankLabel)
  {
    var top := BlankNestedLabel.documentGroups.value;
    var nested := top[0].subgroups[0];
    var info := BlankNestedLabel.info;
    assert ContainsAllHits(info) == Ok(true);
    assert HasLabel(top[0]) && ReferencesKnown(top[0], {});
    assert GroupWalk(top, HitMap(BlankNestedLabel.hits).Keys, true) == Pass;
    assert RequiredInfoKeys[0] in info && RequiredInfoKeys[1] in info && RequiredInfoKeys[2] in info;
    assert RequiredInfoKeys[3] in info && RequiredInfoKeys[4] in info;
    MissingKeyWalkIff(RequiredInfoKeys, info);
    assert Flatten(top) == [top[0], nested];
    assert nested in Flatten(top);
    CheckValidDeepPassIff(BlankNestedLabel);
    assert top[1..] + top[0].subgroups == [nested];
  }

  /** checkValid with `queue.addAll(g.getSubgroups())` after each pop. */
  method CheckValidDeep(result: ClusteringActionResponse) returns (verdict: Outcome)
    ensures verdict == CheckValidDeepSpec(result)
  {
    if result.documentGroups.None? || |result.documentGroups.value| == 0 {
      return Fail(NoDocumentGroups);
    }
    var groups := result.documentGroups.value;
    var idToHit := CollectHits(result.hits);

    var containsAllHits: bool;
    match ContainsAllHits(result.info)
    case Err(f) =>
      return Fail(f);
    case Ok(all) =>
      containsAllHits := all;

    var queue := groups;
    while queue != []
      invariant DeepWalk(groups, idToHit.Keys, containsAllHits) == DeepWalk(queue, idToHit.Keys, containsAllHits)
      decreases QueueSize(queue)
    {
      var g := queue[0];
      QueueSizeAppend(queue[1..], g.subgroups);
      queue := queue[1..] + g.subgroups;

      if g.labelText.None? || g.labelText.value == "" {
        return Fail(BlankLabel);
      }
      if containsAllHits {
        if g.documentReferences.None? {
          return Fail(NullReferences);
        }
        var documentReferences := g.documentReferences.value;
        if !(forall i :: 0 <= i < |documentReferences| ==> documentReferences[i] in idToHit) {
          return Fail(DanglingReferences);
        }
      }
    }

    verdict := CheckInfoKeys(result.info);
  }
}
