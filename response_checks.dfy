/** checkValid: the rules that decide whether a clustering response is
    acceptable, as the test base class applies them.

    `CheckValid` is the method, with the two loops of the original (the
    hit-map loop and the queue drain); `CheckValidSpec` is the function it is
    proved equal to, and `Acceptable` is the same rule set stated without any
    order of evaluation. */
module ResponseChecks {
  import opened Outcomes
  import opened JavaLang
  import opened ClusteringResponse

  // ---------------------------------------------------------------------
  // The hit-id map.

  /** The map `idToHit` after putting every hit in order: a later hit with
      the same id replaces an earlier one. */
  function IdToHit(hits: seq<SearchHit>): map<string, SearchHit>
    decreases |hits|
  {
    if hits == [] then map[]
    else
      var last := hits[|hits| - 1];
      IdToHit(hits[..|hits| - 1])[last.id := last]
  }

  /** The map built from possibly-null hits: a null hit list leaves it empty. */
  function HitMap(hits: Option<seq<SearchHit>>): map<string, SearchHit> {
    if hits.None? then map[] else IdToHit(hits.value)
  }

  /** The set of ids of the hits; empty when there are no hits. */
  function HitIds(hits: Option<seq<SearchHit>>): set<string> {
    if hits.None? then {} else set h | h in hits.value :: h.id
  }

  /** The keys of the hit map are exactly the ids of the hits. */
  lemma {:induction false} IdToHitKeys(hits: seq<SearchHit>)
    ensures IdToHit(hits).Keys == set h | h in hits :: h.id
  {
    if hits != [] {
      var init := hits[..|hits| - 1];
      IdToHitKeys(init);
      assert hits == init + [hits[|hits| - 1]];
      assert (set h | h in hits :: h.id) == (set h | h in init :: h.id) + {hits[|hits| - 1].id};
    }
  }

  /** The hit map sends an id to the last hit carrying it. */
  lemma {:induction false} IdToHitLast(hits: seq<SearchHit>, i: int)
    requires 0 <= i < |hits|
    requires forall j :: i < j < |hits| ==> hits[j].id != hits[i].id
    ensures hits[i].id in IdToHit(hits) && IdToHit(hits)[hits[i].id] == hits[i]
  {
    if i < |hits| - 1 {
      var init := hits[..|hits| - 1];
      assert forall j :: i < j < |init| ==> init[j].id != init[i].id by {
        forall j | i < j < |init| ensures init[j].id != init[i].id {
          assert init[j] == hits[j];
        }
      }
      IdToHitLast(init, i);
    }
  }

  /** With the hit map in place of the set, the key set is HitIds. */
  lemma HitMapKeys(hits: Option<seq<SearchHit>>)
    ensures HitMap(hits).Keys == HitIds(hits)
  {
    if hits.Some? {
      IdToHitKeys(hits.value);
    }
  }

  // ---------------------------------------------------------------------
  // Whether the response claims to hold all hits.

  /** `maxHits == null || maxHits.isEmpty() || Integer.parseInt(maxHits) == Integer.MAX_VALUE`,
      where a text that does not parse throws NumberFormatException. */
  function ContainsAllHits(info: map<string, string>): Result<bool> {
    if MaxHits !in info || info[MaxHits] == "" then Ok(true)
    else
      match ParseInt(info[MaxHits])
      case Err(f) => Err(f)
      case Ok(n) => Ok(n == IntMax)
  }

  /** All hits are claimed exactly when MAX_HITS is absent, empty or
      parses to Integer.MAX_VALUE; a non-empty text that does not parse is
      a NumberFormat failure; any other number disclaims. */
  lemma ContainsAllHitsCases(info: map<string, string>)
    ensures ContainsAllHits(info) == Ok(true) <==>
              MaxHits !in info || info[MaxHits] == "" || ParseInt(info[MaxHits]) == Ok(IntMax)
    ensures ContainsAllHits(info).Err? <==>
              MaxHits in info && info[MaxHits] != "" && ParseInt(info[MaxHits]).Err?
    ensures ContainsAllHits(info).Err? ==> ContainsAllHits(info).failure == NumberFormat(info[MaxHits])
  {
  }

  /** When MAX_HITS holds Integer.toString of a 32-bit value n, all hits are
      claimed exactly when n is Integer.MAX_VALUE. */
  lemma ContainsAllHitsOfRendered(info: map<string, string>, n: int)
    requires IntMin <= n <= IntMax
    requires MaxHits in info && info[MaxHits] == IntToString(n)
    ensures ContainsAllHits(info) == Ok(n == IntMax)
  {
    ParseIntToString(n);
  }

  // ---------------------------------------------------------------------
  // The per-group rule and the walk over the top-level groups.

  predicate HasLabel(g: DocumentGroup) {
    g.labelText.Some? && g.labelText.value != ""
  }

  /** Every reference is present and names a known hit. */
  predicate ReferencesKnown(g: DocumentGroup, hitIds: set<string>) {
    g.documentReferences.Some? &&
    forall i :: 0 <= i < |g.documentReferences.value| ==> g.documentReferences.value[i] in hitIds
  }

  /** One iteration of the queue loop: the label assertion, then, when all
      hits are claimed, the reference-array conversion and containsAll. */
  function CheckGroup(g: DocumentGroup, hitIds: set<string>, containsAllHits: bool): Outcome {
    if !HasLabel(g) then Fail(BlankLabel)
    else if !containsAllHits then Pass
    else if g.documentReferences.None? then Fail(NullReferences)
    else if ReferencesKnown(g, hitIds) then Pass
    else Fail(DanglingReferences)
  }

  /** The outcome of draining a queue that holds `groups`: the first
      group's failure, or Pass when every group passes. */
  function GroupWalk(groups: seq<DocumentGroup>, hitIds: set<string>, containsAllHits: bool): Outcome
    decreases |groups|
  {
    if groups == [] then Pass
    else
      var o := CheckGroup(groups[0], hitIds, containsAllHits);
      if o.Fail? then o else GroupWalk(groups[1..], hitIds, containsAllHits)
  }

  /** The walk passes exactly when every group in the queue passes. */
  lemma {:induction false} GroupWalkPassIff(groups: seq<DocumentGroup>, hitIds: set<string>, containsAllHits: bool)
    ensures GroupWalk(groups, hitIds, containsAllHits) == Pass <==>
              forall i :: 0 <= i < |groups| ==> CheckGroup(groups[i], hitIds, containsAllHits) == Pass
  {
    if groups != [] {
      GroupWalkPassIff(groups[1..], hitIds, containsAllHits);
      assert forall i :: 0 < i < |groups| ==> groups[i] == groups[1..][i - 1];
    }
  }

  // ---------------------------------------------------------------------
  // The info keys.

  /** The first key of `keys` missing from `info`, checked in order. */
  function MissingKeyWalk(keys: seq<string>, info: map<string, string>): Outcome
    decreases |keys|
  {
    if keys == [] then Pass
    else if keys[0] !in info then Fail(MissingInfoKey(keys[0]))
    else MissingKeyWalk(keys[1..], info)
  }

  /** The chained containsKey assertions on the info map. */
  function CheckInfoKeys(info: map<string, string>): Outcome {
    MissingKeyWalk(RequiredInfoKeys, info)
  }

  /** The key check passes exactly when all five keys are present, and a
      failure names the first absent key in checking order. */
  lemma {:induction false} MissingKeyWalkIff(keys: seq<string>, info: map<string, string>)
    ensures MissingKeyWalk(keys, info) == Pass <==> forall k :: k in keys ==> k in info
    ensures MissingKeyWalk(keys, info).Fail? ==>
              exists i :: 0 <= i < |keys| && MissingKeyWalk(keys, info) == Fail(MissingInfoKey(keys[i]))
                && keys[i] !in info && forall j :: 0 <= j < i ==> keys[j] in info
  {
    if keys != [] && keys[0] in info {
      MissingKeyWalkIff(keys[1..], info);
      assert keys == [keys[0]] + keys[1..];
      if MissingKeyWalk(keys, info).Fail? {
        var i :| 0 <= i < |keys[1..]| && MissingKeyWalk(keys[1..], info) == Fail(MissingInfoKey(keys[1..][i]))
                && keys[1..][i] !in info && forall j :: 0 <= j < i ==> keys[1..][j] in info;
        assert forall j :: 0 < j < i + 1 ==> keys[j] == keys[1..][j - 1];
        assert keys[i + 1] == keys[1..][i];
      }
    }
  }

  // ---------------------------------------------------------------------
  // checkValid.

  /** The verdict of checkValid: the document groups must be present and
      non-empty, MAX_HITS must not be an unparsable number, every top-level
      group must pass, and the five info keys must be present, checked in
      that order, the first failure deciding. */
  function CheckValidSpec(r: ClusteringActionResponse): Outcome {
    if r.documentGroups.None? || r.documentGroups.value == [] then Fail(NoDocumentGroups)
    else
      match ContainsAllHits(r.info)
      case Err(f) => Fail(f)
      case Ok(all) =>
        var walk := GroupWalk(r.documentGroups.value, HitMap(r.hits).Keys, all);
        if walk.Fail? then walk else CheckInfoKeys(r.info)
  }

  /** The rules of checkValid stated as one predicate over the response. */
  ghost predicate Acceptable(r: ClusteringActionResponse) {
    && r.documentGroups.Some?
    && |r.documentGroups.value| > 0
    && ContainsAllHits(r.info).Ok?
    && (forall g :: g in r.documentGroups.value ==> HasLabel(g))
    && (ContainsAllHits(r.info).value ==>
          forall g :: g in r.documentGroups.value ==> ReferencesKnown(g, HitIds(r.hits)))
    && (forall k :: k in RequiredInfoKeys ==> k in r.info)
  }

  /** checkValid passes exactly on the acceptable responses. */
  lemma CheckValidPassIff(r: ClusteringActionResponse)
    ensures CheckValidSpec(r) == Pass <==> Acceptable(r)
  {
    HitMapKeys(r.hits);
    MissingKeyWalkIff(RequiredInfoKeys, r.info);
    if r.documentGroups.Some? && r.documentGroups.value != [] && ContainsAllHits(r.info).Ok? {
      var gs := r.documentGroups.value;
      var all := ContainsAllHits(r.info).value;
      GroupWalkPassIff(gs, HitIds(r.hits), all);
      if GroupWalk(gs, HitIds(r.hits), all) == Pass {
        forall g | g in gs ensures HasLabel(g) && (all ==> ReferencesKnown(g, HitIds(r.hits))) {
          var i :| 0 <= i < |gs| && gs[i] == g;
          assert CheckGroup(gs[i], HitIds(r.hits), all) == Pass;
        }
      }
      if Acceptable(r) {
        forall i | 0 <= i < |gs| ensures CheckGroup(gs[i], HitIds(r.hits), all) == Pass {
          assert gs[i] in gs;
        }
      }
    }
  }

  /** A missing or empty group array fails before anything else is looked at. */
  lemma NoGroupsFails(r: ClusteringActionResponse)
    requires r.documentGroups.None? || r.documentGroups.value == []
    ensures CheckValidSpec(r) == Fail(NoDocumentGroups)
  {
  }

  /** A passing response always carries MAX_HITS, so the "absent" branch of
      the all-hits rule never contributes to a pass: references are checked
      exactly when MAX_HITS is empty or parses to Integer.MAX_VALUE. */
  lemma PassingResponseHasMaxHits(r: ClusteringActionResponse)
    requires CheckValidSpec(r) == Pass
    ensures MaxHits in r.info
    ensures ContainsAllHits(r.info) == Ok(r.info[MaxHits] == "" || ParseInt(r.info[MaxHits]) == Ok(IntMax))
  {
    CheckValidPassIff(r);
    assert MaxHits in RequiredInfoKeys;
  }

  /** Only the top-level groups are looked at: two responses that differ
      only in the sub-groups of their top-level groups get the same verdict. */
  lemma {:induction false} SubgroupsNeverInspected(r: ClusteringActionResponse, r': ClusteringActionResponse)
    requires r.hits == r'.hits && r.info == r'.info
    requires r.documentGroups.Some? <==> r'.documentGroups.Some?
    requires r.documentGroups.Some? ==>
               |r.documentGroups.value| == |r'.documentGroups.value| &&
               forall i :: 0 <= i < |r.documentGroups.value| ==>
                 r.documentGroups.value[i].labelText == r'.documentGroups.value[i].labelText &&
                 r.documentGroups.value[i].documentReferences == r'.documentGroups.value[i].documentReferences
    ensures CheckValidSpec(r) == CheckValidSpec(r')
  {
    if r.documentGroups.Some? && r.documentGroups.value != [] && ContainsAllHits(r.info).Ok? {
      SameShapeSameWalk(r.documentGroups.value, r'.documentGroups.value,
                        HitMap(r.hits).Keys, ContainsAllHits(r.info).value);
    }
  }

  lemma {:induction false} SameShapeSameWalk(gs: seq<DocumentGroup>, gs': seq<DocumentGroup>,
                                             hitIds: set<string>, all: bool)
    requires |gs| == |gs'|
    requires forall i :: 0 <= i < |gs| ==>
               gs[i].labelText == gs'[i].labelText && gs[i].documentReferences == gs'[i].documentReferences
    ensures GroupWalk(gs, hitIds, all) == GroupWalk(gs', hitIds, all)
  {
    if gs != [] {
      assert CheckGroup(gs[0], hitIds, all) == CheckGroup(gs'[0], hitIds, all);
      SameShapeSameWalk(gs[1..], gs'[1..], hitIds, all);
    }
  }

  /** The for loop that fills `idToHit` with `put(hit.getId(), hit)`; a
      null hit list leaves the map empty. */
  method CollectHits(hits: Option<seq<SearchHit>>) returns (idToHit: map<string, SearchHit>)
    ensures idToHit == HitMap(hits)
    ensures idToHit.Keys == HitIds(hits)
    ensures forall k :: k in idToHit ==> idToHit[k].id == k
  {
    idToHit := map[];
    if hits.Some? {
      var all := hits.value;
      for i := 0 to |all|
        invariant idToHit == IdToHit(all[..i])
        invariant forall k :: k in idToHit ==> idToHit[k].id == k
      {
        assert all[..i + 1][..i] == all[..i];
        idToHit := idToHit[all[i].id := all[i]];
      }
      assert all[..|all|] == all;
    }
    HitMapKeys(hits);
  }

  /** checkValid as written: fill the hit map in a for loop, work out
      containsAllHits, drain a queue of the top-level groups, then check the
      info keys. `visited` records the groups popped from the queue. */
  method CheckValid(result: ClusteringActionResponse) returns (verdict: Outcome, ghost visited: seq<DocumentGroup>)
    ensures verdict == CheckValidSpec(result)
    ensures result.documentGroups.Some? ==> visited <= result.documentGroups.value
    ensures verdict.Pass? ==> visited == result.documentGroups.value
  {
    visited := [];
    if result.documentGroups.None? || |result.documentGroups.value| == 0 {
      return Fail(NoDocumentGroups), visited;
    }
    var groups := result.documentGroups.value;

    var idToHit := CollectHits(result.hits);

    var containsAllHits: bool;
    match ContainsAllHits(result.info)
    case Err(f) =>
      return Fail(f), visited;
    case Ok(all) =>
      containsAllHits := all;

    var queue := groups;
    while queue != []
      invariant visited + queue == groups
      invariant GroupWalk(groups, idToHit.Keys, containsAllHits) == GroupWalk(queue, idToHit.Keys, containsAllHits)
      decreases |queue|
    {
      var g := queue[0];
      queue := queue[1..];
      visited := visited + [g];

      if g.labelText.None? || g.labelText.value == "" {
        return Fail(BlankLabel), visited;
      }
      if containsAllHits {
        if g.documentReferences.None? {
          return Fail(NullReferences), visited;
        }
        var documentReferences := g.documentReferences.value;
        if !(forall i :: 0 <= i < |documentReferences| ==> documentReferences[i] in idToHit) {
          return Fail(DanglingReferences), visited;
        }
      }
    }

    verdict := CheckInfoKeys(result.info);
  }
}
