# Clustering-response validation rules (elasticsearch-carrot2 test base)

This project models the acceptance rules that the plugin's integration-test
base class `SampleIndexTestCase` applies to a clustering response. A
clustering response holds the search hits, a forest of labeled document
groups and an info map. The rules decide whether a response is acceptable:

- `checkValid` needs a non-empty group array and collects the hit ids into
  a map. It reads `MAX_HITS` to decide whether the response claims to hold
  all hits, drains a queue of the top-level groups, checking each label and
  (when all hits are claimed) each document reference, and then requires
  five info keys. Modelled as the method `ResponseChecks.CheckValid`, with
  the hit-map loop and the queue loop. It is proved equal to the function
  `ResponseChecks.CheckValidSpec`, which gives the first failure in the
  order the Java code checks. `ResponseChecks.Acceptable` states the same
  rules without an order, and a lemma proves the two agree.
- `checkHttpResponse`, `checkHttpResponseContainsClusters`,
  `expectErrorResponseWithMessage` and the key check in
  `checkJsonSerialization` are pure verdicts over a status code and a
  parsed body (module `HttpChecks`).
- The JDK operations these rules lean on are `Integer.parseInt`,
  `Integer.toString` and `String.contains`. Module `JavaLang` models them
  over ASCII text.

Each AssertJ assertion and each JDK exception becomes a `Fail(...)`
outcome. The `Failure` constructor names the rule that stopped the check.
Java `null` becomes `None` wherever the code tests for it or trips over it:
the group array, the hit list, a group's label and its reference array.

Files: `outcomes.dfy` (outcomes), `java_lang.dfy` (JDK text operations),
`clustering_response.dfy` (data model and info keys), `response_checks.dfy`
(checkValid), `nested_checks.dfy` (the corrected queue walk, see Findings),
`http_checks.dfy` (HTTP/JSON verdicts).

The info keys are the constants of `ClusteringActionResponse.Fields.Info`,
written here as `"algorithm"`, `"clustering-millis"`, `"search-millis"`,
`"total-millis"` and `"max-hits"`. `ClusteringAction` is not part of this
model. No proof depends on these spellings beyond the five keys being
distinct strings.

## Model

| member | source | states |
|---|---|---|
| ResponseChecks.CheckValid | src/test/java/org/carrot2/elasticsearch/SampleIndexTestCase.java:118-159 | the method's verdict equals the specification verdict. The popped groups are a prefix of the top-level groups, and on a pass every top-level group has been popped exactly once, in order |
| ResponseChecks.CheckValidPassIff | src/test/java/org/carrot2/elasticsearch/SampleIndexTestCase.java:118-159 | checkValid passes iff the groups are present and non-empty, MAX_HITS does not fail to parse, every top-level group has a non-null non-empty label, every top-level group's references are non-null and among the hit ids when all hits are claimed, and all five info keys are present |
| ResponseChecks.NoGroupsFails | src/test/java/org/carrot2/elasticsearch/SampleIndexTestCase.java:119-121 | a null or empty group array fails with NoDocumentGroups before any other rule |
| ResponseChecks.CollectHits | src/test/java/org/carrot2/elasticsearch/SampleIndexTestCase.java:123-129 | the for loop builds the hit map: its keys are exactly the hit ids (empty for null hits), and each key maps to a hit with that id |
| ResponseChecks.IdToHitKeys | src/test/java/org/carrot2/elasticsearch/SampleIndexTestCase.java:126-128 | after the puts, the key set is the set of ids of the hits, with duplicates collapsed |
| ResponseChecks.IdToHitLast | src/test/java/org/carrot2/elasticsearch/SampleIndexTestCase.java:126-128 | an id maps to the last hit that carries it (a later put replaces an earlier one) |
| ResponseChecks.HitMapKeys | src/test/java/org/carrot2/elasticsearch/SampleIndexTestCase.java:123-129 | the key set of the hit map built from possibly-null hits is the set of hit ids |
| ResponseChecks.ContainsAllHitsCases | src/test/java/org/carrot2/elasticsearch/SampleIndexTestCase.java:131-133 | all hits are claimed iff MAX_HITS is absent, empty or parses to Integer.MAX_VALUE. It is a NumberFormat failure iff MAX_HITS is non-empty and does not parse. Any other number disclaims |
| ResponseChecks.ContainsAllHitsOfRendered | src/test/java/org/carrot2/elasticsearch/SampleIndexTestCase.java:131-133 | when MAX_HITS is Integer.toString(n) for a 32-bit n, all hits are claimed iff n is Integer.MAX_VALUE |
| ResponseChecks.PassingResponseHasMaxHits | src/test/java/org/carrot2/elasticsearch/SampleIndexTestCase.java:131-158 | a passing response always has MAX_HITS, so the absent-key branch of the all-hits rule never leads to a pass |
| ResponseChecks.GroupWalkPassIff | src/test/java/org/carrot2/elasticsearch/SampleIndexTestCase.java:137-151 | draining the queue passes iff every queued group passes the label rule and, when all hits are claimed, the reference rule |
| ResponseChecks.SubgroupsNeverInspected | src/test/java/org/carrot2/elasticsearch/SampleIndexTestCase.java:135-138 | the verdict does not depend on sub-groups: responses that agree on everything except the sub-groups get the same verdict |
| ResponseChecks.MissingKeyWalkIff | src/test/java/org/carrot2/elasticsearch/SampleIndexTestCase.java:153-158 | the info check passes iff every required key is present (values unchecked). A failure names the first absent key in checking order |
| JavaLang.ParseInt | src/test/java/org/carrot2/elasticsearch/SampleIndexTestCase.java:133 | Integer.parseInt: a parsed value lies in the 32-bit range, and every rejection is a NumberFormat failure on that text |
| JavaLang.ParseIntToString | src/test/java/org/carrot2/elasticsearch/SampleIndexTestCase.java:133 | parsing Integer.toString(n) gives back n for every 32-bit n |
| JavaLang.ParseIntSpellings | src/test/java/org/carrot2/elasticsearch/SampleIndexTestCase.java:133 | a leading '+' or a leading zero before a digit string does not change whether it parses or its value |
| JavaLang.ParseIntRejects | src/test/java/org/carrot2/elasticsearch/SampleIndexTestCase.java:133 | a lone '+' or '-' throws NumberFormatException |
| JavaLang.RejectsTrailingNonDigit | src/test/java/org/carrot2/elasticsearch/SampleIndexTestCase.java:133 | every text whose last character is not a digit throws NumberFormatException |
| JavaLang.ContainsIff | src/test/java/org/carrot2/elasticsearch/SampleIndexTestCase.java:248-250 | String.contains(s, t) holds iff t occurs in s at some index |
| HttpChecks.ValueText | src/test/java/org/carrot2/elasticsearch/SampleIndexTestCase.java:248 | toString() of the error value fails exactly on a JSON null and returns a string value unchanged |
| HttpChecks.CheckHttpResponseIff | src/test/java/org/carrot2/elasticsearch/SampleIndexTestCase.java:207-227 | success iff status is 200, the body parses and it has no "error" key. The parsed body is returned unchanged. Any other status fails on the status first |
| HttpChecks.ContainsClustersIff | src/test/java/org/carrot2/elasticsearch/SampleIndexTestCase.java:199-205 | the clusters variant succeeds iff the plain verdict succeeds and the body has a "clusters" key. It then returns the same body |
| HttpChecks.SerializedClustersCheck | src/test/java/org/carrot2/elasticsearch/SampleIndexTestCase.java:171-176 | for a re-parsed map without an "error" key, the serialization key check passes iff the map passes the clusters verdict of a 200 response |
| HttpChecks.ExpectErrorIff | src/test/java/org/carrot2/elasticsearch/SampleIndexTestCase.java:229-252 | the error verdict passes iff the status equals the expected one, the body parses, the "error" key is present with a non-null value, and the value's text contains the substring at some index |
| HttpChecks.ExpectErrorAcceptsSubstring | src/test/java/org/carrot2/elasticsearch/SampleIndexTestCase.java:244-250 | an error body with a string message passes for every substring of that message, the empty one included |
| HttpChecks.SuccessAndErrorExclusive | src/test/java/org/carrot2/elasticsearch/SampleIndexTestCase.java:216-250 | no response passes both the success verdict and an error verdict |
| NestedChecks.AsWrittenAcceptsBlankNestedLabel | src/test/java/org/carrot2/elasticsearch/SampleIndexTestCase.java:135-151 | checkValid as written accepts a response whose nested group has an empty label and a dangling reference. The corrected walk rejects it with BlankLabel |
| NestedChecks.CheckValidDeep | src/test/java/org/carrot2/elasticsearch/SampleIndexTestCase.java:135-151 | the corrected queue loop, which appends each popped group's sub-groups, terminates and equals the deep specification verdict |
| NestedChecks.DeepWalkPassIff | src/test/java/org/carrot2/elasticsearch/SampleIndexTestCase.java:137-151 | the corrected walk passes iff every group of the forest, at every depth, passes the group rules |
| NestedChecks.CheckValidDeepPassIff | src/test/java/org/carrot2/elasticsearch/SampleIndexTestCase.java:118-159 | the corrected check passes iff labels are non-empty at every depth, and, when all hits are claimed, every reference at every depth is a hit id; the other rules are as in checkValid |
| NestedChecks.DeepPassImpliesPass | src/test/java/org/carrot2/elasticsearch/SampleIndexTestCase.java:135-151 | every response the corrected check accepts is accepted by checkValid as written |

## Findings

| source | as written | input that shows it | evidently intended | confidence | as-written member | corrected member |
|---|---|---|---|---|---|---|
| src/test/java/org/carrot2/elasticsearch/SampleIndexTestCase.java:135-151 | the queue is filled with the top-level groups only, and a popped group's sub-groups are never pushed, so nested labels and references are not checked | `NestedChecks.BlankNestedLabel`: one top-level group "Topic" with no references, whose sub-group has label "" and references "unknown" while there are no hits and MAX_HITS is "" | push `g.getSubgroups()` onto the queue after each pop, so every group at every depth has a non-empty label and known references | medium (a queue drained with `pop()` is only needed when popped groups push `g.getSubgroups()`, and `DocumentGroup` nests sub-groups), not executed | NestedChecks.AsWrittenAcceptsBlankNestedLabel | NestedChecks.CheckValidDeep |

`ResponseChecks.CheckValid` stays the model of the code as written.
`NestedChecks.CheckValidDeep` is the corrected walk. It reuses the same
group rule, hit map and info-key check.

## Left out

- `createTestIndex` is left out: it does bulk indexing into a live cluster, random language shuffling, `ensureGreen` and a random HTTP endpoint. All of that is external I/O and randomness.
- The node, transport-client and external-cluster settings overrides are left out: they are configuration only.
- Building and parsing JSON through XContent is left out. The body arrives as an already parsed map, or `None` when the parser throws.
- `resource`, `resourceAs` and reading the HTTP entity stream are left out: they are file and network I/O.
- The clustering pipeline that produces the response is not part of this model, and neither is `ClusteringActionResponse.toXContent`.
- AssertJ descriptions and messages are left out. Only the pass/fail outcome and which rule failed are modelled.
- Null elements inside the group array (where `ArrayDeque.addAll` throws), null elements inside a group's reference array (which `Arrays.asList` accepts and `containsAll` then rejects unless some hit id is null), null hit ids, null info values, a null search response and a null info map are not modelled. The model assumes these are present.
- JavaLang.ParseInt: accepts only ASCII digits, while `Character.digit` also accepts other Unicode decimal digits.
- JavaLang.ContainsIff: works on Unicode code points, while `String.contains` works on UTF-16 units. The two agree on any text without surrogate pairs.
- HttpChecks.ValueText: JSON floating-point numbers are not modelled. For arrays and objects, the text their `toString()` prints is taken as given (`Composite`) rather than derived from Java's collection printing.
