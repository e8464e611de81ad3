/** The parts of a clustering response that the validator reads: the
    document-group forest, the search hits (only their ids matter) and the
    string-to-string info map with its well-known keys. */
module ClusteringResponse {
  import opened Outcomes

  /** A search hit; beyond its id the hit is opaque to the checks. */
  datatype SearchHit = SearchHit(id: string, source: map<string, string>)

  /** A labeled group of document references with nested sub-groups.
      The label and the reference array may be null on the Java side. */
  datatype DocumentGroup = DocumentGroup(
    labelText: Option<string>,
    documentReferences: Option<seq<string>>,
    subgroups: seq<DocumentGroup>)

  /** getDocumentGroups() (possibly null), getSearchResponse().getHits()
      (possibly null) and getInfo(). */
  datatype ClusteringActionResponse = ClusteringActionResponse(
    documentGroups: Option<seq<DocumentGroup>>,
    hits: Option<seq<SearchHit>>,
    info: map<string, string>)

  /** The keys of ClusteringActionResponse.Fields.Info. */
  const Algorithm: string := "algorithm"
  const ClusteringMillis: string := "clustering-millis"
  const SearchMillis: string := "search-millis"
  const TotalMillis: string := "total-millis"
  const MaxHits: string := "max-hits"

  /** The info keys every valid response carries, in the order they are checked. */
  const RequiredInfoKeys: seq<string> := [Algorithm, ClusteringMillis, SearchMillis, TotalMillis, MaxHits]

  /** The key of the top-level group array in the JSON form (Fields.CLUSTERS). */
  const Clusters: string := "clusters"
}
