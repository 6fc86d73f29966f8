/** How the two halves meet: the catalog file the builder writes is the one the match route reads. */
module Pipeline {

  import opened Domain
  import opened Builder
  import opened Matcher

  /** A catalog built from a roster whose bios all embed to vectors of the query's length can be
      scored against that query without a length mismatch, and it keeps the roster's order,
      fields and distinct ids. */
  lemma BuiltCatalogServes(roster: seq<Therapist>, embed: Provider, query: seq<real>)
    requires FirstFailure(roster, embed) == |roster|
    requires forall i :: 0 <= i < |roster| ==> |embed(roster[i].bio).value| == |query|
    ensures var catalog := Enrich(roster, embed);
            && Scoreable(query, catalog)
            && (forall i :: 0 <= i < |roster| ==> Profile(catalog[i]) == roster[i])
            && (DistinctRosterIds(roster) <==> UniqueIds(catalog))
  {
    var catalog := Enrich(roster, embed);
    forall i, j | 0 <= i < j < |roster|
      ensures roster[i].id == catalog[i].id && roster[j].id == catalog[j].id
    {
      assert Profile(catalog[i]) == roster[i] && Profile(catalog[j]) == roster[j];
    }
  }
}
