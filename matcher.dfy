/** The POST handler of app/api/match/route.ts: validate the request, embed the query, load the
    catalog, score every entry, sort, and answer with the first three. */
module Matcher {

  import opened Domain
  import opened Cosine
  import opened Ranking
  import opened LexOrder

  /** The `text` member of the parsed request body. A body that is not JSON is read as `{}`, so
      its text is Absent. */
  datatype TextField = Absent | NotString | Text(value: string)

  /** `!text || typeof text !== "string"` is false: a string other than "". A string of blanks
      passes; only the browser page trims. */
  predicate ValidText(t: TextField) {
    t.Text? && t.value != ""
  }

  /** The JSON response with its HTTP status. */
  datatype Response =
    | Matches(matches: seq<ScoredMatch>)          // 200 `{ matches }`
    | Failure(status: int, error: string)         // `{ error }` with this status

  const MissingText := "Missing or invalid text"
  const KeyMissing := "OPENAI_API_KEY not configured"
  const CatalogMissing := "Embeddings file not found. Please run: npm run build:embeddings"
  const MatchingFailed := "Matching failed"

  /** How many matches the route returns at most. */
  const TopK := 3

  function Min(x: int, y: int): int {
    if x <= y then x else y
  }

  /** Every catalog vector has the query's length, so cosineSimilarity throws for none of them. */
  predicate Scoreable(query: seq<real>, catalog: seq<CatalogEntry>) {
    forall i :: 0 <= i < |catalog| ==> |catalog[i].embedding| == |query|
  }

  /** The record the `.map` callback builds for one entry: its five display fields unchanged and
      its similarity to the query, rounded to the nearest ten-thousandth. */
  function ScoreEntry(query: seq<real>, e: CatalogEntry, sqrt: real -> real): (m: ScoredMatch)
    requires |e.embedding| == |query|
    ensures m.id == e.id && m.name == e.name && m.bio == e.bio
    ensures m.specialties == e.specialties && m.nextAvailableAt == e.nextAvailableAt
    ensures var x := Similarity(query, e.embedding, sqrt) * 10000.0;
            x - 0.5 < m.score as real <= x + 0.5
  {
    ScoredMatch(e.id, e.name, e.bio, e.specialties, e.nextAvailableAt,
                RoundScore(Similarity(query, e.embedding, sqrt)))
  }

  /** The scored list, in catalog order. */
  function ScoreAll(query: seq<real>, catalog: seq<CatalogEntry>, sqrt: real -> real): (r: seq<ScoredMatch>)
    requires Scoreable(query, catalog)
  {
    seq(|catalog|, i requires 0 <= i < |catalog| => ScoreEntry(query, catalog[i], sqrt))
  }

  /** The handler. `provider` answers the one embedding request, `catalogFile` is the catalog
      file as read and parsed (None when either fails), `sqrt` is `Math.sqrt`. Alongside the
      response come the outside effects in order, and the whole sorted list the top three are
      cut from. */
  method Post(text: TextField, apiKey: Option<string>, provider: Provider,
              catalogFile: Option<seq<CatalogEntry>>, sqrt: real -> real)
    returns (response: Response, log: seq<Effect>, ghost ranked: seq<ScoredMatch>)
    // 400 before anything else is looked at
    ensures !ValidText(text) ==> response == Failure(400, MissingText) && log == []
    // a missing key: 500 before any embedding request
    ensures ValidText(text) && !KeyConfigured(apiKey) ==>
              response == Failure(500, KeyMissing) && log == []
    // the provider fails: the catch-all 500, and the catalog is never read
    ensures ValidText(text) && KeyConfigured(apiKey) && provider(text.value).None? ==>
              response == Failure(500, MatchingFailed) && log == [EmbedRequest(text.value)]
    // otherwise exactly one embedding request, of the text as sent, then the catalog read
    ensures ValidText(text) && KeyConfigured(apiKey) && provider(text.value).Some? ==>
              log == [EmbedRequest(text.value), ReadCatalog]
    ensures ValidText(text) && KeyConfigured(apiKey) && provider(text.value).Some? &&
            catalogFile.None? ==>
              response == Failure(500, CatalogMissing)
    // one vector of the wrong length fails the whole request: no partial ranking
    ensures ValidText(text) && KeyConfigured(apiKey) && provider(text.value).Some? &&
            catalogFile.Some? && !Scoreable(provider(text.value).value, catalogFile.value) ==>
              response == Failure(500, MatchingFailed)
    // success: the first min(3, n) of a sorted permutation of the scored list
    ensures ValidText(text) && KeyConfigured(apiKey) && provider(text.value).Some? &&
            catalogFile.Some? && Scoreable(provider(text.value).value, catalogFile.value) ==>
              var scored := ScoreAll(provider(text.value).value, catalogFile.value, sqrt);
              && Sorted(ranked)
              && multiset(ranked) == multiset(scored)
              && |ranked| == |catalogFile.value|
              && response == Matches(ranked[..Min(TopK, |ranked|)])
              && |response.matches| == Min(TopK, |catalogFile.value|)
  {
    log, ranked := [], [];
    if !ValidText(text) {
      return Failure(400, MissingText), log, ranked;
    }
    if !KeyConfigured(apiKey) {
      return Failure(500, KeyMissing), log, ranked;
    }
    log := log + [EmbedRequest(text.value)];
    var reply := provider(text.value);
    if reply.None? {
      return Failure(500, MatchingFailed), log, ranked;
    }
    var query := reply.value;
    log := log + [ReadCatalog];
    if catalogFile.None? {
      return Failure(500, CatalogMissing), log, ranked;
    }
    var catalog := catalogFile.value;

    var scored: seq<ScoredMatch> := [];
    for i := 0 to |catalog|
      invariant |scored| == i
      invariant forall k :: 0 <= k < i ==>
                  |catalog[k].embedding| == |query| && scored[k] == ScoreEntry(query, catalog[k], sqrt)
    {
      var similarity := CosineSimilarity(query, catalog[i].embedding, sqrt);
      if similarity.None? {
        return Failure(500, MatchingFailed), log, ranked;
      }
      var e := catalog[i];
      scored := scored + [ScoredMatch(e.id, e.name, e.bio, e.specialties, e.nextAvailableAt,
                                      RoundScore(similarity.value))];
    }
    assert scored == ScoreAll(query, catalog, sqrt);

    var a := new ScoredMatch[|scored|](i requires 0 <= i < |scored| => scored[i]);
    assert a[..] == scored;
    SortMatches(a);
    ranked := a[..];
    response := Matches(a[..Min(TopK, a.Length)]);
  }

  /** No record left out of the answer outranks one in it. */
  lemma TopAreBest(ranked: seq<ScoredMatch>, i: int, j: int)
    requires Sorted(ranked) && 0 <= i < Min(TopK, |ranked|) <= j < |ranked|
    ensures ranked[i].score >= ranked[j].score
    ensures ranked[i].score == ranked[j].score ==> LexCompare(ranked[i].id, ranked[j].id) <= 0
  {
    SortedMeaning(ranked, i, j);
  }

  /** The catalog's ids are unique (`Domain.DistinctRosterIds` for catalog records). */
  predicate UniqueIds(catalog: seq<CatalogEntry>) {
    forall i, j :: 0 <= i < j < |catalog| ==> catalog[i].id != catalog[j].id
  }

  /** With unique ids the comparator fixes the ranking completely: every sorted permutation of
      the scored list is the same list, whatever algorithm the runtime's sort uses, so repeated
      requests on the same inputs give the same answer. */
  lemma RankingDetermined(query: seq<real>, catalog: seq<CatalogEntry>, sqrt: real -> real,
                          r1: seq<ScoredMatch>, r2: seq<ScoredMatch>)
    requires Scoreable(query, catalog) && UniqueIds(catalog)
    requires Sorted(r1) && multiset(r1) == multiset(ScoreAll(query, catalog, sqrt))
    requires Sorted(r2) && multiset(r2) == multiset(ScoreAll(query, catalog, sqrt))
    ensures r1 == r2
  {
    var scored := ScoreAll(query, catalog, sqrt);
    assert DistinctIds(scored) by {
      forall i, j | 0 <= i < j < |scored| ensures scored[i].id != scored[j].id {
        assert scored[i].id == catalog[i].id && scored[j].id == catalog[j].id;
      }
    }
    DistinctIdsPermuted(scored, r1);
    SortedUnique(r1, r2);
  }

  /** Two records tied on score and a lower one, listed in any order, rank as the tied pair in id
      order and then the lower one. */
  lemma TieBreakExample(r: seq<ScoredMatch>)
    requires var t1 := ScoredMatch("t1", "", "", [], "", 9000);
             var t2 := ScoredMatch("t2", "", "", [], "", 9000);
             var t3 := ScoredMatch("t3", "", "", [], "", 5000);
             Sorted(r) && multiset(r) == multiset([t3, t2, t1])
    ensures r[0].id == "t1" && r[1].id == "t2" && r[2].id == "t3"
  {
    var ranked := TieRanked();
    TieRankedSorted();
    assert multiset(ranked) == multiset([ranked[2], ranked[1], ranked[0]]);
    SortedUnique(ranked, r);
  }

  /** The example's records in the order the comparator puts them. */
  function TieRanked(): seq<ScoredMatch> {
    [ScoredMatch("t1", "", "", [], "", 9000),
     ScoredMatch("t2", "", "", [], "", 9000),
     ScoredMatch("t3", "", "", [], "", 5000)]
  }

  lemma TieRankedSorted()
    ensures Sorted(TieRanked()) && DistinctIds(TieRanked())
  {
    assert LexCompare("t1", "t2") == -1;
  }
}
