# Therapist matcher — a Dafny model of its matching core

The therapist matcher recommends the three therapists whose written bios are closest in meaning to
a free-text description of what a client needs. It has two halves:

- an offline catalog builder (`scripts/build-embeddings.ts`) that sends every roster bio to an
  embedding provider, one request at a time with a 150 ms pause between requests, and writes the
  roster together with the vectors to the catalog file `data/therapists.embedded.json`;
- the match route (`POST /api/match`, `app/api/match/route.ts`). It validates the request, checks
  that the provider key is configured, embeds the query text, loads the catalog file, scores every
  catalog entry by cosine similarity rounded to four decimals, sorts the entries by score (highest
  first, ties broken by id) and answers with the first three.

The model has one module per concern:

| file | module | what it holds |
|---|---|---|
| `domain.dfy` | `Domain` | roster and catalog records, the embedding provider as a function from text to an optional vector, the key check, and the log of outside effects (embedding requests, pauses, catalog read and write) |
| `lex.dfy` | `LexOrder` | the id tie-break as a lexicographic comparison, with antisymmetry, equality and transitivity |
| `cosine.dfy` | `Cosine` | the specification `Similarity`, the loop of `cosineSimilarity` proved against it, and its geometric properties |
| `ranking.dfy` | `Ranking` | the rounded score, the sort comparator and its consistency, and an in-place sort on an array proved to give a sorted permutation |
| `matcher.dfy` | `Matcher` | the POST handler, each of its exits, and the determinacy of its ranking |
| `builder.dfy` | `Builder` | the builder loop, its exit status and its effect log |
| `pipeline.dfy` | `Pipeline` | the link between the two halves: a catalog the builder writes can be scored |

Modelling choices:

- Numbers are exact reals, not IEEE doubles. `Math.sqrt` is the parameter `sqrt` of the cosine
  operations. The lemmas that need real square roots require `Cosine.IsRoot(sqrt)`.
- A score is the integer `Math.round(similarity * 10000)`, that is, the score in ten-thousandths.
  The route divides it by 10000 before sorting. Division by a positive constant keeps order and
  equality, so sorting the integers gives the same order, and the response value is the integer
  over 10000.
- `Math.round` rounds halves upward, including for negative values, so it is `Floor(x + 0.5)`.
- The embedding provider is the parameter `embed`/`provider` of type `Domain.Provider`. It returns
  `None` when the call throws, whether from a network, authentication or response-shape failure.
  It is taken to give the same vector for the same text.
- The outside effects a run performs are returned as a sequence of `Domain.Effect`. "No embedding
  request before the key check", "the catalog is never read after a failed embedding" and "written
  once, at the end" are statements about that sequence.
- The request body is reduced to its `text` member (`Matcher.TextField`). A body that is not JSON
  reads as `{}`, so its text is absent.
- The browser page (`app/page.tsx:29`) refuses blank input before posting. The route itself only
  tests `!text || typeof text !== "string"`, so a string of blanks posted directly passes
  validation and is sent to the provider. The model follows the route: `Matcher.ValidText` accepts
  any non-empty string.

## Model

| member | source | states |
|---|---|---|
| `Domain.WithEmbedding` | scripts/build-embeddings.ts:47-50 | a catalog record is the roster entry's fields unchanged plus the vector |
| `LexOrder.LexCompare` | app/api/match/route.ts:104 | the id comparison yields -1, 0 or 1 |
| `LexOrder.LexCompareAntisymmetric` | app/api/match/route.ts:104 | swapping the two ids flips the sign of the comparison |
| `LexOrder.LexCompareZero` | app/api/match/route.ts:104 | two ids compare as 0 exactly when they are equal |
| `LexOrder.LexCompareTransitive` | app/api/match/route.ts:104 | "sorts no later than" is transitive on ids |
| `Cosine.CosineSimilarity` | app/api/match/route.ts:15-36 | vectors of different lengths throw; otherwise one pass accumulating the dot product and both sums of squares returns exactly `Similarity`: dot product over the product of the norms, 0 when that product is 0 |
| `Cosine.DotSymmetric` | app/api/match/route.ts:24-28 | the accumulated dot product does not depend on the order of the vectors |
| `Cosine.SimilaritySymmetric` | app/api/match/route.ts:15-36 | similarity(a, b) = similarity(b, a) |
| `Cosine.SumOfSquares` | app/api/match/route.ts:24-28 | the accumulated sum of squares is never negative, and is 0 exactly when every component is 0 |
| `Cosine.ZeroNormSimilarity` | app/api/match/route.ts:30-33 | when either sum of squares is 0 the denominator guard returns 0 |
| `Cosine.ZeroVectorSimilarity` | app/api/match/route.ts:30-33 | a zero vector has similarity 0 with every vector of its length, on either side |
| `Cosine.SelfSimilarity` | app/api/match/route.ts:15-36 | a non-zero vector has similarity exactly 1 with itself |
| `Cosine.DotNegated` | app/api/match/route.ts:24-28 | negating one vector negates the dot product; negating both leaves it unchanged |
| `Cosine.OppositeSimilarity` | app/api/match/route.ts:15-36 | a non-zero vector and its opposite have similarity exactly -1 |
| `Ranking.RoundScore` | app/api/match/route.ts:94 | the score is within half a ten-thousandth of the similarity, a half rounding up |
| `Ranking.RoundScoreMonotonic` | app/api/match/route.ts:94 | rounding never reverses the order of two similarities |
| `Ranking.CompareConsistent` | app/api/match/route.ts:100-105 | the comparator is antisymmetric, is zero exactly on equal score and id, and its "not after" relation is transitive |
| `Ranking.SortedPairwise` | app/api/match/route.ts:100-105 | in the sorted list every record goes no later than every record after it, not only its neighbour |
| `Ranking.SortedMeaning` | app/api/match/route.ts:98-105 | in the sorted list scores never increase, and among equal scores ids never decrease |
| `Ranking.SortedUnique` | app/api/match/route.ts:98-105 | with distinct ids, two sorted arrangements of the same records are identical |
| `Ranking.DistinctIdsPermuted` | app/api/match/route.ts:100-105 | rearranging the records keeps their ids distinct |
| `Ranking.SortMatches` | app/api/match/route.ts:100-105 | the in-place sort leaves the array sorted by the comparator and a permutation of what it held |
| `Ranking.InsertLeft` | app/api/match/route.ts:100-105 | one insertion step extends the sorted prefix by one record, leaves every record after it in place, and permutes the array |
| `Ranking.Swap` | app/api/match/route.ts:100-105 | the sort's exchange of two neighbours changes those two slots only |
| `Matcher.ScoreEntry` | app/api/match/route.ts:86-96 | a scored record keeps the catalog entry's five display fields and carries the rounded similarity to the query |
| `Matcher.Post` | app/api/match/route.ts:41-117 | invalid text is a 400 before anything else; a missing key is a 500 before any provider call; a provider failure is the catch-all 500 with the catalog never read; otherwise one request of the text as sent, then the catalog read; an unreadable catalog is its own 500; one vector of the wrong length fails the whole request; on success the answer is the first min(3, n) of a sorted permutation of all scored entries |
| `Matcher.TopAreBest` | app/api/match/route.ts:107 | no entry left out of the answer outranks an entry in it |
| `Matcher.RankingDetermined` | app/api/match/route.ts:98-107 | with unique catalog ids the ranking is fully determined, whatever algorithm the runtime's sort uses |
| `Matcher.TieBreakExample` | app/api/match/route.ts:100-107 | two entries tied on score come out in id order, ahead of a lower-scored one, from any input order |
| `Builder.FirstFailure` | scripts/build-embeddings.ts:36-62 | the position of the first bio the provider fails on: every earlier bio succeeds and that one fails |
| `Builder.Enrich` | scripts/build-embeddings.ts:34-50 | the catalog has one record per roster entry, in roster order, each the entry's fields with the vector for its bio |
| `Builder.BuildEmbeddings` | scripts/build-embeddings.ts:24-70 | no key: exit 1 with no request and no write; all requests succeed: exit 0, with each entry's request in order, a pause after every request but the last, and one write of the full catalog at the end; entry k fails: exit 1 right after its request, nothing written; the exit status is 0 exactly when the catalog was written once |
| `Builder.ProgressCounts` | scripts/build-embeddings.ts:36-57 | after k entries the bios were requested in roster order, there was one pause per entry except after the roster's last, and nothing was written |
| `Builder.ProgressStep` | scripts/build-embeddings.ts:40-57 | handling one entry adds its request and, unless it is the last entry, one 150 ms pause |
| `Builder.SuccessfulRun` | scripts/build-embeddings.ts:36-66 | a successful run makes n requests in roster order and n - 1 pauses, with no pause after the last request, and writes exactly once, as its last effect |
| `Builder.FailedRun` | scripts/build-embeddings.ts:58-62 | a run failing at entry k has requested entries 0 to k and no later one, paused k times and written nothing |
| `Pipeline.BuiltCatalogServes` | scripts/build-embeddings.ts:47-66 | a catalog built from bios that all embed to the query's length is scoreable by the match route, keeps the roster's fields and order, and has unique ids exactly when the roster does |

## Left out

- Floating point: sums, products, `Math.sqrt` and the division are exact real operations. Rounding
  error, NaN and infinities are not modelled.
- Cosine.CosineSimilarity: the bound -1 <= similarity <= 1 (Cauchy–Schwarz) is not proved. Only
  the identities for a vector with itself, with its opposite and with a zero vector are.
- LexOrder.LexCompare: `localeCompare` uses the runtime's locale collation, which can compare
  distinct strings as 0 (for example a precomposed accented letter and the same letter followed by a
  combining accent), and whose order differs from code order. The model substitutes code order, in
  which only equal strings tie. So `Ranking.CompareConsistent`'s "zero exactly on equal score and
  id", `Ranking.SortedUnique` and `Matcher.RankingDetermined` carry over to the route only for ids
  that the collation tells apart; for ids it ties, the route's order among equal scores is left to
  the runtime's sort.
- Ranking.SortMatches: an insertion sort stands in for the runtime's `Array.prototype.sort`. Its
  contract states sorted and permutation, not stability. With unique ids every sorted permutation
  is the same list (`Matcher.RankingDetermined`). With duplicate ids and equal scores the model does
  not fix the relative order.
- Matcher.Post: the OpenAI client built when the route module loads (`app/api/match/route.ts:8-10`)
  is assumed to be constructed. With the openai library of version 4 and later, that constructor
  throws when `OPENAI_API_KEY` is unset. The module then fails to load and every request gets the
  framework's own 500, so the program gives neither the 400 for invalid text nor the
  "OPENAI_API_KEY not configured" body that `Post` states for `apiKey == None`. In the program the
  route's own key check (lines 50-55) can fire only for a key set to the empty string.
- Matcher.Post: the `detail` member of the catch-all 500 response (the thrown message) is not
  modelled, and nor is `console.error` logging.
- Matcher.Post: a catalog file that parses as JSON but does not have the expected record shape is
  not modelled. Examples are a non-array, a record without `embedding`, or non-numeric components.
  Of the per-record failures inside the scoring step, only a vector length mismatch is modelled,
  which gives the catch-all 500.
- Builder.BuildEmbeddings: the client built when the script loads
  (`scripts/build-embeddings.ts:10-12`) is assumed to be constructed. With the variable unset it
  throws there, before the key check of lines 25-29. The modelled outcome (exit 1, no request, no
  write) is the same, but the message printed differs.
- Builder.BuildEmbeddings: `console` output, the output path, a failing `writeFileSync` and the
  top-level `.catch` that exits 1 on such a failure are not modelled. The pause is recorded as an
  effect, without a clock.
- The embedding model name `text-embedding-3-small` is not carried by `Domain.EmbedRequest`.
- Concurrency between simultaneous requests, and a catalog file rewritten while the route runs, are
  not modelled.
- The browser page `app/page.tsx`, the helper route `app/api/embed/route.ts` and the roster data
  `data/therapists.ts` are not part of this model.
