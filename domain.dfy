/** Records and outside-world effects shared by the catalog builder and the matcher. */
module Domain {

  datatype Option<+T> = None | Some(value: T)

  /** One roster entry of data/therapists.ts: the display fields, `bio` being the embedded text. */
  datatype Therapist = Therapist(
    id: string,
    name: string,
    bio: string,
    specialties: seq<string>,
    nextAvailableAt: string)

  /** One record of the catalog file: a roster entry spread together with its embedding vector. */
  datatype CatalogEntry = CatalogEntry(
    id: string,
    name: string,
    bio: string,
    specialties: seq<string>,
    nextAvailableAt: string,
    embedding: seq<real>)

  /** `{ ...therapist, embedding }` */
  function WithEmbedding(t: Therapist, embedding: seq<real>): (e: CatalogEntry)
    ensures Profile(e) == t && e.embedding == embedding
  {
    CatalogEntry(t.id, t.name, t.bio, t.specialties, t.nextAvailableAt, embedding)
  }

  /** The roster fields of a catalog record, that is, the record without its embedding. */
  function Profile(e: CatalogEntry): Therapist {
    Therapist(e.id, e.name, e.bio, e.specialties, e.nextAvailableAt)
  }

  /** The embedding provider: the vector it returns for a text, or None when the call throws
      (network or authentication failure, malformed response). */
  type Provider = string -> Option<seq<real>>

  /** No two roster entries share an id. `Ranking.DistinctIds` and `Matcher.UniqueIds` state the
      same property of scored records and of catalog records. */
  predicate DistinctRosterIds(roster: seq<Therapist>) {
    forall i, j :: 0 <= i < j < |roster| ==> roster[i].id != roster[j].id
  }

  /** `!process.env.OPENAI_API_KEY` is false: the variable is set and not the empty string. */
  predicate KeyConfigured(apiKey: Option<string>) {
    apiKey.Some? && apiKey.value != ""
  }

  /** What a run does outside itself, in the order it does it. */
  datatype Effect =
    | EmbedRequest(text: string)              // one embeddings.create call with this input
    | Pause(ms: nat)                          // await delay(ms)
    | ReadCatalog                             // readFileSync of data/therapists.embedded.json
    | WriteCatalog(entries: seq<CatalogEntry>) // writeFileSync of the same file

  /** The texts sent to the embedding provider, in order. */
  function Requests(log: seq<Effect>): seq<string> {
    if log == [] then []
    else Requests(log[..|log| - 1]) +
         (if log[|log| - 1].EmbedRequest? then [log[|log| - 1].text] else [])
  }

  /** The number of pauses in a log. */
  function Pauses(log: seq<Effect>): nat {
    if log == [] then 0
    else Pauses(log[..|log| - 1]) + (if log[|log| - 1].Pause? then 1 else 0)
  }

  /** The number of catalog writes in a log. */
  function Writes(log: seq<Effect>): nat {
    if log == [] then 0
    else Writes(log[..|log| - 1]) + (if log[|log| - 1].WriteCatalog? then 1 else 0)
  }

  /** A text was requested exactly when the log holds a request for it. */
  lemma {:induction false} RequestsMeaning(log: seq<Effect>)
    ensures forall t :: t in Requests(log) <==> EmbedRequest(t) in log
  {
    if log != [] {
      var init := log[..|log| - 1];
      RequestsMeaning(init);
      assert log == init + [log[|log| - 1]];
    }
  }

  lemma {:induction false} CountsDistribute(a: seq<Effect>, b: seq<Effect>)
    ensures Requests(a + b) == Requests(a) + Requests(b)
    ensures Pauses(a + b) == Pauses(a) + Pauses(b)
    ensures Writes(a + b) == Writes(a) + Writes(b)
    decreases |b|
  {
    if b == [] {
      assert a + b == a;
    } else {
      var b' := b[..|b| - 1];
      assert (a + b)[..|a + b| - 1] == a + b';
      CountsDistribute(a, b');
    }
  }
}
