/** The catalog builder, buildEmbeddings in scripts/build-embeddings.ts: embed every roster bio
    in turn, pausing between requests, stop at the first failure, and write the catalog once at
    the end. */
module Builder {

  import opened Domain

  /** The pause between two embedding requests, in milliseconds. */
  const DelayMs := 150

  /** How the script ends. */
  datatype Exit =
    | Success                 // the catalog was written
    | MissingApiKey           // exit 1 before the loop: the key check, or the client failing at load
    | EmbedFailed(at: nat)    // process.exit(1) in the catch for roster entry `at`

  /** The process exit status. */
  function ExitCode(e: Exit): (code: int)
    ensures code == 0 <==> e.Success?
  {
    if e.Success? then 0 else 1
  }

  /** The bios of a roster, in roster order. */
  function Bios(roster: seq<Therapist>): (texts: seq<string>)
    ensures |texts| == |roster| && forall i :: 0 <= i < |roster| ==> texts[i] == roster[i].bio
  {
    seq(|roster|, i requires 0 <= i < |roster| => roster[i].bio)
  }

  /** The effects of handling roster entries 0 to k - 1 successfully: each one's request, followed
      by a pause unless it is the roster's last entry. */
  function Progress(roster: seq<Therapist>, k: nat): seq<Effect>
    requires k <= |roster|
  {
    if k == 0 then []
    else Progress(roster, k - 1) + [EmbedRequest(roster[k - 1].bio)] +
         (if k - 1 < |roster| - 1 then [Pause(DelayMs)] else [])
  }

  /** The position of the first roster entry whose bio the provider fails on, or the roster's
      length when it fails on none. */
  function FirstFailure(roster: seq<Therapist>, embed: Provider): (k: nat)
    ensures k <= |roster|
    ensures forall i :: 0 <= i < k ==> embed(roster[i].bio).Some?
    ensures k < |roster| ==> embed(roster[k].bio).None?
  {
    if roster == [] || embed(roster[0].bio).None? then 0
    else 1 + FirstFailure(roster[1..], embed)
  }

  /** The catalog of a fully embedded roster: one record per entry, in roster order, each the
      entry's fields together with the provider's vector for its bio. */
  function Enrich(roster: seq<Therapist>, embed: Provider): (catalog: seq<CatalogEntry>)
    requires forall i :: 0 <= i < |roster| ==> embed(roster[i].bio).Some?
    ensures |catalog| == |roster|
    ensures forall i :: 0 <= i < |roster| ==>
              Profile(catalog[i]) == roster[i] && catalog[i].embedding == embed(roster[i].bio).value
  {
    var catalog := seq(|roster|, i requires 0 <= i < |roster| =>
                         WithEmbedding(roster[i], embed(roster[i].bio).value));
    assert forall i :: 0 <= i < |roster| ==>
             catalog[i] == WithEmbedding(roster[i], embed(roster[i].bio).value);
    catalog
  }

  /** The script. It returns how it ends and what it did outside itself, in order. */
  method BuildEmbeddings(apiKey: Option<string>, roster: seq<Therapist>, embed: Provider)
    returns (exit: Exit, log: seq<Effect>)
    // no key: exit 1 before any request and without writing
    ensures !KeyConfigured(apiKey) ==> exit == MissingApiKey && log == []
    // every request succeeds: the catalog is written once, last
    ensures KeyConfigured(apiKey) && FirstFailure(roster, embed) == |roster| ==>
              exit == Success &&
              log == Progress(roster, |roster|) + [WriteCatalog(Enrich(roster, embed))]
    // entry k fails: exit 1 right after its request, nothing written
    ensures KeyConfigured(apiKey) && FirstFailure(roster, embed) < |roster| ==>
              var k := FirstFailure(roster, embed);
              exit == EmbedFailed(k) && log == Progress(roster, k) + [EmbedRequest(roster[k].bio)]
    // the process exits 0 exactly when it has written the catalog
    ensures ExitCode(exit) == 0 <==> Writes(log) == 1
  {
    log := [];
    if !KeyConfigured(apiKey) {
      return MissingApiKey, log;
    }
    var enriched: seq<CatalogEntry> := [];
    for i := 0 to |roster|
      invariant i <= FirstFailure(roster, embed)
      invariant log == Progress(roster, i)
      invariant enriched == Enrich(roster[..i], embed)
    {
      var therapist := roster[i];
      log := log + [EmbedRequest(therapist.bio)];
      var reply := embed(therapist.bio);
      if reply.None? {
        FailureIsFirst(roster, embed, i);
        FailedRun(roster, i);
        assert Writes(log) == 0 && ExitCode(EmbedFailed(i)) == 1;
        return EmbedFailed(i), log;
      }
      assert roster[..i + 1] == roster[..i] + [therapist];
      enriched := enriched + [WithEmbedding(therapist, reply.value)];
      if i < |roster| - 1 {
        log := log + [Pause(DelayMs)];
      }
      FirstFailureBeyond(roster, embed, i);
    }
    assert roster[..|roster|] == roster;
    log := log + [WriteCatalog(enriched)];
    SuccessfulRun(roster, embed);
    assert Writes(log) == 1 && ExitCode(Success) == 0;
    return Success, log;
  }

  /** Entries before position i succeeded and entry i fails: i is the first failure. */
  lemma FailureIsFirst(roster: seq<Therapist>, embed: Provider, i: nat)
    requires i < |roster| && i <= FirstFailure(roster, embed) && embed(roster[i].bio).None?
    ensures FirstFailure(roster, embed) == i
  {
  }

  /** Entries up to position i succeeded: the first failure lies beyond i. */
  lemma FirstFailureBeyond(roster: seq<Therapist>, embed: Provider, i: nat)
    requires i < |roster| && i <= FirstFailure(roster, embed) && embed(roster[i].bio).Some?
    ensures i + 1 <= FirstFailure(roster, embed)
  {
  }

  /** After entries 0 to k - 1: their bios requested in roster order, a pause after each one but
      the roster's last, and no write yet. */
  lemma {:induction false} ProgressCounts(roster: seq<Therapist>, k: nat)
    requires k <= |roster|
    ensures Requests(Progress(roster, k)) == Bios(roster[..k])
    ensures Pauses(Progress(roster, k)) == if k == |roster| && k > 0 then k - 1 else k
    ensures Writes(Progress(roster, k)) == 0
  {
    if k > 0 {
      ProgressCounts(roster, k - 1);
      ProgressStep(roster, k);
      BiosExtended(roster, k - 1);
    }
  }

  /** Handling entry k - 1 adds its request and, unless it is the last entry, one pause. */
  lemma ProgressStep(roster: seq<Therapist>, k: nat)
    requires 0 < k <= |roster|
    ensures Requests(Progress(roster, k)) == Requests(Progress(roster, k - 1)) + [roster[k - 1].bio]
    ensures Pauses(Progress(roster, k)) == Pauses(Progress(roster, k - 1)) + if k < |roster| then 1 else 0
    ensures Writes(Progress(roster, k)) == Writes(Progress(roster, k - 1))
  {
    var before := Progress(roster, k - 1) + [EmbedRequest(roster[k - 1].bio)];
    CountsDistribute(Progress(roster, k - 1), [EmbedRequest(roster[k - 1].bio)]);
    SingleEffect(EmbedRequest(roster[k - 1].bio));
    if k < |roster| {
      CountsDistribute(before, [Pause(DelayMs)]);
      SingleEffect(Pause(DelayMs));
    } else {
      assert Progress(roster, k) == before;
    }
  }

  /** What one effect counts for. */
  lemma SingleEffect(e: Effect)
    ensures Requests([e]) == if e.EmbedRequest? then [e.text] else []
    ensures Pauses([e]) == if e.Pause? then 1 else 0
    ensures Writes([e]) == if e.WriteCatalog? then 1 else 0
  {
    assert [e][..0] == [];
  }

  /** A run in which every request succeeds: one request per roster entry with that entry's bio,
      in roster order; n - 1 pauses, none after the last request; and exactly one write, of the
      whole catalog, as the last thing the run does. */
  lemma SuccessfulRun(roster: seq<Therapist>, embed: Provider)
    requires FirstFailure(roster, embed) == |roster|
    ensures var log := Progress(roster, |roster|) + [WriteCatalog(Enrich(roster, embed))];
            && Requests(log) == Bios(roster)
            && Pauses(log) == (if roster == [] then 0 else |roster| - 1)
            && Writes(log) == 1
            && log[|log| - 1] == WriteCatalog(Enrich(roster, embed))
            && (roster != [] ==> log[|log| - 2] == EmbedRequest(roster[|roster| - 1].bio))
  {
    var n := |roster|;
    ProgressCounts(roster, n);
    CountsDistribute(Progress(roster, n), [WriteCatalog(Enrich(roster, embed))]);
    SingleEffect(WriteCatalog(Enrich(roster, embed)));
    assert roster[..n] == roster;
  }

  /** A run that fails at entry k (FirstFailure): the bios of entries 0 to k requested in order
      and no later one, k pauses, and no write, so an earlier catalog file is left as it was. */
  lemma FailedRun(roster: seq<Therapist>, k: nat)
    requires k < |roster|
    ensures var log := Progress(roster, k) + [EmbedRequest(roster[k].bio)];
            && Requests(log) == Bios(roster[..k + 1])
            && Pauses(log) == k
            && Writes(log) == 0
  {
    ProgressCounts(roster, k);
    CountsDistribute(Progress(roster, k), [EmbedRequest(roster[k].bio)]);
    SingleEffect(EmbedRequest(roster[k].bio));
    BiosExtended(roster, k);
  }

  /** One more roster entry adds its bio at the end. */
  lemma BiosExtended(roster: seq<Therapist>, k: nat)
    requires k < |roster|
    ensures Bios(roster[..k + 1]) == Bios(roster[..k]) + [roster[k].bio]
  {
  }
}
