/** What the Google Cloud Storage client libraries report, as far as the
    storage backends look at it, and the download loop the backends share:
    read the generation, download, read the generation again, and retry
    while the object changed under the download. */
module GoogleApi {
  import opened Wrappers
  import opened Errors

  /** The exception classes the backends tell apart. */
  datatype ApiKind = NotFoundKind | PreconditionKind | TimeoutKind | ServerTimeoutKind | OtherKind

  /** A client exception: its class, its text (`str(e)`) and its HTTP
      status, if it carries one. */
  datatype ApiError = ApiError(kind: ApiKind, message: string, status: Option<int>)

  /** One turn of a download loop: the generation before the download, the
      downloaded content, and the generation after it. */
  datatype Round = Round(before: Outcome<Option<int>, ApiError>, data: Outcome<string, ApiError>,
                         after: Outcome<Option<int>, ApiError>)

  /** A round in which all three calls answered. */
  predicate Answered(r: Round) {
    r.before.Ok? && r.data.Ok? && r.after.Ok?
  }

  /** An answered round whose download can be trusted: no revision before
      it, or the same revision after it. */
  predicate Settled(r: Round, revision: Option<int> -> Option<int>)
    requires Answered(r)
  {
    revision(r.before.value).None? || revision(r.before.value) == revision(r.after.value)
  }

  /** The first failing call of a round. */
  function RoundError(r: Round): ApiError
    requires !Answered(r)
  {
    if r.before.Err? then r.before.error
    else if r.data.Err? then r.data.error
    else r.after.error
  }

  /** The download loop over the rounds the environment plays: the first
      settled round returns its content and its first revision, the first
      failing call is classified, and when every round saw the object
      change the loop is still running (`None`). */
  function ReadOutcome(rounds: seq<Round>, location: string, revision: Option<int> -> Option<int>,
                       classify: (ApiError, string) -> Error)
    : (r: Option<Outcome<(string, Option<int>), Error>>)
    ensures r.Some? && r.value.Ok? ==>
      exists k :: 0 <= k < |rounds| && Answered(rounds[k]) && Settled(rounds[k], revision) &&
        r.value.value == (rounds[k].data.value, revision(rounds[k].before.value))
    ensures r.Some? && r.value.Err? ==>
      exists k :: 0 <= k < |rounds| && !Answered(rounds[k]) && r.value.error == classify(RoundError(rounds[k]), location)
    ensures r.None? <==> forall k :: 0 <= k < |rounds| ==> Answered(rounds[k]) && !Settled(rounds[k], revision)
  {
    if rounds == [] then None
    else if !Answered(rounds[0]) then Some(Err(classify(RoundError(rounds[0]), location)))
    else if Settled(rounds[0], revision) then Some(Ok((rounds[0].data.value, revision(rounds[0].before.value))))
    else
      var rest := ReadOutcome(rounds[1..], location, revision, classify);
      assert forall k :: 0 <= k < |rounds| - 1 ==> rounds[1..][k] == rounds[k + 1];
      rest
  }

  /** The rounds before the one that decides a read all saw the object
      change: a read never returns after a round that was already settled. */
  lemma {:induction false} ReadDecidedByFirstSettled(rounds: seq<Round>, location: string, revision: Option<int> -> Option<int>,
                                                     classify: (ApiError, string) -> Error, k: nat)
    requires k < |rounds| && Answered(rounds[k]) && Settled(rounds[k], revision)
    requires forall j :: 0 <= j < k ==> Answered(rounds[j]) && !Settled(rounds[j], revision)
    ensures ReadOutcome(rounds, location, revision, classify) ==
      Some(Ok((rounds[k].data.value, revision(rounds[k].before.value))))
  {
    if k > 0 {
      assert forall j :: 0 <= j < k - 1 ==> rounds[1..][j] == rounds[j + 1];
      ReadDecidedByFirstSettled(rounds[1..], location, revision, classify, k - 1);
    }
  }

  /** The `while True` download loop, driven by the rounds: returns what
      `ReadOutcome` says, `None` when the rounds run out with the loop
      still going. */
  method ReadLoop(rounds: seq<Round>, location: string, revision: Option<int> -> Option<int>,
                  classify: (ApiError, string) -> Error)
    returns (r: Option<Outcome<(string, Option<int>), Error>>)
    ensures r == ReadOutcome(rounds, location, revision, classify)
  {
    var i := 0;
    while i < |rounds|
      invariant 0 <= i <= |rounds|
      invariant ReadOutcome(rounds, location, revision, classify) == ReadOutcome(rounds[i..], location, revision, classify)
    {
      var round := rounds[i];
      if round.before.Err? {
        return Some(Err(classify(round.before.error, location)));
      }
      var rev := revision(round.before.value);
      if round.data.Err? {
        return Some(Err(classify(round.data.error, location)));
      }
      if round.after.Err? {
        return Some(Err(classify(round.after.error, location)));
      }
      var newRev := revision(round.after.value);
      if rev.None? || rev == newRev {
        return Some(Ok((round.data.value, rev)));
      }
      assert rounds[i..][1..] == rounds[i + 1..];
      i := i + 1;
    }
    return None;
  }
}
