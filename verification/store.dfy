/**
 * The published snapshot and its reload. A reload either publishes the newly parsed
 * and default-merged tree or leaves the published one in place.
 */
module Store {
  import opened Wrappers
  import opened Values
  import opened Merge

  /** The two package variables `answers` and `loading`. */
  datatype State = State(answers: Versions, loading: bool)

  /** Before the first load: no answers, not loading. */
  const Initial: State := State(map[], false)

  /** What a reload leaves behind and what it hands back to its caller. */
  datatype Reloaded = Reloaded(state: State, returned: Versions, err: Option<string>)

  /**
   * `loadAnswersFromFile`, with the outcome of `ParseAnswers` as its input. `loading` is
   * raised on entry and lowered only when the new tree is published.
   */
  function Reload(s: State, parsed: Result<Versions, string>): (r: Reloaded)
    ensures parsed.Failure? ==>
      && r.state.answers == s.answers
      && r.state.loading
      && r.returned == s.answers
      && r.err == Some(parsed.error)
    ensures parsed.Success? ==>
      && r.state.answers == MergeVersions(parsed.value)
      && !r.state.loading
      && r.returned == r.state.answers
      && r.err == None
  {
    var entering := s.(loading := true);
    match parsed
    case Failure(e) => Reloaded(entering, entering.answers, Some(e))
    case Success(neu) =>
      var published := entering.(answers := MergeVersions(neu), loading := false);
      Reloaded(published, published.answers, None)
  }

  /** After a successful reload every version serves merged answers covering the parsed versions. */
  lemma ReloadPublishesMergedTree(s: State, neu: Versions)
    ensures var r := Reload(s, Success(neu));
      && r.state.answers.Keys == neu.Keys
      && (forall v :: v in neu ==> r.state.answers[v].Keys == neu[v].Keys)
      && (forall v :: v in neu ==> DefaultsApplied(r.state.answers[v]))
  {
  }

  /** Reload requests handled one after another, in arrival order. */
  function ReloadAll(s: State, parses: seq<Result<Versions, string>>): (r: State)
    ensures |parses| == 0 ==> r == s
    ensures |parses| > 0 ==> (r.loading <==> parses[|parses| - 1].Failure?)
    decreases |parses|
  {
    if |parses| == 0 then s else ReloadAll(Reload(s, parses[0]).state, parses[1..])
  }

  /** Failed reloads, however many, leave the published answers as they were. */
  lemma {:induction false} FailedReloadsKeepAnswers(s: State, parses: seq<Result<Versions, string>>)
    requires forall i :: 0 <= i < |parses| ==> parses[i].Failure?
    ensures ReloadAll(s, parses).answers == s.answers
    decreases |parses|
  {
    if |parses| > 0 {
      FailedReloadsKeepAnswers(Reload(s, parses[0]).state, parses[1..]);
    }
  }

  /** What is published after a series of reloads is the merge of the last one that parsed. */
  lemma {:induction false} LastSuccessfulReloadWins(s: State, parses: seq<Result<Versions, string>>, k: nat)
    requires k < |parses| && parses[k].Success?
    requires forall i :: k < i < |parses| ==> parses[i].Failure?
    ensures ReloadAll(s, parses).answers == MergeVersions(parses[k].value)
    decreases |parses|
  {
    if k == 0 {
      FailedReloadsKeepAnswers(Reload(s, parses[0]).state, parses[1..]);
    } else {
      LastSuccessfulReloadWins(Reload(s, parses[0]).state, parses[1..], k - 1);
    }
  }

  /** The package state with the reload as a method on it. */
  class Server {
    var state: State

    constructor ()
      ensures state == Initial
    {
      state := Initial;
    }

    method LoadAnswersFromFile(parsed: Result<Versions, string>) returns (answers: Versions, err: Option<string>)
      modifies this
      ensures parsed.Failure? ==> state.answers == old(state.answers) && answers == old(state.answers)
      ensures parsed.Success? ==> state.answers == MergeVersions(parsed.value) && answers == state.answers
      ensures state.loading <==> parsed.Failure?
      ensures parsed.Failure? ==> err == Some(parsed.error)
      ensures parsed.Success? ==> err == None
    {
      var r := Reload(state, parsed);
      state := r.state;
      answers := r.returned;
      err := r.err;
    }
  }
}
