/** Load-time copying of the `default` client's top-level fields into every other client's map. */
module Merge {
  import opened Values

  /**
   * What default-merging does to one client entry: a map gains the default fields it
   * lacks and keeps every field it has; any other value is left alone.
   */
  ghost predicate IsMergeOf(after: Value, before: Value, defaults: map<string, Value>)
  {
    if before.Map? then
      && after.Map?
      && after.fields.Keys == before.fields.Keys + defaults.Keys
      && (forall k :: k in before.fields ==> after.fields[k] == before.fields[k])
      && (forall k :: k in defaults && k !in before.fields ==> after.fields[k] == defaults[k])
    else
      after == before
  }

  /** The one value `IsMergeOf` allows. */
  lemma MergeOfUnique(a: Value, b: Value, before: Value, defaults: map<string, Value>)
    requires IsMergeOf(a, before, defaults) && IsMergeOf(b, before, defaults)
    ensures a == b
  {
    if before.Map? {
      assert a.fields == b.fields;
    }
  }

  function MergeClient(client: Value, defaults: map<string, Value>): (r: Value)
    ensures IsMergeOf(r, client, defaults)
  {
    if client.Map? then Map(defaults + client.fields) else client
  }

  /** `mergeDefaults`: every client entry of one version merged with the same defaults. */
  function MergeDefaults(clients: Answers, defaults: map<string, Value>): (r: Answers)
    ensures r.Keys == clients.Keys
    ensures forall c :: c in clients ==> IsMergeOf(r[c], clients[c], defaults)
  {
    map c | c in clients :: MergeClient(clients[c], defaults)
  }

  /** Every map-valued client entry already holds every key of the default map. */
  ghost predicate DefaultsApplied(data: Answers)
  {
    DefaultKey in data && data[DefaultKey].Map? ==>
      forall c :: c in data && data[c].Map? ==> data[DefaultKey].fields.Keys <= data[c].fields.Keys
  }

  /**
   * The per-version step of `loadAnswersFromFile`: when the version has a map-valued
   * `default` entry, it is merged into every client entry; otherwise nothing changes.
   */
  function MergeAnswers(data: Answers): (r: Answers)
    ensures r.Keys == data.Keys
    ensures DefaultKey in data && data[DefaultKey].Map? ==>
      forall c :: c in data ==> IsMergeOf(r[c], data[c], data[DefaultKey].fields)
    ensures !(DefaultKey in data && data[DefaultKey].Map?) ==> r == data
    ensures DefaultKey in data ==> r[DefaultKey] == data[DefaultKey]
    ensures DefaultsApplied(r)
  {
    if DefaultKey in data && data[DefaultKey].Map? then
      var d := data[DefaultKey].fields;
      assert d + d == d;
      MergeDefaults(data, d)
    else
      data
  }

  /** The merge over every version of a freshly parsed tree. */
  function MergeVersions(neu: Versions): (r: Versions)
    ensures r.Keys == neu.Keys
    ensures forall v :: v in neu ==> r[v].Keys == neu[v].Keys && DefaultsApplied(r[v])
    ensures forall v, c :: v in neu && c in neu[v] && DefaultKey in neu[v] && neu[v][DefaultKey].Map? ==>
      IsMergeOf(r[v][c], neu[v][c], neu[v][DefaultKey].fields)
    ensures forall v :: v in neu && !(DefaultKey in neu[v] && neu[v][DefaultKey].Map?) ==> r[v] == neu[v]
  {
    map v | v in neu :: MergeAnswers(neu[v])
  }

  /** Merging the same defaults a second time changes nothing. */
  lemma MergeDefaultsIdempotent(clients: Answers, defaults: map<string, Value>)
    ensures MergeDefaults(MergeDefaults(clients, defaults), defaults) == MergeDefaults(clients, defaults)
  {
    var once := MergeDefaults(clients, defaults);
    var twice := MergeDefaults(once, defaults);
    forall c | c in clients
      ensures twice[c] == once[c]
    {
      if clients[c].Map? {
        assert twice[c].fields == once[c].fields;
      }
    }
  }

  /** A tree whose defaults are already applied is left as it is by the merge. */
  lemma MergeAnswersNoOpWhenApplied(data: Answers)
    requires DefaultsApplied(data)
    ensures MergeAnswers(data) == data
  {
    var r := MergeAnswers(data);
    forall c | c in data
      ensures r[c] == data[c]
    {
      if DefaultKey in data && data[DefaultKey].Map? && data[c].Map? {
        assert r[c].fields == data[c].fields;
      }
    }
  }

  lemma MergeAnswersIdempotent(data: Answers)
    ensures MergeAnswers(MergeAnswers(data)) == MergeAnswers(data)
  {
    MergeAnswersNoOpWhenApplied(MergeAnswers(data));
  }

  /** Loading the merged tree again would publish the same tree. */
  lemma MergeVersionsIdempotent(neu: Versions)
    ensures MergeVersions(MergeVersions(neu)) == MergeVersions(neu)
  {
    var once := MergeVersions(neu);
    forall v | v in neu
      ensures MergeAnswers(once[v]) == once[v]
    {
      MergeAnswersIdempotent(neu[v]);
    }
  }
}
