/**
 * The pure part of the `metadata` handler: choosing the version, cutting the escaped
 * path into segments and decoding them, and the response that follows.
 */
module Request {
  import opened Wrappers
  import opened Values
  import opened Strings
  import opened Foreign

  const LatestVersion: string := "latest"
  const StatusBadRequest: int := 400
  const StatusNotFound: int := 404

  /** `order` lists exactly the keys of `m`, in some order (`answers.Versions()`). */
  ghost predicate ListsKeys<V>(order: seq<string>, m: map<string, V>)
  {
    forall k :: k in order <==> k in m
  }

  /**
   * The `latest` search: starting from `best`, each key greater than the best so far
   * replaces it. The result is the greatest of `best` and the keys.
   */
  function LatestFrom(best: string, keys: seq<string>): (r: string)
    ensures r == best || r in keys
    ensures LessEq(best, r)
    ensures forall i :: 0 <= i < |keys| ==> LessEq(keys[i], r)
    decreases |keys|
  {
    if |keys| == 0 then best
    else
      var next := if Less(best, keys[0]) then keys[0] else best;
      var r := LatestFrom(next, keys[1..]);
      LessEqTotal(best, keys[0]);
      if Less(best, keys[0]) then
        LessEqTransitive(best, keys[0], r);
        r
      else
        LessEqTransitive(keys[0], best, r);
        r
  }

  /** The order in which the keys are visited does not change the version `latest` picks. */
  lemma LatestOrderIndependent(best: string, keys1: seq<string>, keys2: seq<string>)
    requires forall k :: k in keys1 <==> k in keys2
    ensures LatestFrom(best, keys1) == LatestFrom(best, keys2)
  {
    var r1 := LatestFrom(best, keys1);
    var r2 := LatestFrom(best, keys2);
    if r1 in keys1 {
      var i :| 0 <= i < |keys2| && keys2[i] == r1;
    }
    if r2 in keys2 {
      var i :| 0 <= i < |keys1| && keys1[i] == r2;
    }
    LessEqAntisymmetric(r1, r2);
  }

  /**
   * Version selection: an existing key is used as it is, even `latest`; a missing
   * `latest` stands for the greatest key (or "" when there are none); any other missing
   * version is refused.
   */
  function SelectVersion(answers: Versions, versionKeys: seq<string>, requested: string): (r: Option<string>)
    requires ListsKeys(versionKeys, answers)
    ensures requested in answers ==> r == Some(requested)
    ensures requested !in answers && requested != LatestVersion ==> r == None
    ensures requested !in answers && requested == LatestVersion ==>
      && r.Some?
      && (r.value in answers || r.value == "")
      && (forall k :: k in answers ==> LessEq(k, r.value))
      && (|answers| > 0 ==> r.value in answers)
  {
    if requested in answers then Some(requested)
    else if requested == LatestVersion then
      var v := LatestFrom("", versionKeys);
      assert |answers| > 0 ==> v in answers by {
        if |answers| > 0 && v !in answers {
          var k :| k in answers;
          assert k in versionKeys;
          EmptyIsLeast(k);
          LessEqAntisymmetric(k, "");
        }
      }
      Some(v)
    else None
  }

  /**
   * The key segments of a request: the escaped path without its leading `/` and its
   * trailing `/`s, split on `/`, the first piece (the version) dropped.
   */
  function PathSegments(escapedPath: string): (segments: seq<string>)
    requires |escapedPath| > 0
    ensures var trimmed := TrimRight(escapedPath[1..], '/');
      && |segments| == CountChar(trimmed, '/')
      && (forall i :: 0 <= i < |segments| ==> '/' !in segments[i])
      && exists version :: '/' !in version && Join([version] + segments, '/') == trimmed
  {
    var trimmed := TrimRight(escapedPath[1..], '/');
    var pieces := Split(trimmed, '/');
    SplitCount(trimmed, '/');
    SplitPiecesHaveNoSeparator(trimmed, '/');
    JoinSplit(trimmed, '/');
    assert pieces == [pieces[0]] + pieces[1..];
    pieces[1..]
  }

  /** Slashes after the last segment do not change the segments. */
  lemma {:induction false} PathSegmentsIgnoreTrailingSlash(escapedPath: string)
    requires |escapedPath| > 0
    ensures PathSegments(escapedPath + "/") == PathSegments(escapedPath)
  {
    assert (escapedPath + "/")[1..] == escapedPath[1..] + ['/'];
    TrimRightAbsorbs(escapedPath[1..], '/');
  }

  /**
   * Decodes the segments in order and stops at the first that does not decode,
   * whose error is the result.
   */
  function UnescapeSegments(segments: seq<string>, unescape: string -> Result<string, string>): (r: Result<seq<string>, string>)
    ensures r.Success? <==> forall i :: 0 <= i < |segments| ==> unescape(segments[i]).Success?
    ensures r.Success? ==>
      && |r.value| == |segments|
      && forall i :: 0 <= i < |segments| ==> unescape(segments[i]) == Success(r.value[i])
    ensures r.Failure? ==>
      exists i :: 0 <= i < |segments| && unescape(segments[i]) == Failure(r.error)
        && forall j :: 0 <= j < i ==> unescape(segments[j]).Success?
  {
    if |segments| == 0 then Success([])
    else
      match unescape(segments[0])
      case Failure(e) => Failure(e)
      case Success(first) =>
        match UnescapeSegments(segments[1..], unescape)
        case Failure(e) =>
          assert forall i :: 1 <= i <= |segments[1..]| ==> segments[1..][i - 1] == segments[i];
          Failure(e)
        case Success(rest) => Success([first] + rest)
  }

  /** The outcome of a `metadata` request before it is rendered. */
  datatype Response = Found(value: Value) | Failed(message: string, status: int)

  /** `answers.Matching(version, clientIp, segments)`, whose code is not part of this model. */
  type Matcher = (Versions, string, string, seq<string>) -> Option<Value>

  /**
   * The `metadata` handler: the version is checked first, then the path segments are
   * decoded, and only then is the tree searched.
   */
  function Metadata(answers: Versions, versionKeys: seq<string>, requested: string, clientIp: string,
                    escapedPath: string, lib: Routines, matching: Matcher): (r: Response)
    requires ListsKeys(versionKeys, answers)
    requires |escapedPath| > 0
    ensures r == Failed("Invalid version", StatusNotFound) <==> requested !in answers && requested != LatestVersion
    ensures r.Failed? && r.status == StatusBadRequest <==>
      && (requested in answers || requested == LatestVersion)
      && exists s :: s in PathSegments(escapedPath) && lib.queryUnescape(s).Failure?
    ensures r.Found? || r == Failed("Not found", StatusNotFound) ==>
      && SelectVersion(answers, versionKeys, requested).Some?
      && UnescapeSegments(PathSegments(escapedPath), lib.queryUnescape).Success?
      && matching(answers, SelectVersion(answers, versionKeys, requested).value, clientIp,
                  UnescapeSegments(PathSegments(escapedPath), lib.queryUnescape).value)
         == (if r.Found? then Some(r.value) else None)
    ensures (&& SelectVersion(answers, versionKeys, requested).Some?
             && UnescapeSegments(PathSegments(escapedPath), lib.queryUnescape).Success?) ==>
      r == match matching(answers, SelectVersion(answers, versionKeys, requested).value, clientIp,
                          UnescapeSegments(PathSegments(escapedPath), lib.queryUnescape).value)
           case Some(v) => Found(v)
           case None => Failed("Not found", StatusNotFound)
    ensures r.Failed? && r.status == StatusBadRequest ==>
      r.message == UnescapeSegments(PathSegments(escapedPath), lib.queryUnescape).error
  {
    match SelectVersion(answers, versionKeys, requested)
    case None => Failed("Invalid version", StatusNotFound)
    case Some(version) =>
      var segments := PathSegments(escapedPath);
      match UnescapeSegments(segments, lib.queryUnescape)
      case Failure(e) => Failed(e, StatusBadRequest)
      case Success(decoded) =>
        match matching(answers, version, clientIp, decoded)
        case Some(v) => Found(v)
        case None => Failed("Not found", StatusNotFound)
  }

  /** A literal `latest` version is served as itself, never replaced by the greatest key. */
  lemma MetadataLiteralLatest(answers: Versions, versionKeys: seq<string>, clientIp: string,
                              escapedPath: string, lib: Routines, matching: Matcher)
    requires ListsKeys(versionKeys, answers)
    requires |escapedPath| > 0
    requires LatestVersion in answers
    requires forall s :: s in PathSegments(escapedPath) ==> lib.queryUnescape(s).Success?
    ensures var decoded := UnescapeSegments(PathSegments(escapedPath), lib.queryUnescape).value;
      Metadata(answers, versionKeys, LatestVersion, clientIp, escapedPath, lib, matching)
        == match matching(answers, LatestVersion, clientIp, decoded)
           case Some(v) => Found(v)
           case None => Failed("Not found", StatusNotFound)
  {
  }

  /** When a segment does not decode, the tree is never searched: the matcher cannot affect the answer. */
  lemma MetadataBadRequestSkipsMatching(answers: Versions, versionKeys: seq<string>, requested: string,
                                        clientIp: string, escapedPath: string, lib: Routines,
                                        m1: Matcher, m2: Matcher)
    requires ListsKeys(versionKeys, answers)
    requires |escapedPath| > 0
    requires exists s :: s in PathSegments(escapedPath) && lib.queryUnescape(s).Failure?
    ensures Metadata(answers, versionKeys, requested, clientIp, escapedPath, lib, m1)
         == Metadata(answers, versionKeys, requested, clientIp, escapedPath, lib, m2)
  {
  }

  /** A request with trailing slashes is answered like the one without. */
  lemma MetadataIgnoresTrailingSlash(answers: Versions, versionKeys: seq<string>, requested: string,
                                     clientIp: string, escapedPath: string, lib: Routines, matching: Matcher)
    requires ListsKeys(versionKeys, answers)
    requires |escapedPath| > 0
    ensures Metadata(answers, versionKeys, requested, clientIp, escapedPath + "/", lib, matching)
         == Metadata(answers, versionKeys, requested, clientIp, escapedPath, lib, matching)
  {
    PathSegmentsIgnoreTrailingSlash(escapedPath);
  }
}
