/**
 * The history extractor: from the raw commits the git log collaborator
 * returns for one repository, keep those authored by the user (`isUser`) and
 * turn each into a stored record (`repoHistories`).
 *
 * The filter-and-map runs inside the promise's `.then`; a TypeError thrown
 * there (a commit without an author, a hash that is not a string) rejects the
 * promise, and the `.catch` turns it, like a failure of the collaborator
 * itself, into an empty history for that repository.
 */
module Commits {
  import opened Wrappers
  import opened Json
  import opened Seqs
  import Identifier

  const ActivityTag := "activity-hack"

  /** `commit.author`: reading `email` or `timestamp` from it does not throw. */
  predicate HasAuthor(commit: Record) {
    Get(commit, "author") != None && Get(commit, "author") != Some(Null)
  }

  /** The author's email when the author is an object carrying one. */
  function AuthorEmail(commit: Record): Option<Value> {
    match Get(commit, "author")
    case Some(Obj(author)) => Get(author, "email")
    case _ => None
  }

  /** `isUser(commit, userEmail)`: `commit.author.email === userEmail`. */
  function IsUser(commit: Record, userEmail: string): (r: Result<bool, JsError>)
    ensures r.Success? <==> HasAuthor(commit)
    ensures r.Success? ==> (r.value <==> AuthorEmail(commit) == Some(Str(userEmail)))
  {
    match ReadProperty(Get(commit, "author"), "email")
    case Failure(e) => Failure(e)
    case Success(email) => Success(email == Some(Str(userEmail)))
  }

  /** The commits `isUser` accepts, once none of them throws. */
  function AuthoredBy(userEmail: string): Record -> bool {
    c => AuthorEmail(c) == Some(Str(userEmail))
  }

  /**
   * `json.filter(commit => isUser(commit, userEmail))`: the predicate runs on
   * every commit in order, and the first TypeError aborts the filter. When
   * none throws, the result is the plain filter on the author's email: the
   * user's commits, each as often as in the input, in input order.
   */
  function UserCommits(json: seq<Record>, userEmail: string): (r: Result<seq<Record>, JsError>)
    ensures r.Success? <==> forall c :: c in json ==> HasAuthor(c)
    ensures r.Success? ==> r.value == Filter(AuthoredBy(userEmail), json)
    ensures r.Success? ==> IsSubsequence(r.value, json)
    ensures r.Success? ==> forall c :: c in r.value <==> c in json && AuthorEmail(c) == Some(Str(userEmail))
    ensures r.Success? ==> forall c :: multiset(r.value)[c] == if AuthorEmail(c) == Some(Str(userEmail)) then multiset(json)[c] else 0
  {
    if json == [] then
      Success([])
    else
      match IsUser(json[0], userEmail)
      case Failure(e) => Failure(e)
      case Success(keep) =>
        match UserCommits(json[1..], userEmail)
        case Failure(e) => Failure(e)
        case Success(rest) =>
          assert forall c :: c in json <==> c == json[0] || c in json[1..];
          Success(if keep then [json[0]] + rest else rest)
  }

  /** The commit's hash when it is a string; any other value has no `substring`. */
  predicate HasStringHash(commit: Record) {
    Get(commit, "hash").Some? && Get(commit, "hash").value.Str?
  }

  /**
   * The record the program stores for a commit:
   * `Object.assign({timestamp, dataType, dataSource, uuid}, commit)`. The four
   * derived properties are computed first (reading `commit.author.timestamp`
   * and `uuidFromSha1(commit.hash)`), then every own property of the commit is
   * copied over them. A `timestamp` that reads as `undefined` is left out.
   * `dataSource` is the text of the provenance tag the program interpolates.
   */
  function Normalise(commit: Record, dataSource: string): (r: Result<Record, JsError>)
    ensures r.Success? <==> HasAuthor(commit) && HasStringHash(commit)
  {
    match ReadProperty(Get(commit, "author"), "timestamp")
    case Failure(e) => Failure(e)
    case Success(timestamp) =>
      match Get(commit, "hash")
      case Some(Str(hash)) =>
        var derived := map["dataType" := Str(ActivityTag), "dataSource" := Str(dataSource),
                           "uuid" := Str(Identifier.UuidFromSha1(hash))];
        var defaults := if timestamp.Some? then derived["timestamp" := timestamp.value] else derived;
        Success(defaults + commit)
      case _ => Failure(TypeError("substring"))
  }

  /**
   * A normalised record keeps every property of the commit with the commit's
   * value, so the commit's own value wins over a derived one, and adds only
   * the derived properties the commit lacks: the type tag, the provenance tag,
   * the identifier derived from the hash, and the author's timestamp when the
   * author has one.
   */
  lemma NormalisedRecord(commit: Record, dataSource: string)
    requires Normalise(commit, dataSource).Success?
    ensures var r := Normalise(commit, dataSource).value;
      && (forall f :: f in commit ==> f in r && r[f] == commit[f])
      && "dataType" in r && "dataSource" in r && "uuid" in r
      && ("dataType" !in commit ==> r["dataType"] == Str(ActivityTag))
      && ("dataSource" !in commit ==> r["dataSource"] == Str(dataSource))
      && ("uuid" !in commit ==> r["uuid"] == Str(Identifier.UuidFromSha1(commit["hash"].s)))
      && ("timestamp" !in commit ==>
           match Get(commit, "author")
           case Some(Obj(author)) => Get(r, "timestamp") == Get(author, "timestamp")
           case _ => "timestamp" !in r)
      && r.Keys - commit.Keys <= {"timestamp", "dataType", "dataSource", "uuid"}
  {
  }

  /** `.map(commit => Object.assign(...))`: the first TypeError aborts the map. */
  function NormaliseAll(commits: seq<Record>, dataSource: string): (r: Result<seq<Record>, JsError>)
    ensures r.Success? <==> forall i :: 0 <= i < |commits| ==> Normalise(commits[i], dataSource).Success?
    ensures r.Success? ==> |r.value| == |commits|
    ensures r.Success? ==> forall i :: 0 <= i < |commits| ==> Normalise(commits[i], dataSource) == Success(r.value[i])
  {
    MapOrFail(c => Normalise(c, dataSource), commits)
  }

  /**
   * The history one repository contributes: the collaborator's commits
   * (None when it failed), filtered to the user and normalised; any failure
   * along the way yields the empty history.
   */
  function RepoHistory(log: Option<seq<Record>>, userEmail: string, dataSource: string): seq<Record> {
    match log
    case None => []
    case Some(json) =>
      match UserCommits(json, userEmail)
      case Failure(_) => []
      case Success(users) => NormaliseAll(users, dataSource).GetOr([])
  }

  // ---------------------------------------------------------------------------
  // Properties

  /**
   * Every record in a repository's history keeps the commit's author, whose
   * email is exactly the user's, and carries the type tag, a provenance and an
   * identifier.
   */
  lemma RepoHistoryIsTheUsers(log: Option<seq<Record>>, userEmail: string, dataSource: string, r: Record)
    requires r in RepoHistory(log, userEmail, dataSource)
    ensures AuthorEmail(r) == Some(Str(userEmail))
    ensures "dataType" in r && "dataSource" in r && "uuid" in r
  {
    var json := log.value;
    var u := UserCommits(json, userEmail);
    assert u.Success?;
    var users := u.value;
    var n := NormaliseAll(users, dataSource);
    assert n.Success?;
    var out := n.value;
    assert RepoHistory(log, userEmail, dataSource) == out;
    var i :| 0 <= i < |out| && out[i] == r;
    var c := users[i];
    assert c in users;
    assert AuthorEmail(c) == Some(Str(userEmail));
    assert Normalise(c, dataSource) == Success(r);
    NormalisedRecord(c, dataSource);
    assert "author" in c && r["author"] == c["author"];
    assert Get(r, "author") == Get(c, "author");
  }

  /**
   * When the collaborator succeeds and every commit has an author and every
   * user commit a string hash, the history is exactly the user's commits, in
   * their original order, each normalised; otherwise it is empty.
   */
  lemma RepoHistoryCharacterised(json: seq<Record>, userEmail: string, dataSource: string)
    ensures var h := RepoHistory(Some(json), userEmail, dataSource);
      if (forall c :: c in json ==> HasAuthor(c))
         && (forall c :: c in json && AuthorEmail(c) == Some(Str(userEmail)) ==> HasStringHash(c))
      then
        var users := UserCommits(json, userEmail).value;
        && users == Filter(AuthoredBy(userEmail), json)
        && IsSubsequence(users, json)
        && (forall c :: c in users <==> c in json && AuthorEmail(c) == Some(Str(userEmail)))
        && (forall c :: multiset(users)[c] == if AuthorEmail(c) == Some(Str(userEmail)) then multiset(json)[c] else 0)
        && |h| == |users|
        && forall i :: 0 <= i < |users| ==> Normalise(users[i], dataSource) == Success(h[i])
      else
        h == []
  {
    var u := UserCommits(json, userEmail);
    if u.Success? {
      var n := NormaliseAll(u.value, dataSource);
      assert RepoHistory(Some(json), userEmail, dataSource) == n.GetOr([]);
      if forall c :: c in json && AuthorEmail(c) == Some(Str(userEmail)) ==> HasStringHash(c) {
        assert forall i :: 0 <= i < |u.value| ==> Normalise(u.value[i], dataSource).Success? by {
          forall i | 0 <= i < |u.value| ensures Normalise(u.value[i], dataSource).Success? {
            assert u.value[i] in u.value;
          }
        }
      }
    }
  }
}
