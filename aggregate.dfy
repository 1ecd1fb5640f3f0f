/**
 * One run of the aggregator, `getUpdatedHistory`: discover the repositories
 * under the roots, extract each one's history, append all of them after the
 * previously stored aggregate and drop duplicates.
 */
module Aggregate {
  import opened Wrappers
  import opened Json
  import opened Seqs
  import opened RepoPaths
  import opened Commits
  import opened Duplicates
  import opened Provenance

  /** The git log collaborator: for a repository path, its raw commits, or None when it fails. */
  type GitLog = Path -> Option<seq<Record>>

  /**
   * `getPrevious`: the stored aggregate, or None when the file is missing or
   * unreadable, which counts as an empty aggregate.
   */
  function Previous(stored: Option<seq<Record>>): seq<Record> {
    stored.GetOr([])
  }

  /**
   * `repoHistories`: one history per repository, in repository order, each
   * stamped with the provenance tag naming the machine.
   */
  function RepoHistories(repos: seq<Path>, log: GitLog, userEmail: string, machine: Machine): (hs: seq<seq<Record>>)
    ensures |hs| == |repos|
    ensures forall i :: 0 <= i < |repos| ==> hs[i] == RepoHistory(log(repos[i]), userEmail, DataSource(machine))
  {
    seq(|repos|, i requires 0 <= i < |repos| => RepoHistory(log(repos[i]), userEmail, DataSource(machine)))
  }

  /** `[].concat(previous, ...histories).filter(duplicate)` */
  function Merge(previous: seq<Record>, histories: seq<seq<Record>>): seq<Record> {
    Dedup(Flatten([previous] + histories))
  }

  /**
   * The new aggregate. A listing error other than ENOENT while expanding the
   * roots is thrown before any history is read, and ends the run.
   */
  function UpdatedHistory(stored: Option<seq<Record>>, fs: FileSystem, roots: seq<Path>,
                          log: GitLog, userEmail: string, machine: Machine): (r: Result<seq<Record>, string>)
    ensures r.Success? <==> ExpandRepoPaths(fs, roots).Success?
    ensures r.Failure? ==> r.error == ExpandRepoPaths(fs, roots).error
    ensures r.Success? ==> DistinctKeys(r.value)
  {
    match ExpandRepoPaths(fs, roots)
    case Failure(e) => Failure(e)
    case Success(repos) =>
      var merged := Merge(Previous(stored), RepoHistories(repos, log, userEmail, machine));
      DedupCorrect(Flatten([Previous(stored)] + RepoHistories(repos, log, userEmail, machine)));
      Success(merged)
  }

  // ---------------------------------------------------------------------------
  // Properties

  lemma FlattenCons(previous: seq<Record>, histories: seq<seq<Record>>)
    ensures Flatten([previous] + histories) == previous + Flatten(histories)
  {
    assert ([previous] + histories)[0] == previous && ([previous] + histories)[1..] == histories;
  }

  /**
   * The merged aggregate has no two records with the same uuid and
   * timestamp, consists of input records in input order, unaltered, and has
   * every key of the previous aggregate and of every history.
   */
  lemma MergeCorrect(previous: seq<Record>, histories: seq<seq<Record>>)
    ensures var m := Merge(previous, histories);
      && DistinctKeys(m)
      && IsSubsequence(m, previous + Flatten(histories))
      && Keys(m) == Keys(previous) + Keys(Flatten(histories))
  {
    FlattenCons(previous, histories);
    DedupCorrect(previous + Flatten(histories));
    KeysAppend(previous, Flatten(histories));
  }

  /**
   * A stored record is never displaced by a freshly extracted duplicate: when
   * the previous aggregate has distinct keys it is a prefix of the merged one,
   * and every record after it has a key new to it.
   */
  lemma PreviousWins(previous: seq<Record>, histories: seq<seq<Record>>)
    requires DistinctKeys(previous)
    ensures var m := Merge(previous, histories);
      && |previous| <= |m|
      && m[..|previous|] == previous
      && forall j :: |previous| <= j < |m| ==> KeyOf(m[j]) !in Keys(previous)
  {
    var m := Merge(previous, histories);
    FlattenCons(previous, histories);
    DedupAppend(previous, Flatten(histories));
    DedupOfDistinct(previous);
    var rest := DedupSeen(Flatten(histories), Keys(previous));
    assert m == previous + rest;
    forall j | |previous| <= j < |m| ensures KeyOf(m[j]) !in Keys(previous) {
      assert m[j] == rest[j - |previous|] && m[j] in rest;
    }
  }

  /**
   * Running again with the same histories adds nothing: merging the merged
   * aggregate with the same histories gives it back unchanged.
   */
  lemma MergeIdempotent(previous: seq<Record>, histories: seq<seq<Record>>)
    ensures Merge(Merge(previous, histories), histories) == Merge(previous, histories)
  {
    var m := Merge(previous, histories);
    var extracted := Flatten(histories);
    MergeCorrect(previous, histories);
    FlattenCons(m, histories);
    DedupAppend(m, extracted);
    DedupOfDistinct(m);
    DedupSeenAllSeen(extracted, Keys(m));
    assert m + [] == m;
  }

  /**
   * A repository that contributes nothing (its log failed, or extracting its
   * history threw) leaves the merge as if it had not been there, and every
   * record any repository contributes has its key in the merged aggregate.
   */
  lemma FailedRepositoryIsIsolated(previous: seq<Record>, histories: seq<seq<Record>>, i: nat)
    requires i < |histories| && histories[i] == []
    ensures Merge(previous, histories) == Merge(previous, histories[..i] + histories[i + 1..])
  {
    var pre, post := histories[..i], histories[i + 1..];
    assert histories == pre + ([[]] + post);
    FlattenAppend(pre, [[]] + post);
    FlattenAppend(pre, post);
    assert Flatten([[]] + post) == [] + Flatten(post);
    assert [] + Flatten(post) == Flatten(post);
    FlattenCons(previous, histories);
    FlattenCons(previous, pre + post);
  }

  lemma EveryContributedKeyKept(previous: seq<Record>, histories: seq<seq<Record>>, i: nat, r: Record)
    requires i < |histories| && r in histories[i]
    ensures KeyOf(r) in Keys(Merge(previous, histories))
  {
    MergeCorrect(previous, histories);
    FlattenMember(histories, i, r);
    var f := Flatten(histories);
    var j :| 0 <= j < |f| && f[j] == r;
    assert KeyOf(r) in Keys(f);
  }

  /**
   * For a successful run: no duplicates in the new aggregate, a stored
   * aggregate without duplicates is kept as its prefix, and each record of
   * the user's that a discovered repository yields has its key in it.
   */
  lemma UpdatedHistoryCorrect(stored: Option<seq<Record>>, fs: FileSystem, roots: seq<Path>,
                              log: GitLog, userEmail: string, machine: Machine)
    requires ExpandRepoPaths(fs, roots).Success?
    ensures var r := UpdatedHistory(stored, fs, roots, log, userEmail, machine).value;
      var repos := ExpandRepoPaths(fs, roots).value;
      && DistinctKeys(r)
      && (DistinctKeys(Previous(stored)) ==> |Previous(stored)| <= |r| && r[..|Previous(stored)|] == Previous(stored))
      && forall i, c :: 0 <= i < |repos| && c in RepoHistory(log(repos[i]), userEmail, DataSource(machine)) ==> KeyOf(c) in Keys(r)
  {
    var repos := ExpandRepoPaths(fs, roots).value;
    var hs := RepoHistories(repos, log, userEmail, machine);
    var prev := Previous(stored);
    MergeCorrect(prev, hs);
    if DistinctKeys(prev) {
      PreviousWins(prev, hs);
    }
    forall i, c | 0 <= i < |repos| && c in RepoHistory(log(repos[i]), userEmail, DataSource(machine))
      ensures KeyOf(c) in Keys(Merge(prev, hs))
    {
      EveryContributedKeyKept(prev, hs, i, c);
    }
  }

  /**
   * A stored record with uuid u1 at time 100, and a fresh history holding a
   * record with the same uuid and time plus one with uuid u2 at time 200:
   * the merge keeps the stored u1 record and adds the u2 record.
   */
  lemma StoredRecordWinsExample()
    ensures var stored := map["uuid" := Str("u1"), "timestamp" := Num(100), "dataSource" := Str("old")];
      var again := map["uuid" := Str("u1"), "timestamp" := Num(100), "dataSource" := Str("new")];
      var other := map["uuid" := Str("u2"), "timestamp" := Num(200)];
      Merge([stored], [[again, other]]) == [stored, other]
  {
    var stored := map["uuid" := Str("u1"), "timestamp" := Num(100), "dataSource" := Str("old")];
    var again := map["uuid" := Str("u1"), "timestamp" := Num(100), "dataSource" := Str("new")];
    var other := map["uuid" := Str("u2"), "timestamp" := Num(200)];
    PreviousWins([stored], [[again, other]]);
    FlattenCons([stored], [[again, other]]);
    assert Flatten([[again, other]]) == [again, other];
    DedupAppend([stored], [again, other]);
    DedupOfDistinct([stored]);
    assert Keys([stored]) == {KeyOf(stored)};
    assert KeyOf(again) == KeyOf(stored) && KeyOf(other) != KeyOf(stored);
    var seen := Keys([stored]);
    assert [again, other][1..] == [other];
    assert DedupSeen([again, other], seen) == DedupSeen([other], seen);
    assert [other][1..] == [];
    assert DedupSeen([other], seen) == [other] + DedupSeen([], seen + {KeyOf(other)});
  }
}
