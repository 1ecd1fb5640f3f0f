/**
 * Repository discovery, `expandRepoPaths`: each root that is itself a
 * repository stands for itself; any other root stands for those of its
 * immediate children that are repositories; a root that does not exist stands
 * for nothing. The per-root results are concatenated in root order.
 */
module RepoPaths {
  import opened Wrappers
  import opened Seqs

  type Path = string

  /** What `readdirSync` reports for a path: its entry names in listing order, or an error code. */
  datatype Listing = Entries(names: seq<string>) | Error(code: string)

  /**
   * The filesystem as the walk observes it: the paths `existsSync` reports as
   * existing, and what listing a path gives. A path with no listing recorded
   * is not there: listing it fails with ENOENT. The two parts need not agree,
   * so a filesystem that changes between two calls is covered too.
   */
  datatype FileSystem = FileSystem(existing: set<Path>, listings: map<Path, Listing>)

  const GitDir := ".git"
  const NotFound := "ENOENT"

  /** `path.join(p, name)` for a plain entry name. */
  function Join(p: Path, name: string): Path {
    p + "/" + name
  }

  /** `isRepository`: the path has a `.git` entry. */
  predicate IsRepository(fs: FileSystem, p: Path) {
    Join(p, GitDir) in fs.existing
  }

  function ReadDir(fs: FileSystem, p: Path): Listing {
    if p in fs.listings then fs.listings[p] else Error(NotFound)
  }

  /**
   * `names.map(name => join(p, name))`: one path per name, in order, each
   * naming its entry so that the entry name can be read back from it, and
   * distinct names giving distinct paths.
   */
  function Children(p: Path, names: seq<string>): (r: seq<Path>)
    ensures |r| == |names|
    ensures forall i :: 0 <= i < |names| ==> r[i] == Join(p, names[i])
    ensures forall i :: 0 <= i < |names| ==> |p| < |r[i]| && r[i][|p| + 1..] == names[i]
    ensures forall i, j :: 0 <= i < |names| && 0 <= j < |names| && names[i] != names[j] ==> r[i] != r[j]
  {
    var r := seq(|names|, i requires 0 <= i < |names| => Join(p, names[i]));
    forall i | 0 <= i < |names| ensures r[i][|p| + 1..] == names[i] {
      JoinName(p, names[i]);
    }
    r
  }

  /** The entry name is what follows the parent path and the separator. */
  lemma JoinName(p: Path, name: string)
    ensures |Join(p, name)| == |p| + 1 + |name| && Join(p, name)[|p| + 1..] == name
  {
  }

  /**
   * `.filter(isDirectory && isRepository)`: the operand `isDirectory` is a
   * function, hence truthy, so the `&&` yields `isRepository` and only that is
   * applied. The result is the children that are repositories, in listing
   * order, each as often as it is listed.
   */
  function ChildRepositories(fs: FileSystem, p: Path, names: seq<string>): (r: seq<Path>)
    ensures IsSubsequence(r, Children(p, names))
    ensures forall q :: q in r <==> (exists n :: n in names && q == Join(p, n)) && IsRepository(fs, q)
    ensures forall q :: multiset(r)[q] == if IsRepository(fs, q) then multiset(Children(p, names))[q] else 0
  {
    var children := Children(p, names);
    assert forall q :: q in children <==> exists n :: n in names && q == Join(p, n) by {
      forall q | q in children ensures exists n :: n in names && q == Join(p, n) {
        var i :| 0 <= i < |children| && children[i] == q;
        assert names[i] in names;
      }
      forall q | exists n :: n in names && q == Join(p, n) ensures q in children {
        var n :| n in names && q == Join(p, n);
        var i :| 0 <= i < |names| && names[i] == n;
        assert children[i] == q;
      }
    }
    Filter(q => IsRepository(fs, q), children)
  }

  /**
   * What one root contributes: the body of the `reduce` callback. A root
   * that is not a repository but can be listed contributes its repository
   * children, as `ChildRepositories` characterises them.
   */
  function RootRepositories(fs: FileSystem, p: Path): (r: Result<seq<Path>, string>)
    ensures IsRepository(fs, p) ==> r == Success([p])
    ensures !IsRepository(fs, p) && ReadDir(fs, p).Entries? ==> r == Success(ChildRepositories(fs, p, ReadDir(fs, p).names))
    ensures !IsRepository(fs, p) && ReadDir(fs, p) == Error(NotFound) ==> r == Success([])
    ensures r.Failure? <==> !IsRepository(fs, p) && ReadDir(fs, p).Error? && ReadDir(fs, p).code != NotFound
    ensures r.Failure? ==> r.error == ReadDir(fs, p).code
  {
    if IsRepository(fs, p) then
      Success([p])
    else
      match ReadDir(fs, p)
      case Entries(names) => Success(ChildRepositories(fs, p, names))
      case Error(code) => if code == NotFound then Success([]) else Failure(code)
  }

  /** `roots.reduce((acc, p) => [...acc, ...res(p)], acc)`; a thrown error ends the fold. */
  function ExpandFrom(fs: FileSystem, roots: seq<Path>, acc: seq<Path>): Result<seq<Path>, string>
    decreases |roots|
  {
    if roots == [] then
      Success(acc)
    else
      match RootRepositories(fs, roots[0])
      case Failure(e) => Failure(e)
      case Success(res) => ExpandFrom(fs, roots[1..], acc + res)
  }

  function ExpandRepoPaths(fs: FileSystem, roots: seq<Path>): Result<seq<Path>, string> {
    ExpandFrom(fs, roots, [])
  }

  // ---------------------------------------------------------------------------
  // Properties

  /** The contribution of each root, with a failing root read as contributing nothing. */
  function Contributions(fs: FileSystem, roots: seq<Path>): (c: seq<seq<Path>>)
    ensures |c| == |roots|
  {
    seq(|roots|, i requires 0 <= i < |roots| => RootRepositories(fs, roots[i]).GetOr([]))
  }

  predicate AllRootsSucceed(fs: FileSystem, roots: seq<Path>) {
    forall i :: 0 <= i < |roots| ==> RootRepositories(fs, roots[i]).Success?
  }

  /**
   * The fold with an accumulator is the accumulator followed by the per-root
   * contributions concatenated in root order, unless some root's listing
   * fails with an error other than ENOENT: then the first such error is the
   * result.
   */
  lemma {:induction false} ExpandFromSpec(fs: FileSystem, roots: seq<Path>, acc: seq<Path>)
    ensures var r := ExpandFrom(fs, roots, acc);
      && (r.Success? <==> AllRootsSucceed(fs, roots))
      && (r.Success? ==> r.value == acc + Flatten(Contributions(fs, roots)))
      && (r.Failure? ==> exists i :: 0 <= i < |roots| && r == RootRepositories(fs, roots[i])
                                     && AllRootsSucceed(fs, roots[..i]))
    decreases |roots|
  {
    if roots != [] {
      var rest := roots[1..];
      RootsCons(fs, roots);
      match RootRepositories(fs, roots[0])
      case Failure(e) =>
        assert roots[..0] == [];
        assert ExpandFrom(fs, roots, acc) == RootRepositories(fs, roots[0]) && AllRootsSucceed(fs, roots[..0]);
      case Success(res) =>
        ExpandFromSpec(fs, rest, acc + res);
        var r := ExpandFrom(fs, rest, acc + res);
        assert ExpandFrom(fs, roots, acc) == r;
        if r.Success? {
          var c := Contributions(fs, roots);
          assert c != [] && c[0] == res && c[1..] == Contributions(fs, rest);
          assert (acc + res) + Flatten(c[1..]) == acc + Flatten(c);
        } else {
          var i :| 0 <= i < |rest| && r == RootRepositories(fs, rest[i]) && AllRootsSucceed(fs, rest[..i]);
          PrefixSucceeds(fs, roots, i);
          assert rest[i] == roots[i + 1];
          assert r == RootRepositories(fs, roots[i + 1]) && AllRootsSucceed(fs, roots[..i + 1]);
        }
    }
  }

  /** The per-root views of a non-empty root list, split at its first root. */
  lemma RootsCons(fs: FileSystem, roots: seq<Path>)
    requires roots != []
    ensures Contributions(fs, roots) == [RootRepositories(fs, roots[0]).GetOr([])] + Contributions(fs, roots[1..])
    ensures AllRootsSucceed(fs, roots) <==> RootRepositories(fs, roots[0]).Success? && AllRootsSucceed(fs, roots[1..])
  {
    var rest := roots[1..];
    assert forall i :: 1 <= i < |roots| ==> roots[i] == rest[i - 1];
    assert Contributions(fs, roots) == [RootRepositories(fs, roots[0]).GetOr([])] + Contributions(fs, rest);
  }

  lemma PrefixSucceeds(fs: FileSystem, roots: seq<Path>, i: nat)
    requires i < |roots| - 1
    requires RootRepositories(fs, roots[0]).Success? && AllRootsSucceed(fs, roots[1..][..i])
    ensures AllRootsSucceed(fs, roots[..i + 1])
  {
    assert roots[..i + 1] == [roots[0]] + roots[1..][..i];
  }

  /**
   * `expandRepoPaths` is the concatenation, in root order, of what each root
   * contributes; it fails exactly when some root fails, and then with the
   * first failing root's error.
   */
  lemma ExpandRepoPathsSpec(fs: FileSystem, roots: seq<Path>)
    ensures var r := ExpandRepoPaths(fs, roots);
      && (r.Success? <==> AllRootsSucceed(fs, roots))
      && (r.Success? ==> r.value == Flatten(Contributions(fs, roots)))
      && (r.Failure? ==> exists i :: 0 <= i < |roots| && r == RootRepositories(fs, roots[i])
                                     && AllRootsSucceed(fs, roots[..i]))
  {
    ExpandFromSpec(fs, roots, []);
  }

  lemma {:induction false} FlattenContributionsMember(fs: FileSystem, roots: seq<Path>, q: Path)
    requires q in Flatten(Contributions(fs, roots))
    ensures exists i :: 0 <= i < |roots| && q in RootRepositories(fs, roots[i]).GetOr([])
  {
    var rest := roots[1..];
    assert Contributions(fs, roots) == [RootRepositories(fs, roots[0]).GetOr([])] + Contributions(fs, rest);
    if q !in RootRepositories(fs, roots[0]).GetOr([]) {
      FlattenContributionsMember(fs, rest, q);
      var i :| 0 <= i < |rest| && q in RootRepositories(fs, rest[i]).GetOr([]);
      assert rest[i] == roots[i + 1];
    }
  }

  /** q is the root itself or one of the root's listed entries. */
  predicate FromRoot(fs: FileSystem, root: Path, q: Path) {
    || q == root
    || (ReadDir(fs, root).Entries? && exists n :: n in ReadDir(fs, root).names && q == Join(root, n))
  }

  /**
   * Every path found is a repository, and it is either one of the roots or an
   * immediate child, from the listing, of a root: nothing deeper is found.
   */
  lemma FoundPathsAreShallowRepositories(fs: FileSystem, roots: seq<Path>, q: Path)
    requires ExpandRepoPaths(fs, roots).Success? && q in ExpandRepoPaths(fs, roots).value
    ensures IsRepository(fs, q)
    ensures exists i :: 0 <= i < |roots| && FromRoot(fs, roots[i], q)
  {
    ExpandRepoPathsSpec(fs, roots);
    FlattenContributionsMember(fs, roots, q);
  }

  /** The fold over a concatenation of root lists is the fold over the second from the first's result. */
  lemma {:induction false} ExpandFromAppend(fs: FileSystem, a: seq<Path>, b: seq<Path>, acc: seq<Path>)
    ensures ExpandFrom(fs, a + b, acc) ==
      match ExpandFrom(fs, a, acc)
      case Failure(e) => Failure(e)
      case Success(mid) => ExpandFrom(fs, b, mid)
    decreases |a|
  {
    if a == [] {
      assert a + b == b;
    } else {
      assert (a + b)[0] == a[0] && (a + b)[1..] == a[1..] + b;
      match RootRepositories(fs, a[0])
      case Failure(_) =>
      case Success(res) => ExpandFromAppend(fs, a[1..], b, acc + res);
    }
  }

  /**
   * A root that does not exist is skipped: the result is the same as with
   * that root left out of the list, so the other roots are still searched.
   */
  lemma MissingRootIsSkipped(fs: FileSystem, roots: seq<Path>, i: nat)
    requires i < |roots|
    requires !IsRepository(fs, roots[i]) && ReadDir(fs, roots[i]) == Error(NotFound)
    ensures ExpandRepoPaths(fs, roots) == ExpandRepoPaths(fs, roots[..i] + roots[i + 1..])
  {
    var pre, post := roots[..i], roots[i + 1..];
    assert roots == pre + ([roots[i]] + post);
    ExpandFromAppend(fs, pre, [roots[i]] + post, []);
    ExpandFromAppend(fs, pre, post, []);
    match ExpandFrom(fs, pre, [])
    case Failure(_) =>
    case Success(mid) =>
      assert ([roots[i]] + post)[1..] == post;
      assert mid + [] == mid;
  }
}
