/**
 * The upward search for the root of a git repository
 * (ViewRemoteHandler.findGitRepoRoot).
 *
 * A directory is an absolute path, written as the sequence of its segments
 * below the filesystem root, so `/home/ann/vault` is ["home", "ann", "vault"]
 * and the root `/` is []. Joining a path with ".." drops its last segment;
 * the root is its own parent, which is where the search stops. Whether a
 * directory holds a repository (GitRepository.isGitRepo, a filesystem check)
 * is an arbitrary predicate `isRepo` supplied by the caller.
 */
module RepoRoot {
  import opened Wrappers

  /** An absolute directory path: its segments below the filesystem root. */
  type Path = seq<string>

  /**
   * The string the search starts from: either the empty string, which the
   * source's loop guard rejects before asking anything, or an absolute
   * directory (the caller joins the vault's absolute base path with a folder).
   */
  datatype PathString = EmptyString | AbsolutePath(segments: Path)

  /** `join(p, "..")` on a normalised absolute path. */
  function Parent(p: Path): (q: Path)
    ensures q <= p
    ensures q == p <==> p == []
    ensures p != [] ==> |q| == |p| - 1
  {
    if p == [] then [] else p[..|p| - 1]
  }

  /**
   * `d` is the nearest ancestor-or-self of `p` that holds a repository:
   * `d` is a prefix of `p`, it is marked, and no directory strictly between
   * `d` and `p` (nor `p` itself, when d != p) is marked.
   */
  ghost predicate IsNearestMarked(isRepo: Path -> bool, p: Path, d: Path)
  {
    && d <= p
    && isRepo(d)
    && forall k :: |d| < k <= |p| ==> !isRepo(p[..k])
  }

  /** No ancestor-or-self of `p`, up to and including the root, is marked. */
  ghost predicate NoneMarked(isRepo: Path -> bool, p: Path)
  {
    forall k :: 0 <= k <= |p| ==> !isRepo(p[..k])
  }

  /**
   * What the walk from `p` returns: `p` when it is marked, nothing at the
   * root (whose parent is itself), and otherwise the result from the parent.
   */
  function NearestMarked(isRepo: Path -> bool, p: Path): Option<Path>
    decreases |p|
  {
    if isRepo(p) then Some(p)
    else if Parent(p) == p then None
    else NearestMarked(isRepo, Parent(p))
  }

  /**
   * The search as the source runs it: a loop that asks the predicate about
   * the current directory, returns it when marked, and otherwise moves to the
   * parent, giving up once the parent is the directory itself. `probed` is the
   * sequence of directories the predicate was asked about, in order.
   */
  method FindGitRepoRoot(isRepo: Path -> bool, start: PathString)
    returns (root: Option<Path>, ghost probed: seq<Path>)
    ensures start.EmptyString? ==> root == None && probed == []
    ensures start.AbsolutePath? ==> root == NearestMarked(isRepo, start.segments)
    ensures start.AbsolutePath? ==>
      |probed| == (if root.Some? then |start.segments| - |root.value| else |start.segments|) + 1
    ensures start.AbsolutePath? ==>
      forall i :: 0 <= i < |probed| ==> probed[i] == start.segments[..|start.segments| - i]
  {
    probed := [];
    var current := start;
    while current.AbsolutePath?
      invariant start.EmptyString? ==> current == start && probed == []
      invariant start.AbsolutePath? ==> current.AbsolutePath?
      invariant current.AbsolutePath? ==> current.segments <= start.segments
      invariant current.AbsolutePath? ==>
        NearestMarked(isRepo, start.segments) == NearestMarked(isRepo, current.segments)
      invariant current.AbsolutePath? ==> |probed| == |start.segments| - |current.segments|
      invariant start.AbsolutePath? ==>
        forall i :: 0 <= i < |probed| ==> probed[i] == start.segments[..|start.segments| - i]
      decreases if current.AbsolutePath? then |current.segments| else 0
    {
      probed := probed + [current.segments];
      if isRepo(current.segments) {
        root := Some(current.segments);
        return;
      }
      var parent := Parent(current.segments);
      if parent == current.segments {
        root := None;
        return;
      }
      current := AbsolutePath(parent);
    }
    root := None;
  }

  /**
   * The walk finds exactly the nearest marked ancestor-or-self: whatever it
   * returns is marked, lies on the way up from `p`, and every directory asked
   * before it was unmarked; and that directory is what it returns.
   */
  lemma {:induction false} NearestMarkedIsNearest(isRepo: Path -> bool, p: Path, d: Path)
    ensures NearestMarked(isRepo, p) == Some(d) <==> IsNearestMarked(isRepo, p, d)
    decreases |p|
  {
    assert p[..|p|] == p;
    if isRepo(p) {
      if IsNearestMarked(isRepo, p, d) {
        assert |d| == |p| && d == p[..|d|];
      }
    } else if p == [] {
    } else {
      var q := Parent(p);
      NearestMarkedIsNearest(isRepo, q, d);
      assert forall k :: 0 <= k <= |q| ==> q[..k] == p[..k];
      if IsNearestMarked(isRepo, p, d) {
        assert d == p[..|d|];
        assert d != p;
        assert |d| <= |q|;
        assert d == q[..|d|];
        assert IsNearestMarked(isRepo, q, d);
      }
      if IsNearestMarked(isRepo, q, d) {
        assert d == q[..|d|] == p[..|d|];
        assert IsNearestMarked(isRepo, p, d);
      }
    }
  }

  /** The walk gives up exactly when nothing from `p` up to the root is marked. */
  lemma {:induction false} NearestMarkedNone(isRepo: Path -> bool, p: Path)
    ensures NearestMarked(isRepo, p) == None <==> NoneMarked(isRepo, p)
    decreases |p|
  {
    assert p[..|p|] == p;
    if isRepo(p) {
    } else if p == [] {
    } else {
      var q := Parent(p);
      NearestMarkedNone(isRepo, q);
      assert forall k :: 0 <= k <= |q| ==> q[..k] == p[..k];
    }
  }

  /**
   * The walk asks only about ancestors-or-self of `p`: two predicates that
   * agree on those give the same answer, whatever they say elsewhere.
   */
  lemma {:induction false} NearestMarkedLocal(isRepo: Path -> bool, isRepo': Path -> bool, p: Path)
    requires forall k :: 0 <= k <= |p| ==> isRepo(p[..k]) == isRepo'(p[..k])
    ensures NearestMarked(isRepo, p) == NearestMarked(isRepo', p)
    decreases |p|
  {
    assert p[..|p|] == p;
    if p != [] {
      var q := Parent(p);
      assert forall k :: 0 <= k <= |q| ==> q[..k] == p[..k];
      NearestMarkedLocal(isRepo, isRepo', q);
    }
  }
}
