/**
 * The rewrite of a git remote address into a browsable web URL
 * (ViewRemoteHandler.convertToWebUrl).
 *
 * An address that starts with `git@` and matches the regular expression
 * `/git@([^:]+):(.+)\.git$/` becomes `https://<host>/<path>` from the two
 * captures; an address that starts with `https://` loses one trailing `.git`;
 * anything else is returned unchanged. The regular expression is modelled by
 * what it accepts at one start index (MatchAt) and by JavaScript's search for
 * the leftmost start index where it succeeds (FindSsh): the expression has no
 * `^` anchor, so the match need not begin at index 0.
 */
module WebUrl {
  import opened Wrappers

  predicate StartsWith(s: string, prefix: string)
  {
    prefix <= s
  }

  predicate EndsWith(s: string, suffix: string)
  {
    |suffix| <= |s| && s[|s| - |suffix|..] == suffix
  }

  /** The characters JavaScript's `.` refuses to match (no `s` flag). */
  predicate IsLineTerminator(c: char)
  {
    c == '\n' || c == '\r' || c == '\U{2028}' || c == '\U{2029}'
  }

  /** The two captures of the SSH pattern: `([^:]+)` and `(.+)`. */
  datatype SshAddress = SshAddress(host: string, path: string)

  /** What `[^:]+` matches: a non-empty run without a colon (line breaks allowed). */
  predicate IsHost(h: string)
  {
    |h| > 0 && forall k :: 0 <= k < |h| ==> h[k] != ':'
  }

  /** What `.+` matches: a non-empty run without a line terminator. */
  predicate IsRepoPath(p: string)
  {
    |p| > 0 && forall k :: 0 <= k < |p| ==> !IsLineTerminator(p[k])
  }

  /**
   * Reference meaning of the pattern tried at index `i`: from `i` to the end
   * (the `$`), `s` reads `git@`, the host, `:`, the path and `.git`.
   */
  ghost predicate SpellsSshAt(s: string, i: nat, a: SshAddress)
  {
    && i <= |s|
    && s[i..] == "git@" + a.host + ":" + a.path + ".git"
    && IsHost(a.host)
    && IsRepoPath(a.path)
  }

  /** The index of the first colon at or after `j`, or |s| when there is none. */
  function FirstColon(s: string, j: nat): (c: nat)
    requires j <= |s|
    ensures j <= c <= |s|
    ensures c < |s| ==> s[c] == ':'
    ensures forall k :: j <= k < c ==> s[k] != ':'
    decreases |s| - j
  {
    if j == |s| || s[j] == ':' then j else FirstColon(s, j + 1)
  }

  /**
   * The pattern tried at start index `i` alone. `[^:]+` cannot cross a colon
   * and must be followed by one, so the host runs up to the first colon after
   * `git@`; the path is what lies between that colon and the final `.git`.
   * It succeeds exactly when the reference meaning holds, with those captures.
   */
  function MatchAt(s: string, i: nat): (m: Option<SshAddress>)
    ensures m.Some? ==> SpellsSshAt(s, i, m.value)
    ensures m.None? ==> forall a :: !SpellsSshAt(s, i, a)
  {
    SpellsSshAtOnlyCaptures(s, i);
    if i + 4 <= |s| && s[i..i + 4] == "git@" then
      var c := FirstColon(s, i + 4);
      if i + 4 < c && c + 6 <= |s| && s[|s| - 4..] == ".git" && IsRepoPath(s[c + 1..|s| - 4]) then
        CapturesSpellSsh(s, i, c);
        Some(SshAddress(s[i + 4..c], s[c + 1..|s| - 4]))
      else
        None
    else
      None
  }

  /**
   * `String.prototype.match` with a non-global expression: the leftmost start
   * index at or after `i` where the pattern succeeds, if any.
   */
  function FindSsh(s: string, i: nat): (r: Option<nat>)
    requires i <= |s|
    ensures r.Some? ==> i <= r.value <= |s| && MatchAt(s, r.value).Some?
    ensures r.Some? ==> forall k :: i <= k < r.value ==> MatchAt(s, k).None?
    ensures r.None? ==> forall k :: i <= k <= |s| ==> MatchAt(s, k).None?
    decreases |s| - i
  {
    if MatchAt(s, i).Some? then Some(i)
    else if i == |s| then None
    else FindSsh(s, i + 1)
  }

  /** The three shapes of remote address the rewrite tells apart, in order. */
  datatype RemoteForm = SshForm(address: SshAddress) | HttpsForm | Unrecognized

  function Classify(gitUrl: string): RemoteForm
  {
    if StartsWith(gitUrl, "git@") && FindSsh(gitUrl, 0).Some? then
      SshForm(MatchAt(gitUrl, FindSsh(gitUrl, 0).value).value)
    else if StartsWith(gitUrl, "https://") then HttpsForm
    else Unrecognized
  }

  /** `replace(/\.git$/, '')`: drop one `.git` at the very end, if there is one. */
  function StripGitSuffix(s: string): (r: string)
    ensures EndsWith(s, ".git") ==> r + ".git" == s
    ensures !EndsWith(s, ".git") ==> r == s
  {
    if EndsWith(s, ".git") then s[..|s| - 4] else s
  }

  /**
   * The rewrite. It has no error path: every address yields the address
   * itself, the address without a trailing `.git`, or an `https://` URL.
   */
  function ConvertToWebUrl(gitUrl: string): (webUrl: string)
    ensures webUrl == gitUrl || webUrl + ".git" == gitUrl || StartsWith(webUrl, "https://")
  {
    match Classify(gitUrl)
    case SshForm(a) => "https://" + a.host + "/" + a.path
    case HttpsForm => StripGitSuffix(gitUrl)
    case Unrecognized => gitUrl
  }

  // ---------------------------------------------------------------------------
  // Lemmas about the pattern

  /**
   * Any captures that spell the address from index `i` are the ones MatchAt
   * reads off: the host ends at the first colon after `git@`, and the path
   * runs from there to the final `.git`.
   */
  lemma SpellsSshAtCaptures(s: string, i: nat, a: SshAddress)
    requires SpellsSshAt(s, i, a)
    ensures i + 4 <= |s| && s[i..i + 4] == "git@"
    ensures FirstColon(s, i + 4) == i + 4 + |a.host|
    ensures i + 4 + |a.host| + 6 <= |s| && s[|s| - 4..] == ".git"
    ensures a.host == s[i + 4..i + 4 + |a.host|]
    ensures a.path == s[i + 4 + |a.host| + 1..|s| - 4]
  {
    var h, p := a.host, a.path;
    var t := s[i..];
    var e := i + 4 + |h|;
    assert t == "git@" + h + ":" + p + ".git";
    assert |s| == e + 1 + |p| + 4;
    assert t[..4] == "git@" && t[4..4 + |h|] == h && t[4 + |h|] == ':';
    assert t[5 + |h|..|t| - 4] == p && t[|t| - 4..] == ".git";
    assert s[i..i + 4] == t[..4];
    assert s[i + 4..e] == t[4..4 + |h|];
    assert s[e] == t[e - i];
    assert s[e + 1..|s| - 4] == t[5 + |h|..|t| - 4];
    assert s[|s| - 4..] == t[|t| - 4..];
    assert forall k :: i + 4 <= k < e ==> s[k] == h[k - i - 4] != ':';
    assert FirstColon(s, i + 4) == e;
  }

  /** SpellsSshAtCaptures for every candidate at once. */
  lemma SpellsSshAtOnlyCaptures(s: string, i: nat)
    ensures forall a | SpellsSshAt(s, i, a) ::
      && i + 4 <= |s| && s[i..i + 4] == "git@"
      && FirstColon(s, i + 4) == i + 4 + |a.host|
      && i + 4 + |a.host| + 6 <= |s| && s[|s| - 4..] == ".git"
      && a == SshAddress(s[i + 4..i + 4 + |a.host|], s[i + 4 + |a.host| + 1..|s| - 4])
  {
    forall a | SpellsSshAt(s, i, a)
      ensures && i + 4 <= |s| && s[i..i + 4] == "git@"
              && FirstColon(s, i + 4) == i + 4 + |a.host|
              && i + 4 + |a.host| + 6 <= |s| && s[|s| - 4..] == ".git"
              && a == SshAddress(s[i + 4..i + 4 + |a.host|], s[i + 4 + |a.host| + 1..|s| - 4])
    {
      SpellsSshAtCaptures(s, i, a);
    }
  }

  /** Conversely, what MatchAt reads off at a successful index spells the address. */
  lemma CapturesSpellSsh(s: string, i: nat, c: nat)
    requires i + 4 <= |s| && s[i..i + 4] == "git@"
    requires c == FirstColon(s, i + 4)
    requires i + 4 < c && c + 6 <= |s| && s[|s| - 4..] == ".git"
    requires IsRepoPath(s[c + 1..|s| - 4])
    ensures SpellsSshAt(s, i, SshAddress(s[i + 4..c], s[c + 1..|s| - 4]))
  {
  }

  // ---------------------------------------------------------------------------
  // Lemmas about the rewrite

  /** The pattern matches first at index `j`, with captures `a`. */
  ghost predicate LeftmostSpelling(s: string, j: nat, a: SshAddress)
  {
    SpellsSshAt(s, j, a) && forall k, b :: 0 <= k < j ==> !SpellsSshAt(s, k, b)
  }

  /** The captures the SSH branch uses come from the leftmost match. */
  lemma SshFormIsLeftmost(s: string, a: SshAddress)
    requires Classify(s) == SshForm(a)
    ensures StartsWith(s, "git@") && LeftmostSpelling(s, FindSsh(s, 0).value, a)
  {
    var j := FindSsh(s, 0).value;
    forall k, b | 0 <= k < j
      ensures !SpellsSshAt(s, k, b)
    {
      assert MatchAt(s, k).None?;
    }
  }

  /** A leftmost match in an address starting with `git@` selects the SSH branch. */
  lemma LeftmostIsSshForm(s: string, j: nat, a: SshAddress)
    requires StartsWith(s, "git@") && LeftmostSpelling(s, j, a)
    ensures Classify(s) == SshForm(a)
  {
    assert MatchAt(s, j).Some?;
    var f := FindSsh(s, 0);
    assert f.Some?;
    var v := f.value;
    assert SpellsSshAt(s, v, MatchAt(s, v).value);
    assert v == j;
    SpellsSshAtOnlyCaptures(s, j);
  }

  /**
   * An address takes the SSH branch with captures `a` exactly when it starts
   * with `git@` and `a` spells it from the leftmost index where the pattern
   * can match at all, which need not be index 0.
   */
  lemma SshFormIsLeftmostMatch(s: string, a: SshAddress)
    ensures Classify(s) == SshForm(a) <==> StartsWith(s, "git@") && exists j :: LeftmostSpelling(s, j, a)
  {
    if Classify(s) == SshForm(a) {
      SshFormIsLeftmost(s, a);
    }
    if StartsWith(s, "git@") && exists j :: LeftmostSpelling(s, j, a) {
      var j :| LeftmostSpelling(s, j, a);
      LeftmostIsSshForm(s, j, a);
    }
  }

  /**
   * An SSH address `git@H:P.git`, with a non-empty colon-free host and a
   * non-empty path free of line breaks, becomes `https://H/P`. The path may
   * hold `:`, `@` or `/`, and only the final `.git` goes.
   */
  lemma SshRewrite(h: string, p: string)
    requires IsHost(h) && IsRepoPath(p)
    ensures ConvertToWebUrl("git@" + h + ":" + p + ".git") == "https://" + h + "/" + p
  {
    var s := "git@" + h + ":" + p + ".git";
    var a := SshAddress(h, p);
    assert s[0..] == s;
    assert SpellsSshAt(s, 0, a);
    assert LeftmostSpelling(s, 0, a);
    assert StartsWith(s, "git@") by { assert s[..4] == "git@"; }
    SshFormIsLeftmostMatch(s, a);
  }

  /** The SSH branch is only taken by an address that ends in `.git`. */
  lemma SshNeedsGitSuffix(s: string)
    ensures Classify(s).SshForm? ==> EndsWith(s, ".git")
  {
  }

  /**
   * Whatever the address, the rewrite leaves it unchanged exactly when it is
   * unrecognized or an `https://` address without a trailing `.git`.
   */
  lemma PassThroughExactly(s: string)
    ensures ConvertToWebUrl(s) == s <==>
      Classify(s) == Unrecognized || (Classify(s) == HttpsForm && !EndsWith(s, ".git"))
  {
  }

  /**
   * An `https://` address loses one trailing `.git` and nothing else; one that
   * does not end in `.git` is a fixed point, so the rewrite is idempotent on
   * canonical web URLs.
   */
  lemma HttpsRewrite(s: string)
    requires StartsWith(s, "https://")
    ensures EndsWith(s, ".git") ==> ConvertToWebUrl(s) + ".git" == s
    ensures !EndsWith(s, ".git") ==> ConvertToWebUrl(s) == s
    ensures !EndsWith(s, ".git") ==> ConvertToWebUrl(ConvertToWebUrl(s)) == ConvertToWebUrl(s)
  {
  }

  /**
   * An address that starts with `git@` but does not end in `.git` is not
   * rewritten at all: `git@github.com:foo/bar` stays as it is.
   */
  lemma SshWithoutGitSuffixUnchanged(s: string)
    requires StartsWith(s, "git@") && !EndsWith(s, ".git")
    ensures ConvertToWebUrl(s) == s
  {
  }

  /**
   * With no `^` anchor, a failed attempt at index 0 lets a later `git@` match,
   * and what comes before it is dropped: `git@:git@h:r.git` gives `https://h/r`.
   */
  lemma UnanchoredMatch(h: string, p: string)
    requires IsHost(h) && IsRepoPath(p)
    ensures ConvertToWebUrl("git@:" + "git@" + h + ":" + p + ".git") == "https://" + h + "/" + p
  {
    var junk := "git@:";
    var s := junk + "git@" + h + ":" + p + ".git";
    var a := SshAddress(h, p);
    assert forall k :: 0 <= k < 5 ==> s[k] == junk[k];
    assert s[5..] == "git@" + a.host + ":" + a.path + ".git";
    assert SpellsSshAt(s, 5, a);
    forall k, b | 0 <= k < 5
      ensures !SpellsSshAt(s, k, b)
    {
      SpellsSshAtOnlyCaptures(s, k);
      if k == 0 {
        assert FirstColon(s, 4) == 4;
      } else {
        assert s[k] != 'g' && s[k..k + 4][0] == s[k];
      }
    }
    assert LeftmostSpelling(s, 5, a);
    assert StartsWith(s, "git@") by { assert s[..4] == junk[..4]; }
    SshFormIsLeftmostMatch(s, a);
  }

  /** Without the `.git` suffix the SSH address is not recognized. */
  lemma SshNoSuffixExample()
    ensures ConvertToWebUrl("git@github.com:foo/bar") == "git@github.com:foo/bar"
  {
    var u := "git@github.com:foo/bar";
    assert StartsWith(u, "git@") by { assert u[..4] == "git@"; }
    assert !EndsWith(u, ".git") by { assert u[|u| - 4] != '.'; }
    SshWithoutGitSuffixUnchanged(u);
  }

  /** Other users than `git` and other schemes are passed through. */
  lemma OtherExamples()
    ensures ConvertToWebUrl("alice@h:r.git") == "alice@h:r.git"
    ensures ConvertToWebUrl("ssh://git@h/r.git") == "ssh://git@h/r.git"
  {
    var u, v := "alice@h:r.git", "ssh://git@h/r.git";
    assert u[0] == 'a' && v[0] == 's';
    assert !StartsWith(u, "git@") && !StartsWith(u, "https://");
    assert !StartsWith(v, "git@") && !StartsWith(v, "https://");
  }
}
