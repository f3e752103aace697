# View remote: repository root search and remote-address rewrite

This project models the two algorithms behind the "View remote" command of an
Obsidian file-explorer plugin (`ViewRemoteHandler`), and proves what they
promise:

- **RepoRoot** (`repo_root.dfy`) models `findGitRepoRoot`: starting from an
  absolute directory, ask the repository-marker predicate about the current
  directory, return it when marked, otherwise move to the parent
  (`join(currentPath, "..")`), and give up with `null` once the parent is the
  directory itself (the filesystem root) or when the start string is empty.
  A directory is the sequence of its segments below the root (`/` is `[]`,
  the parent drops the last segment), the start string is `EmptyString` or
  `AbsolutePath(segments)`, and `GitRepository.isGitRepo` is an arbitrary
  predicate passed in. The method `FindGitRepoRoot` keeps the source's loop
  and early returns, is proved equal to the recursive specification
  `NearestMarked`, and reports (as ghost output) the directories it probed;
  the lemmas show that `NearestMarked` returns exactly the nearest marked
  ancestor-or-self, returns nothing exactly when no directory up to the root
  is marked, and only ever looks at ancestors-or-self.
- **WebUrl** (`web_url.dfy`) models `convertToWebUrl`. The regular expression
  `/git@([^:]+):(.+)\.git$/` is given a declarative meaning (`SpellsSshAt`:
  from a start index to the end the string reads `git@`, a non-empty
  colon-free host, `:`, a non-empty path without line terminators, `.git`),
  an executable matcher at one index (`MatchAt`) proved equivalent to it, and
  JavaScript's leftmost search over start indices (`FindSsh`), since the
  expression has no `^` anchor. `Classify` orders the three cases (SSH form,
  `https://` form, unrecognized) as the source's early returns do, and
  `ConvertToWebUrl` renders them.
- `wrappers.dfy` holds the `Option` type that stands for `string | null`.

Two behaviours of the code differ from what an SSH remote address usually
means; the model follows the code:

- An SSH remote is generally `<user>@<host>:<path>`; the code accepts only the
  literal user `git` and only paths ending in `.git` (`alice@h:r.git` and
  `git@h:r` are returned unchanged).
- The expression is unanchored, so a string that starts with `git@` but does
  not match there can still match at a later `git@`, and the text before it
  is dropped (`UnanchoredMatch`).

## Model

| member | source | states |
|---|---|---|
| RepoRoot.Parent | src/viewRemoteHandler.ts:76-81 | the parent of a directory is a prefix of it one segment shorter, and a directory is its own parent exactly when it is the filesystem root |
| RepoRoot.FindGitRepoRoot | src/viewRemoteHandler.ts:67-87 | the loop returns nothing and asks nothing for an empty start string; for an absolute start it returns the walk's result `NearestMarked`, probes the start and then one level up per step, and asks the predicate exactly depth(start) - depth(result) + 1 times when it finds a root and depth(start) + 1 times when it does not (so at most depth + 1) |
| RepoRoot.NearestMarkedIsNearest | src/viewRemoteHandler.ts:68-83 | the walk returns d exactly when d is an ancestor-or-self of the start, d is marked, and every directory below d on the way up was unmarked |
| RepoRoot.NearestMarkedNone | src/viewRemoteHandler.ts:76-86 | the walk returns null exactly when no ancestor-or-self of the start, the root included, is marked |
| RepoRoot.NearestMarkedLocal | src/viewRemoteHandler.ts:70-83 | the result depends only on what the predicate says about ancestors-or-self of the start |
| WebUrl.FirstColon | src/viewRemoteHandler.ts:106 | the end of the `[^:]+` run: the first colon at or after an index, or the end of the string, with no colon before it |
| WebUrl.MatchAt | src/viewRemoteHandler.ts:106 | the pattern tried at one start index succeeds exactly when some captures spell the address from there to the end, and then returns those captures |
| WebUrl.FindSsh | src/viewRemoteHandler.ts:106 | `match` returns the leftmost start index at which the pattern succeeds, and none when it succeeds nowhere |
| WebUrl.SpellsSshAtCaptures | src/viewRemoteHandler.ts:106 | the captures of a match are determined by its start index: the host runs to the first colon after `git@`, the path to the final `.git` |
| WebUrl.StripGitSuffix | src/viewRemoteHandler.ts:114 | `replace(/\.git$/, '')` removes one trailing `.git` when present and otherwise leaves the string as it is |
| WebUrl.ConvertToWebUrl | src/viewRemoteHandler.ts:103-119 | the rewrite is total with no error path; its output is the input, the input minus a trailing `.git`, or an `https://` URL |
| WebUrl.SshFormIsLeftmostMatch | src/viewRemoteHandler.ts:105-108 | the SSH branch is taken with captures a exactly when the address starts with `git@` and a spells it from the leftmost index where the pattern matches |
| WebUrl.SshRewrite | src/viewRemoteHandler.ts:105-108 | `git@H:P.git` with a non-empty colon-free H and a non-empty P without line terminators becomes `https://H/P`; only the last `.git` goes, so `git@h:a.git.git` gives `https://h/a.git` |
| WebUrl.SshNeedsGitSuffix | src/viewRemoteHandler.ts:106 | the SSH branch is only taken by addresses ending in `.git` |
| WebUrl.SshWithoutGitSuffixUnchanged | src/viewRemoteHandler.ts:105-118 | an address starting with `git@` but not ending in `.git` falls through and is returned unchanged |
| WebUrl.HttpsRewrite | src/viewRemoteHandler.ts:113-114 | an `https://` address loses exactly one trailing `.git`; without one it is a fixed point, and the rewrite is idempotent on it |
| WebUrl.PassThroughExactly | src/viewRemoteHandler.ts:103-119 | the output equals the input exactly when the address is unrecognized or an `https://` address not ending in `.git` |
| WebUrl.UnanchoredMatch | src/viewRemoteHandler.ts:106-108 | `git@:git@H:P.git` gives `https://H/P`: the failed attempt at index 0 is followed by a match at the later `git@`, and the prefix is dropped |
| WebUrl.SshNoSuffixExample | src/viewRemoteHandler.ts:105-118 | `git@github.com:foo/bar` is returned unchanged |
| WebUrl.OtherExamples | src/viewRemoteHandler.ts:105-118 | `alice@h:r.git` and `ssh://git@h/r.git` are returned unchanged |

## Left out

- `execute` (src/viewRemoteHandler.ts:12-50): asynchronous orchestration, the file-to-parent-folder step, `GitRepository.getInstance`/`hasRemote`, console logging and `window.open` are host UI and I/O.
- `getRemoteUrl` (src/viewRemoteHandler.ts:89-101): runs `git remote get-url origin` in a child process; process I/O is not modelled.
- `getCommandName`, `getIcon`, `getCommandId` and the static constants: presentation metadata without behaviour.
- `buildAbsPathTo` and the string semantics of Node's `path.join`: replaced by absolute paths as segment sequences whose parent drops the last segment. Relative path strings are not modelled; on them `join(p, "..")` never reaches a fixed point, and the source only ever starts from the vault's absolute base path.
- `GitRepository.isGitRepo`: a filesystem check in a module that is not part of this model; it is an arbitrary predicate parameter.
- JavaScript strings are UTF-16 code units while Dafny's `char` is a Unicode scalar value; the pattern treats a surrogate pair the same either way (neither half is a colon or a line terminator), so the rewrite is unaffected.
