# python-template-repo-utils: the configuration and package-name logic, in Dafny

This project models the two pieces of logic in the repository that are not
I/O or calls into libraries, and proves what they compute.

* **`setup.py`, lines 30-84.** `install_requires` is the list of lines of
  `requirements.txt`. Each `requirements-<extra>.txt` that the glob returns is
  read into the `extras_require` dictionary. Its key is the file name with the
  final extension stripped and the first `requirements-` removed, and its value
  is the file's lines. A non-empty dictionary then gains the catch-all key
  `all`: the sorted, duplicate-free union of every group. The long description
  is the text of the first readable file among `README.md`, `README.rst`,
  `README.txt` and `README`, or `meta["description"]` when none can be read.
  Its content type comes from the chosen file's extension, compared ignoring
  case.
* **`package_name/start_command_line/start_command_line.py`, line 4.** The
  package to import is named by taking the running file's path, deleting every
  occurrence of the repository root in it, splitting on the path separator and
  taking piece 0.

Modules:

* `Wrappers` (wrappers.dfy): `Option` and `Result`.
* `PyStr` (pystr.dfy): the Python `str` built-ins the two files use. These are
  `replace(pat, "")`, `replace(pat, "", 1)`, `split(sep)`, `splitlines()`,
  `lower()`, and the code-point order that `sorted` applies to strings.
* `PosixPath` (posix_path.dfy): `os.path.splitext` on POSIX.
* `Setup` (setup.dfy): extras, the `all` group, README selection, content type,
  and lines 30-84 composed (`LoadConfig`).
* `StartCommandLine` (start_command_line.dfy): the package-name expression.

Inputs:

* The working directory is a `map` from file name to `Option<string>`. An
  absent name, or one mapped to `None`, is a file whose read raises `OSError`.
* The glob result is a list of names. `MatchesExtrasGlob` states what the glob
  guarantees about each name.
* `meta` is a map from string to string.
* The repository root (`get_repository_path()`) and the separator (`os.sep`)
  are parameters.
* A read that raises in lines 30 or 37, and a missing `"description"` key in
  line 62, are modelled as `Err` results, in the order the script meets them.

The extras loop (lines 35-37) and the README loop (lines 64-73) update local
state step by step, so they are methods with loops: `BuildExtras` and
`SelectReadme`. `BuildExtras` is proved against the dictionary `Inserted`
builds from its (key, lines) pairs. The `all` group, the content type and the
package name are single expressions in the source, so they are functions.

Behaviour of the code that is easy to miss:

* The root is deleted everywhere in the path by `str.replace`, not only as a
  leading prefix. When the root ends with the separator, as "/r/" does in
  `InteriorRootRemoved`, an occurrence below the package joins the segments on
  either side of it.
* The package name is segment 0 of the stripped path. A root given without its
  trailing separator therefore yields the empty name, provided the text after
  the root does not begin with the root again. When it does, that copy is
  deleted too, and the name is not empty (`RepeatedRootRemoved`: "/a/ab" with
  root "/a" is named "b").
* The `all` group is computed from all values, including a group read from
  `requirements-all.txt`, and then replaces that group.

## Model

| member | source | states |
|---|---|---|
| `PyStr.RemoveAll` | package_name/start_command_line/start_command_line.py:4 | `replace(pat, "")` never makes a string longer |
| `PyStr.RemoveFirst` | setup.py:36 | `replace(pat, "", 1)` leaves the string as it is or shortens it by exactly one copy of the pattern |
| `PyStr.RemoveAllAt` | package_name/start_command_line/start_command_line.py:4 | an occurrence of the pattern after an occurrence-free part is deleted, and the scan resumes after it: `replace` reaches every occurrence, not only a leading one |
| `PyStr.RemoveAllKeepsPrefix` | package_name/start_command_line/start_command_line.py:4 | text before the first occurrence of the pattern is kept unchanged |
| `PyStr.RemoveAllAbsent` | package_name/start_command_line/start_command_line.py:4 | a string in which the pattern never occurs is returned unchanged |
| `PyStr.RemoveFirstAbsent` | setup.py:36 | `replace(pat, "", 1)` returns a string in which the pattern never occurs unchanged |
| `PyStr.RemoveFirstAt` | setup.py:36 | `replace(pat, "", 1)` deletes the leftmost occurrence and keeps everything else, later occurrences included |
| `PyStr.IndexOf` | package_name/start_command_line/start_command_line.py:4 | the result is the position of the first separator, or the length when there is none |
| `PyStr.Split` | package_name/start_command_line/start_command_line.py:4 | `split(sep)` gives at least one piece, and no piece contains the separator |
| `PyStr.JoinSplit` | package_name/start_command_line/start_command_line.py:4 | joining the pieces of a split with the separator gives back the string |
| `PyStr.SplitJoin` | package_name/start_command_line/start_command_line.py:4 | splitting a join of separator-free pieces gives back the pieces |
| `PyStr.SplitCons` | package_name/start_command_line/start_command_line.py:4 | a separator-free piece followed by the separator is the first piece of the split, and the rest is split on its own |
| `PyStr.SplitHead` | package_name/start_command_line/start_command_line.py:4 | piece 0 of a split is the text before the first separator |
| `PyStr.SplitLines` | setup.py:30 | no line contains a line break, and the text is empty exactly when there are no lines |
| `PyStr.SplitLinesAfterLines` | setup.py:30-37 | break-free lines each ended by "\n" are read back in order, and any text after them is split on its own |
| `PyStr.SplitLinesJoinLines` | setup.py:37 | a file holding break-free lines, each ended by a newline, reads back as exactly those lines in that order |
| `PyStr.SplitLinesOneLine` | setup.py:30-37 | a non-empty text without a line break is a single line |
| `PyStr.SplitLinesUnterminated` | setup.py:30-37 | a file whose last, non-empty line has no final newline reads back as its newline-ended lines followed by that last line |
| `PyStr.SplitLinesBreak` | setup.py:30-37 | a break-free line ended by any one of the line breaks `splitlines` knows is read off the front, unless the break is a "\r" followed by "\n" |
| `PyStr.SplitLinesLoneCr` | setup.py:30-37 | a lone "\r" ends a line: "a\rb" reads as "a" and "b" |
| `PyStr.SplitLinesCrLf` | setup.py:30-37 | "\r\n" ends one line, not two |
| `PyStr.Lower` | setup.py:79-81 | `lower()` leaves no upper-case ASCII letter, and its result equals the string ignoring case |
| `PyStr.LowerEqualsIff` | setup.py:79-81 | `s.lower() == t` for a literal `t` with no upper-case letter holds exactly when `s` equals `t` ignoring case |
| `PyStr.Less` | setup.py:43 | the string order that `sorted` uses: no string precedes itself, and a proper prefix precedes the longer string |
| `PyStr.SortedSet` | setup.py:43 | `sorted` of a set of strings holds each member once, nothing else, in strictly ascending code-point order |
| `PosixPath.SplitExt` | setup.py:36 | root and extension concatenate to the name; the extension is empty, or one leading dot and no other dot or '/' |
| `PosixPath.NoDotNoExt` | setup.py:78 | a name without a dot, such as "README" or "", has an empty extension |
| `PosixPath.SplitExtAtLastDot` | setup.py:36 | a '/'-free name that does not start with a dot splits before its last dot |
| `Setup.FileLines` | setup.py:30-37 | `read(name).splitlines()` gives lines without line breaks, and no lines exactly when the file is empty |
| `Setup.FirstWhere` | setup.py:64-73 | the index of the first name with the given readability, with every earlier name the other way; `None` exactly when no name qualifies |
| `Setup.GlobbedRoot` | setup.py:34-36 | `splitext` of a globbed `requirements-<extra>.txt` is `(requirements-<extra>, ".txt")`, and the single `replace` leaves `<extra>` |
| `Setup.ExtraKey` | setup.py:36 | the key is never longer than the file name, and for a globbed `requirements-<extra>.txt` it is `<extra>` |
| `Setup.ExtraKeyInjective` | setup.py:34-36 | two globbed files have the same key exactly when they are the same file |
| `Setup.Inserted` | setup.py:35-37 | the dictionary after inserting pairs in order has one key per pair, and a repeated key holds its last pair's value |
| `Setup.BuildExtras` | setup.py:33-37 | the first unreadable extras file ends loading with its error; otherwise the result is the dictionary of every file's (key, lines) pair inserted in glob order |
| `Setup.GlobbedEntries` | setup.py:34-37 | for distinct globbed files, the pair of each file is its `<extra>` part with its own lines, and no later pair has the same key |
| `Setup.GlobbedExtrasKeys` | setup.py:34-37 | for distinct globbed files, the dictionary's keys are exactly the files' `<extra>` parts |
| `Setup.GlobbedExtras` | setup.py:34-37 | for distinct globbed files, the keys are exactly their `<extra>` parts, and each key holds its own file's lines |
| `Setup.UnionOfGroups` | setup.py:43 | the set comprehension holds exactly the entries of the groups: every entry of every group, and nothing else; it is empty when there are no groups |
| `Setup.AllGroup` | setup.py:43 | the `all` group is strictly ascending, so sorted and duplicate-free, and holds exactly the entries of all groups |
| `Setup.WithAllGroup` | setup.py:42-43 | `all` is added exactly when a group exists; no groups gives the empty dictionary; other groups are untouched, and an earlier `all` group is replaced by the union |
| `Setup.WithAllGroupIdempotent` | setup.py:42-43 | the `all` group adds no entry outside the other groups, so adding it a second time leaves the dictionary unchanged |
| `Setup.ReadmeOutcome` | setup.py:59-73 | what lines 62-73 leave behind: `readme_fname` is "" or a candidate name, and it is "" exactly when no candidate can be read |
| `Setup.SelectReadme` | setup.py:59-73 | the first readable candidate gives both the description and the README name; with none readable they stay `meta["description"]` and "" |
| `Setup.LaterCandidatesIgnored` | setup.py:64-73 | a directory that agrees on the candidates up to the chosen one picks the same one, whatever later candidates hold |
| `Setup.MarkdownFirst` | setup.py:59-73 | a readable README.md is chosen over every other candidate |
| `Setup.ContentType` | setup.py:78-84 | the content type is one of text/x-rst, text/markdown, text/plain |
| `Setup.ContentTypeByExtension` | setup.py:78-84 | text/x-rst exactly for extension ".rst" ignoring case, text/markdown exactly for ".md" ignoring case, text/plain for every other extension |
| `Setup.ReadmeExt` | setup.py:78-84 | `"README"` followed by an extension with one leading dot and no '/' has exactly that extension |
| `Setup.MarkdownCandidate` | setup.py:78-84 | README.md and README.MD are Markdown |
| `Setup.RstCandidate` | setup.py:78-84 | README.rst is reStructuredText |
| `Setup.PlainCandidates` | setup.py:78-84 | README.txt, README and the "" of the no-README case are plain text |
| `Setup.LoadConfig` | setup.py:30-84 | an unreadable requirements.txt, then the first unreadable extras file, then a missing "description" are the modelled errors, in that order. Otherwise `install_requires` is requirements.txt's lines, extras are the inserted groups plus `all`, the README outcome is as `SelectReadme` describes, and the content type is that of the chosen name |
| `StartCommandLine.PackageName` | package_name/start_command_line/start_command_line.py:4 | the name contains no separator, is a prefix of the root-stripped path, and is all of it or is followed there by a separator |
| `StartCommandLine.NameIsFirstSegment` | package_name/start_command_line/start_command_line.py:4 | a stripped path `pkg + sep + rest` with a separator-free `pkg` gives `pkg` |
| `StartCommandLine.NameWithoutSeparator` | package_name/start_command_line/start_command_line.py:4 | a stripped path without a separator is the name in full |
| `StartCommandLine.LeadingSeparatorGivesEmptyName` | package_name/start_command_line/start_command_line.py:4 | a stripped path starting with the separator gives the empty name |
| `StartCommandLine.RootWithoutTrailingSeparator` | package_name/start_command_line/start_command_line.py:4 | a root without its trailing separator, followed by the separator and a text that does not begin with the root again, gives the empty name |
| `StartCommandLine.PackageBelowRoot` | package_name/start_command_line/start_command_line.py:4 | a file at `root + pkg + sep + rest` is named `pkg` at any depth below `pkg`, for a root starting with the separator and a `sep + rest` that does not begin with the root |
| `StartCommandLine.LayoutWithTrailingSeparator` | package_name/start_command_line/start_command_line.py:4 | `/repo/package_name/start_command_line/start_command_line.py` with root `/repo/` is named `package_name` |
| `StartCommandLine.LayoutWithoutTrailingSeparator` | package_name/start_command_line/start_command_line.py:4 | the same file with root `/repo` gets the empty name |
| `StartCommandLine.RepeatedRootRemoved` | package_name/start_command_line/start_command_line.py:4 | a root without its trailing separator that starts again right after itself is deleted twice: "/a/ab" with root "/a" is named "b" |
| `StartCommandLine.InteriorRootRemoved` | package_name/start_command_line/start_command_line.py:4 | a second occurrence of the root below the package is removed too (`/r/pkg/r/m` with root `/r/` gives `pkgm`) |

## Left out

- File reads, `glob.glob` and the cleanup with `os.path.exists` / `os.remove` (setup.py:26-27, 34, 216-218) are filesystem I/O. The directory is an input map and the glob result an input list. Glob's own matching and ordering are not modelled. `MatchesExtrasGlob` and distinctness are the guarantees a lemma may assume.
- `read` opens names relative to the script's directory, while the glob searches the current directory. The model uses one directory for both, as when the script runs from its own directory.
- File decoding and newline translation: the map holds the text a text-mode read returns. A decoding error raises `UnicodeDecodeError`, which is not an `OSError`, so it is fatal even for README candidates. It is not modelled.
- `exec` of `package_name/__meta__.py` (setup.py:54) is dynamic code execution, so `meta` is a given map. Its `read` raises `OSError` when that file is missing, an error that would come after the extras errors and before the missing `"description"`. Because `meta` is given, the model has no such error, and the errors `LoadConfig` lists are not the full list.
- `imp`, `install`, `impstall`, `enable_installing_dependencies` and `get_repository_path` (setup.py:138-168) are runtime imports, a pip subprocess, and a library whose code is not part of this model.
- The `setup(...)` call and `find_packages` (setup.py:170-212) are a thin wrapper over setuptools. `LoadConfig` returns the values handed to it from lines 30-84.
- `PyTest` and `UploadCommand` (setup.py:87-136) are a test runner and `os.system` / `sys.exit` calls.
- start_command_line.py lines 5-17 (`print`, `importlib.import_module`, `fire.Fire`) are output and reflection-based dispatch through a foreign library. That file never imports `os`, `importlib` or `get_repository_path`, so as written line 4 raises `NameError`. The model reads line 4 as if those names were imported.
- `os.path.splitext` is modelled for POSIX only; the Windows variant (separator `\` with `/` as an alternative) is not.
- `PyStr.Lower`: only ASCII letters are lowered. Python's full Unicode lowering changes other characters too, but none of them lowers to '.', 'r', 's', 't', 'm' or 'd'. The two comparisons with ".rst" and ".md" therefore give the same answers.
- `PyStr.Split` takes a one-character separator, as `os.sep` always is; `split` with a longer or empty separator is not modelled.
- Python dictionaries keep insertion order; a Dafny `map` has no order. setuptools reads `extras_require` by key, and the `all` group is sorted, so order does not reach any modelled result.
