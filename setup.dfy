/**
 * The configuration that setup.py derives from the files beside it before it
 * calls setuptools: the install requirements, the extras groups with their
 * catch-all "all" group, the long description taken from the first readable
 * README candidate, and the content type of that description.
 */
module Setup {
  import opened Wrappers
  import opened PyStr
  import opened PosixPath

  /**
   * The directory setup.py runs in: file name to the text a text-mode read
   * returns. A name that is absent, or mapped to None, is one whose read
   * raises an OSError (missing, a directory, no permission).
   */
  type Dir = map<string, Option<string>>

  /** `read(name)`: the file's text, or None when the read raises. */
  function Read(dir: Dir, name: string): Option<string> {
    if name in dir then dir[name] else None
  }

  predicate Readable(dir: Dir, name: string) {
    Read(dir, name).Some?
  }

  /** `read(name).splitlines()`: break-free lines, none at all for an empty file. */
  function FileLines(dir: Dir, name: string): (lines: seq<string>)
    requires Readable(dir, name)
    ensures forall k :: 0 <= k < |lines| ==> NoLineBreaks(lines[k])
    ensures lines == [] <==> Read(dir, name).value == []
  {
    SplitLines(Read(dir, name).value)
  }

  /** Why loading stops: a read that raised, or a metadata key that is missing. */
  datatype LoadError = Unreadable(file: string) | MissingMeta(key: string)

  const Requirements: string := "requirements.txt"
  const ExtrasPrefix: string := "requirements-"
  const AllKey: string := "all"
  const DescriptionKey: string := "description"
  const ReadmeCandidates: seq<string> := ["README.md", "README.rst", "README.txt", "README"]

  const RstType: string := "text/x-rst"
  const MarkdownType: string := "text/markdown"
  const PlainType: string := "text/plain"

  /** Index of the first of `names` whose readability is `readable`, or None. */
  function FirstWhere(dir: Dir, names: seq<string>, readable: bool): (r: Option<nat>)
    ensures r.Some? ==> r.value < |names| && Readable(dir, names[r.value]) == readable
    ensures r.Some? ==> forall j :: 0 <= j < r.value ==> Readable(dir, names[j]) != readable
    ensures r.None? <==> forall j :: 0 <= j < |names| ==> Readable(dir, names[j]) != readable
  {
    if names == [] then None
    else if Readable(dir, names[0]) == readable then Some(0)
    else
      match FirstWhere(dir, names[1..], readable)
      case None => None
      case Some(i) => Some(i + 1)
  }

  // ---------------------------------------------------------------------------
  // Extras
  // ---------------------------------------------------------------------------

  /** A name `glob.glob("requirements-*.txt")` can return: `requirements-<extra>.txt` in this directory. */
  predicate MatchesExtrasGlob(name: string) {
    |name| >= |ExtrasPrefix| + 4 && ExtrasPrefix <= name && name[|name| - 4..] == ".txt" && '/' !in name
  }

  /** The `<extra>` part of a name matching `requirements-*.txt`. */
  function GlobStem(name: string): string
    requires MatchesExtrasGlob(name)
  {
    name[|ExtrasPrefix|..|name| - 4]
  }

  /**
   * A globbed `requirements-<extra>.txt` splits into `requirements-<extra>`
   * and ".txt", and deleting the first "requirements-" from that root leaves
   * `<extra>`.
   */
  lemma GlobbedRoot(name: string)
    requires MatchesExtrasGlob(name)
    ensures SplitExt(name) == (ExtrasPrefix + GlobStem(name), ".txt")
    ensures RemoveFirst(ExtrasPrefix + GlobStem(name), ExtrasPrefix) == GlobStem(name)
  {
    var d := |name| - 4;
    assert name[d..] == ".txt";
    assert name[0] == ExtrasPrefix[0];
    SplitExtAtLastDot(name, d);
    assert name[..d] == ExtrasPrefix + GlobStem(name);
    assert ExtrasPrefix + GlobStem(name) == [] + ExtrasPrefix + GlobStem(name);
    RemoveFirstAt([], ExtrasPrefix, GlobStem(name));
  }

  /**
   * `os.path.splitext(name)[0].replace("requirements-", "", 1)`: for a name
   * the glob returns, its `<extra>` part.
   */
  function ExtraKey(name: string): (key: string)
    ensures |key| <= |name|
    ensures MatchesExtrasGlob(name) ==> key == GlobStem(name)
  {
    var key := RemoveFirst(SplitExt(name).0, ExtrasPrefix);
    assert MatchesExtrasGlob(name) ==> key == GlobStem(name) by {
      if MatchesExtrasGlob(name) {
        GlobbedRoot(name);
      }
    }
    key
  }

  lemma GlobStemInjective(a: string, b: string)
    requires MatchesExtrasGlob(a) && MatchesExtrasGlob(b) && GlobStem(a) == GlobStem(b)
    ensures a == b
  {
    assert a == ExtrasPrefix + GlobStem(a) + ".txt";
    assert b == ExtrasPrefix + GlobStem(b) + ".txt";
  }

  /** Distinct globbed extras files give distinct keys. */
  lemma ExtraKeyInjective(a: string, b: string)
    requires MatchesExtrasGlob(a) && MatchesExtrasGlob(b)
    ensures ExtraKey(a) == ExtraKey(b) <==> a == b
  {
    if GlobStem(a) == GlobStem(b) {
      GlobStemInjective(a, b);
    }
  }

  /** No pair after index `j` of `entries` has the key of `entries[j]`. */
  predicate LastWithKey(entries: seq<(string, seq<string>)>, j: int)
    requires 0 <= j < |entries|
  {
    forall i :: j < i < |entries| ==> entries[i].0 != entries[j].0
  }

  /**
   * The dictionary after `d[key] = lines` for each pair of `entries` in
   * order: one key per pair, and a key shared by several pairs holds the
   * value of the last of them.
   */
  function Inserted(entries: seq<(string, seq<string>)>): (d: map<string, seq<string>>)
    ensures d.Keys == set e | e in entries :: e.0
    ensures forall j :: 0 <= j < |entries| && LastWithKey(entries, j) ==> d[entries[j].0] == entries[j].1
    decreases |entries|
  {
    if entries == [] then map[]
    else
      var n := |entries| - 1;
      assert entries == entries[..n] + [entries[n]];
      assert forall j :: 0 <= j < n && LastWithKey(entries, j) ==> LastWithKey(entries[..n], j);
      Inserted(entries[..n])[entries[n].0 := entries[n].1]
  }

  /** The (key, lines) pair that each extras file contributes, in glob order. */
  function ExtraEntries(dir: Dir, files: seq<string>): seq<(string, seq<string>)>
    requires forall j :: 0 <= j < |files| ==> Readable(dir, files[j])
  {
    seq(|files|, j requires 0 <= j < |files| => (ExtraKey(files[j]), FileLines(dir, files[j])))
  }

  lemma InsertedSnoc(entries: seq<(string, seq<string>)>, key: string, value: seq<string>)
    ensures Inserted(entries + [(key, value)]) == Inserted(entries)[key := value]
  {
    assert (entries + [(key, value)])[..|entries|] == entries;
  }

  lemma ExtraEntriesSnoc(dir: Dir, files: seq<string>, i: nat)
    requires i < |files| && forall j :: 0 <= j <= i ==> Readable(dir, files[j])
    ensures Inserted(ExtraEntries(dir, files[..i + 1]))
      == Inserted(ExtraEntries(dir, files[..i]))[ExtraKey(files[i]) := FileLines(dir, files[i])]
  {
    var before := ExtraEntries(dir, files[..i]);
    assert ExtraEntries(dir, files[..i + 1]) == before + [(ExtraKey(files[i]), FileLines(dir, files[i]))];
    InsertedSnoc(before, ExtraKey(files[i]), FileLines(dir, files[i]));
  }

  /** The extras dictionary that lines 33-37 build from all-readable `files`. */
  function ExtrasFrom(dir: Dir, files: seq<string>): map<string, seq<string>>
    requires forall j :: 0 <= j < |files| ==> Readable(dir, files[j])
  {
    Inserted(ExtraEntries(dir, files))
  }

  /**
   * Lines 33-37: reads each globbed file in order into the extras dictionary.
   * The first file whose read raises ends loading with that error.
   */
  method BuildExtras(dir: Dir, extraReqFiles: seq<string>) returns (r: Result<map<string, seq<string>>, LoadError>)
    ensures FirstWhere(dir, extraReqFiles, false).Some? ==>
      r == Err(Unreadable(extraReqFiles[FirstWhere(dir, extraReqFiles, false).value]))
    ensures FirstWhere(dir, extraReqFiles, false).None? ==> r == Ok(ExtrasFrom(dir, extraReqFiles))
  {
    var extras := map[];
    for i := 0 to |extraReqFiles|
      invariant forall j :: 0 <= j < i ==> Readable(dir, extraReqFiles[j])
      invariant extras == ExtrasFrom(dir, extraReqFiles[..i])
    {
      var name := extraReqFiles[i];
      var contents := Read(dir, name);
      if contents.None? {
        return Err(Unreadable(name));
      }
      ExtraEntriesSnoc(dir, extraReqFiles, i);
      extras := extras[ExtraKey(name) := SplitLines(contents.value)];
    }
    assert extraReqFiles[..|extraReqFiles|] == extraReqFiles;
    return Ok(extras);
  }

  /** For distinct globbed files, each pair's key is its file's `<extra>` part, and no later pair repeats it. */
  lemma GlobbedEntries(dir: Dir, files: seq<string>)
    requires forall j :: 0 <= j < |files| ==> MatchesExtrasGlob(files[j]) && Readable(dir, files[j])
    requires forall i, j :: 0 <= i < j < |files| ==> files[i] != files[j]
    ensures |ExtraEntries(dir, files)| == |files|
    ensures forall j :: 0 <= j < |files| ==>
      ExtraEntries(dir, files)[j] == (GlobStem(files[j]), FileLines(dir, files[j])) && LastWithKey(ExtraEntries(dir, files), j)
  {
    var entries := ExtraEntries(dir, files);
    forall j | 0 <= j < |files|
      ensures entries[j] == (GlobStem(files[j]), FileLines(dir, files[j])) && LastWithKey(entries, j)
    {
      forall i | j < i < |files| ensures entries[i].0 != entries[j].0 {
        if GlobStem(files[i]) == GlobStem(files[j]) {
          GlobStemInjective(files[i], files[j]);
        }
      }
    }
  }

  /** A key of the dictionary comes from some pair, at index `j`. */
  lemma InsertedKeyFrom(entries: seq<(string, seq<string>)>, k: string) returns (j: nat)
    requires k in Inserted(entries)
    ensures j < |entries| && entries[j].0 == k
  {
    var e :| e in entries && k == e.0;
    j :| j < |entries| && entries[j] == e;
  }

  lemma InsertedHasKey(entries: seq<(string, seq<string>)>, j: nat)
    requires j < |entries|
    ensures entries[j].0 in Inserted(entries)
  {
    assert entries[j] in entries;
  }

  /** For distinct globbed files, the keys are exactly the files' `<extra>` parts. */
  lemma GlobbedExtrasKeys(dir: Dir, files: seq<string>)
    requires forall j :: 0 <= j < |files| ==> MatchesExtrasGlob(files[j]) && Readable(dir, files[j])
    requires forall i, j :: 0 <= i < j < |files| ==> files[i] != files[j]
    ensures forall k :: k in ExtrasFrom(dir, files) <==> exists j :: 0 <= j < |files| && k == GlobStem(files[j])
  {
    var entries := ExtraEntries(dir, files);
    GlobbedEntries(dir, files);
    forall k ensures k in Inserted(entries) <==> exists j :: 0 <= j < |files| && k == GlobStem(files[j]) {
      if k in Inserted(entries) {
        var j := InsertedKeyFrom(entries, k);
        assert k == GlobStem(files[j]);
      }
      if exists j :: 0 <= j < |files| && k == GlobStem(files[j]) {
        var j :| 0 <= j < |files| && k == GlobStem(files[j]);
        InsertedHasKey(entries, j);
      }
    }
  }

  /**
   * For the distinct names a glob returns, each file gives exactly one key,
   * its `<extra>` part, and that key holds the file's own lines.
   */
  lemma GlobbedExtras(dir: Dir, files: seq<string>)
    requires forall j :: 0 <= j < |files| ==> MatchesExtrasGlob(files[j]) && Readable(dir, files[j])
    requires forall i, j :: 0 <= i < j < |files| ==> files[i] != files[j]
    ensures forall k :: k in ExtrasFrom(dir, files) <==> exists j :: 0 <= j < |files| && k == GlobStem(files[j])
    ensures forall j :: 0 <= j < |files| ==> ExtrasFrom(dir, files)[GlobStem(files[j])] == FileLines(dir, files[j])
  {
    GlobbedExtrasKeys(dir, files);
    GlobbedEntries(dir, files);
  }

  // ---------------------------------------------------------------------------
  // The "all" group
  // ---------------------------------------------------------------------------

  /**
   * `{x for v in extras.values() for x in v}`: holds every group's entries
   * and nothing else.
   */
  function UnionOfGroups(extras: map<string, seq<string>>): (u: set<string>)
    ensures forall k, x :: k in extras && x in extras[k] ==> x in u
    ensures forall x :: x in u ==> exists k :: k in extras && x in extras[k]
    ensures extras == map[] ==> u == {}
  {
    set k, x | k in extras && x in extras[k] :: x
  }

  /**
   * `sorted(UnionOfGroups(extras))`: every requirement of every group, each
   * once, in ascending order.
   */
  function AllGroup(extras: map<string, seq<string>>): (all: seq<string>)
    ensures StrictlyAscending(all)
    ensures forall x :: x in all <==> exists k :: k in extras && x in extras[k]
  {
    SortedSet(UnionOfGroups(extras))
  }

  /**
   * Lines 42-43: a non-empty extras dictionary gains the key "all", holding
   * the union of all groups, computed before the insertion and so including
   * the lines of a previous "all" group, which it replaces.
   */
  function WithAllGroup(extras: map<string, seq<string>>): (r: map<string, seq<string>>)
    ensures AllKey in r <==> |extras| > 0
    ensures |extras| == 0 ==> r == map[]
    ensures |extras| > 0 ==> r.Keys == extras.Keys + {AllKey} && r[AllKey] == AllGroup(extras)
    ensures forall k :: k in extras && k != AllKey ==> r[k] == extras[k]
  {
    if |extras| == 0 then extras else extras[AllKey := AllGroup(extras)]
  }

  /**
   * The "all" group adds no requirement that is not already in some group,
   * so doing lines 42-43 a second time changes nothing.
   */
  lemma WithAllGroupIdempotent(extras: map<string, seq<string>>)
    ensures WithAllGroup(WithAllGroup(extras)) == WithAllGroup(extras)
  {
    if |extras| > 0 {
      var r := WithAllGroup(extras);
      assert UnionOfGroups(r) == UnionOfGroups(extras) by {
        forall x | x in UnionOfGroups(r) ensures x in UnionOfGroups(extras) {
          var k :| k in r && x in r[k];
          if k == AllKey {
            assert x in AllGroup(extras);
          } else {
            assert x in extras[k];
          }
        }
        forall x | x in UnionOfGroups(extras) ensures x in UnionOfGroups(r) {
          var k :| k in extras && x in extras[k];
          if k == AllKey {
            assert x in r[AllKey];
          } else {
            assert x in r[k];
          }
        }
      }
      assert r[AllKey := AllGroup(r)] == r;
    }
  }

  // ---------------------------------------------------------------------------
  // README selection and content type
  // ---------------------------------------------------------------------------

  /**
   * What lines 62-73 leave in `long_description` and `readme_fname`: the text
   * and name of the first readable README candidate, or the metadata
   * description and "" when none can be read.
   */
  predicate ReadmeOutcome(dir: Dir, description: string, longDescription: string, readmeName: string)
    ensures ReadmeOutcome(dir, description, longDescription, readmeName) ==>
      (readmeName == "" || readmeName in ReadmeCandidates)
    ensures ReadmeOutcome(dir, description, longDescription, readmeName) ==>
      (readmeName == "" <==> forall j :: 0 <= j < |ReadmeCandidates| ==> !Readable(dir, ReadmeCandidates[j]))
  {
    match FirstWhere(dir, ReadmeCandidates, true)
    case None => longDescription == description && readmeName == ""
    case Some(i) => readmeName == ReadmeCandidates[i] && longDescription == Read(dir, readmeName).value
  }

  /** Lines 62-73: tries the candidates in order and stops at the first read that succeeds. */
  method SelectReadme(dir: Dir, description: string) returns (longDescription: string, readmeName: string)
    ensures ReadmeOutcome(dir, description, longDescription, readmeName)
  {
    longDescription := description;
    readmeName := "";
    for i := 0 to |ReadmeCandidates|
      invariant forall j :: 0 <= j < i ==> !Readable(dir, ReadmeCandidates[j])
    {
      var name := ReadmeCandidates[i];
      var contents := Read(dir, name);
      if contents.None? {
        continue;
      }
      longDescription := contents.value;
      readmeName := name;
      return;
    }
  }

  /**
   * The choice depends only on the candidates up to the chosen one: another
   * directory that agrees with `dir` on those picks the same candidate,
   * whatever the later candidates hold.
   */
  lemma {:induction false} LaterCandidatesIgnored(dir: Dir, other: Dir, names: seq<string>, i: nat)
    requires FirstWhere(dir, names, true) == Some(i)
    requires forall j :: 0 <= j <= i ==> Read(other, names[j]) == Read(dir, names[j])
    ensures FirstWhere(other, names, true) == Some(i)
    decreases |names|
  {
    if i > 0 {
      LaterCandidatesIgnored(dir, other, names[1..], i - 1);
    }
  }

  /** A readable README.md wins over every other candidate. */
  lemma MarkdownFirst(dir: Dir, description: string, longDescription: string, readmeName: string)
    requires Readable(dir, "README.md")
    requires ReadmeOutcome(dir, description, longDescription, readmeName)
    ensures readmeName == "README.md" && longDescription == Read(dir, "README.md").value
  {
    assert FirstWhere(dir, ReadmeCandidates, true) == Some(0);
  }

  /** Lines 78-84: the content type named by the README's extension. */
  function ContentType(readmeName: string): (t: string)
    ensures t == RstType || t == MarkdownType || t == PlainType
  {
    var ext := Lower(Ext(readmeName));
    if ext == ".rst" then RstType
    else if ext == ".md" then MarkdownType
    else PlainType
  }

  /** The content type is ".rst" or ".md", compared ignoring case, or plain text for any other extension. */
  lemma ContentTypeByExtension(readmeName: string)
    ensures ContentType(readmeName) == RstType <==> EqualsIgnoringCase(Ext(readmeName), ".rst")
    ensures ContentType(readmeName) == MarkdownType <==> EqualsIgnoringCase(Ext(readmeName), ".md")
    ensures ContentType(readmeName) == PlainType <==>
      !EqualsIgnoringCase(Ext(readmeName), ".rst") && !EqualsIgnoringCase(Ext(readmeName), ".md")
  {
    LowerEqualsIff(Ext(readmeName), ".rst");
    LowerEqualsIff(Ext(readmeName), ".md");
  }

  /** `"README" + ext`, for an extension `ext` of one leading dot and no '/', splits off `ext`. */
  lemma ReadmeExt(ext: string)
    requires |ext| >= 1 && ext[0] == '.'
    requires forall j :: 0 < j < |ext| ==> ext[j] != '.' && ext[j] != '/'
    ensures Ext("README" + ext) == ext
  {
    var name := "README" + ext;
    forall j | 0 <= j < |name| ensures name[j] != '/' {
      if j >= 6 {
        assert name[j] == ext[j - 6];
      }
    }
    forall j | 6 < j < |name| ensures name[j] != '.' {
      assert name[j] == ext[j - 6];
    }
    SplitExtAtLastDot(name, 6);
    assert name[6..] == ext;
  }

  /** README.md, and README.MD with its upper-case extension, are Markdown. */
  lemma MarkdownCandidate()
    ensures ContentType("README" + ".md") == MarkdownType
    ensures ContentType("README" + ".MD") == MarkdownType
  {
    ReadmeExt(".md");
    assert Lower(".md") == ".md";
    ReadmeExt(".MD");
    assert Lower(".MD") == ".md";
  }

  /** README.rst is reStructuredText. */
  lemma RstCandidate()
    ensures ContentType("README" + ".rst") == RstType
  {
    ReadmeExt(".rst");
    assert Lower(".rst") == ".rst";
  }

  /** README.txt, README and the "" left when no README was read are plain text. */
  lemma PlainCandidates()
    ensures ContentType("README" + ".txt") == PlainType
    ensures ContentType("README") == PlainType
    ensures ContentType("") == PlainType
  {
    ReadmeExt(".txt");
    assert Lower(".txt") == ".txt";
    NoDotNoExt("README");
    NoDotNoExt("");
  }

  // ---------------------------------------------------------------------------
  // Lines 30-84 together
  // ---------------------------------------------------------------------------

  /** The values setup.py hands to setuptools from lines 30-84, with the README name it chose. */
  datatype PackageConfig = PackageConfig(
    installRequires: seq<string>,
    extrasRequire: map<string, seq<string>>,
    longDescription: string,
    readmeName: string,
    longDescriptionContentType: string)

  /**
   * Lines 30-84 in order: requirements.txt (its read may raise), the extras
   * files, `meta["description"]` (a KeyError when missing), the README and
   * its content type. `extraReqFiles` is what the glob returned and `meta`
   * what the metadata file defined.
   */
  method LoadConfig(dir: Dir, extraReqFiles: seq<string>, meta: map<string, string>)
    returns (r: Result<PackageConfig, LoadError>)
    ensures !Readable(dir, Requirements) ==> r == Err(Unreadable(Requirements))
    ensures Readable(dir, Requirements) && FirstWhere(dir, extraReqFiles, false).Some? ==>
      r == Err(Unreadable(extraReqFiles[FirstWhere(dir, extraReqFiles, false).value]))
    ensures Readable(dir, Requirements) && FirstWhere(dir, extraReqFiles, false).None? && DescriptionKey !in meta ==>
      r == Err(MissingMeta(DescriptionKey))
    ensures r.Ok? <==>
      Readable(dir, Requirements) && FirstWhere(dir, extraReqFiles, false).None? && DescriptionKey in meta
    ensures r.Ok? ==>
      && r.value.installRequires == FileLines(dir, Requirements)
      && r.value.extrasRequire == WithAllGroup(ExtrasFrom(dir, extraReqFiles))
      && ReadmeOutcome(dir, meta[DescriptionKey], r.value.longDescription, r.value.readmeName)
      && r.value.longDescriptionContentType == ContentType(r.value.readmeName)
  {
    var requirements := Read(dir, Requirements);
    if requirements.None? {
      return Err(Unreadable(Requirements));
    }
    var installRequires := SplitLines(requirements.value);
    var extras := BuildExtras(dir, extraReqFiles);
    if extras.Err? {
      return Err(extras.error);
    }
    var extrasRequire := WithAllGroup(extras.value);
    if DescriptionKey !in meta {
      return Err(MissingMeta(DescriptionKey));
    }
    var longDescription, readmeName := SelectReadme(dir, meta[DescriptionKey]);
    var contentType := ContentType(readmeName);
    return Ok(PackageConfig(installRequires, extrasRequire, longDescription, readmeName, contentType));
  }
}
