/**
 * How start_command_line.py names the package it imports: the running file's
 * path with every occurrence of the repository root deleted, cut at the first
 * path separator. The root (from `get_repository_path()`) and the separator
 * (`os.sep`, one character) are parameters.
 */
module StartCommandLine {
  import opened PyStr

  /**
   * `__file__.replace(get_repository_path(), '').split(os.sep)[0]`: the text
   * of the root-stripped path before its first separator, which is all of it
   * when it has no separator.
   */
  function PackageName(filePath: string, repositoryPath: string, sep: char): (name: string)
    ensures sep !in name
    ensures name <= RemoveAll(filePath, repositoryPath)
    ensures |name| == |RemoveAll(filePath, repositoryPath)| || RemoveAll(filePath, repositoryPath)[|name|] == sep
  {
    var stripped := RemoveAll(filePath, repositoryPath);
    SplitFirst(stripped, sep);
    Split(stripped, sep)[0]
  }

  /** When the stripped path is `pkg`, a separator and more, the name is `pkg`. */
  lemma NameIsFirstSegment(filePath: string, repositoryPath: string, sep: char, pkg: string, rest: string)
    requires RemoveAll(filePath, repositoryPath) == pkg + [sep] + rest
    requires sep !in pkg
    ensures PackageName(filePath, repositoryPath, sep) == pkg
  {
    var stripped := RemoveAll(filePath, repositoryPath);
    SplitHead(stripped, sep);
    IndexOfAfter(pkg, sep, rest);
    assert stripped[..|pkg|] == pkg;
  }

  /** A stripped path without a separator is a name on its own. */
  lemma NameWithoutSeparator(filePath: string, repositoryPath: string, sep: char)
    requires sep !in RemoveAll(filePath, repositoryPath)
    ensures PackageName(filePath, repositoryPath, sep) == RemoveAll(filePath, repositoryPath)
  {
    var stripped := RemoveAll(filePath, repositoryPath);
    SplitHead(stripped, sep);
    assert IndexOf(stripped, sep) == |stripped|;
  }

  /** A stripped path that starts with a separator gives the empty name. */
  lemma LeadingSeparatorGivesEmptyName(filePath: string, repositoryPath: string, sep: char)
    requires RemoveAll(filePath, repositoryPath) != [] && RemoveAll(filePath, repositoryPath)[0] == sep
    ensures PackageName(filePath, repositoryPath, sep) == []
  {
    var stripped := RemoveAll(filePath, repositoryPath);
    SplitHead(stripped, sep);
    assert IndexOf(stripped, sep) == 0;
  }

  /**
   * A root given without its trailing separator leaves that separator at the
   * front of the stripped path, so the name is empty (provided what follows
   * the root does not itself begin with the root).
   */
  lemma RootWithoutTrailingSeparator(repositoryPath: string, sep: char, rest: string)
    requires repositoryPath != []
    requires !(repositoryPath <= [sep] + rest)
    ensures PackageName(repositoryPath + [sep] + rest, repositoryPath, sep) == []
  {
    var tail := [sep] + rest;
    assert repositoryPath + [sep] + rest == [] + repositoryPath + tail;
    RemoveAllAt([], repositoryPath, tail);
    SeparatorKept(repositoryPath, sep, rest);
    LeadingSeparatorGivesEmptyName(repositoryPath + [sep] + rest, repositoryPath, sep);
  }

  /** A root that starts with the separator cannot occur from inside a separator-free `pkg`. */
  lemma NoRootInsideSegment(repositoryPath: string, sep: char, pkg: string, tail: string)
    requires repositoryPath != [] && repositoryPath[0] == sep
    requires sep !in pkg
    ensures NoOccurrenceBefore(pkg + tail, repositoryPath, |pkg|)
  {
    forall i | 0 <= i < |pkg| ensures !OccursAt(pkg + tail, repositoryPath, i) {
      assert (pkg + tail)[i] == pkg[i];
      if i + |repositoryPath| <= |pkg + tail| {
        assert (pkg + tail)[i..i + |repositoryPath|][0] == pkg[i];
      }
    }
  }

  /** The leading root goes, and a separator-free `pkg` after it stays. */
  lemma StripRootBeforeSegment(repositoryPath: string, pkg: string, sep: char, tail: string)
    requires repositoryPath != [] && repositoryPath[0] == sep
    requires sep !in pkg
    ensures RemoveAll(repositoryPath + pkg + tail, repositoryPath) == pkg + RemoveAll(tail, repositoryPath)
  {
    assert repositoryPath + pkg + tail == [] + repositoryPath + (pkg + tail);
    RemoveAllAt([], repositoryPath, pkg + tail);
    NoRootInsideSegment(repositoryPath, sep, pkg, tail);
    RemoveAllKeepsPrefix(pkg, tail, repositoryPath);
  }

  /** A separator that does not start an occurrence of the root stays. */
  lemma SeparatorKept(repositoryPath: string, sep: char, rest: string)
    requires repositoryPath != []
    requires !(repositoryPath <= [sep] + rest)
    ensures RemoveAll([sep] + rest, repositoryPath) == [sep] + RemoveAll(rest, repositoryPath)
  {
    var tail := [sep] + rest;
    if |tail| >= |repositoryPath| {
      assert tail[..|repositoryPath|] != repositoryPath;
      assert tail[1..] == rest;
    } else {
      assert RemoveAll(rest, repositoryPath) == rest;
    }
  }

  /**
   * A file at `root + pkg + sep + rest`, for a root that starts with the
   * separator, is named `pkg` however deep below `pkg` it lies, as long as
   * what follows `pkg` does not begin with the root.
   */
  lemma PackageBelowRoot(repositoryPath: string, pkg: string, sep: char, rest: string)
    requires repositoryPath != [] && repositoryPath[0] == sep
    requires sep !in pkg
    requires !(repositoryPath <= [sep] + rest)
    ensures PackageName(repositoryPath + pkg + [sep] + rest, repositoryPath, sep) == pkg
  {
    var filePath := repositoryPath + pkg + [sep] + rest;
    assert filePath == repositoryPath + pkg + ([sep] + rest);
    StripRootBeforeSegment(repositoryPath, pkg, sep, [sep] + rest);
    SeparatorKept(repositoryPath, sep, rest);
    assert RemoveAll(filePath, repositoryPath) == pkg + [sep] + RemoveAll(rest, repositoryPath);
    NameIsFirstSegment(filePath, repositoryPath, sep, pkg, RemoveAll(rest, repositoryPath));
  }

  /** The layout `/repo/package_name/start_command_line/start_command_line.py` with the root "/repo/". */
  lemma LayoutWithTrailingSeparator()
    ensures PackageName("/repo/" + "package_name" + "/" + "start_command_line/start_command_line.py", "/repo/", '/')
      == "package_name"
  {
    var rest := "start_command_line/start_command_line.py";
    assert rest[0] == 's';
    assert "/repo/"[1] != ("/" + rest)[1];
    PackageBelowRoot("/repo/", "package_name", '/', rest);
  }

  /** The same layout with the root given as "/repo", without its trailing separator: the name is empty. */
  lemma LayoutWithoutTrailingSeparator()
    ensures PackageName("/repo" + "/" + "package_name" + "/" + "start_command_line/start_command_line.py", "/repo", '/')
      == ""
  {
    var rest := "package_name" + "/" + "start_command_line/start_command_line.py";
    assert rest[0] == "package_name"[0] == 'p';
    assert "/repo" + "/" + "package_name" + "/" + "start_command_line/start_command_line.py" == "/repo" + "/" + rest;
    assert "/repo"[1] != ("/" + rest)[1];
    RootWithoutTrailingSeparator("/repo", '/', rest);
  }

  /**
   * Without its trailing separator, a root that starts again right after
   * itself is deleted twice, and the name is then not empty: "/a/ab" with the
   * root "/a" is named "b".
   */
  lemma RepeatedRootRemoved()
    ensures PackageName("/a" + "/a" + "b", "/a", '/') == "b"
  {
    assert "/a" + "/a" + "b" == [] + "/a" + ("/a" + "b");
    RemoveAllAt([], "/a", "/a" + "b");
    assert "/a" + "b" == [] + "/a" + "b";
    RemoveAllAt([], "/a", "b");
    assert RemoveAll("b", "/a") == "b";
    NameWithoutSeparator("/a" + "/a" + "b", "/a", '/');
  }

  lemma StripLeadingRoot()
    ensures RemoveAll("/r/pkg/r/m", "/r/") == RemoveAll("pkg/r/m", "/r/")
  {
    assert "/r/pkg/r/m" == [] + "/r/" + "pkg/r/m";
    RemoveAllAt([], "/r/", "pkg/r/m");
  }

  lemma StripInnerRoot()
    ensures RemoveAll("pkg/r/m", "/r/") == "pkgm"
  {
    assert "pkg/r/m" == "pkg" + "/r/" + "m";
    forall i | 0 <= i < 3 ensures !OccursAt("pkg/r/m", "/r/", i) {
      assert "pkg/r/m"[i] != '/';
      assert "pkg/r/m"[i..i + 3][0] == "pkg/r/m"[i];
    }
    RemoveAllAt("pkg", "/r/", "m");
  }

  /**
   * An occurrence of the root below the package, not only the leading one, is
   * deleted too: here it joins two segments into the name.
   */
  lemma InteriorRootRemoved()
    ensures PackageName("/r/pkg/r/m", "/r/", '/') == "pkgm"
  {
    StripLeadingRoot();
    StripInnerRoot();
    NameWithoutSeparator("/r/pkg/r/m", "/r/", '/');
  }
}
