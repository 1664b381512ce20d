/** Package-relative paths (exporters/paths.py:121-156, 189-193;
    exporters/manifest.py:198-213): control files, suffixes, and the payload a
    derivative was made from. */
module PackagePaths {
  import opened Outcomes
  import opened Splitting

  const CONTROL_BASENAMES := {"package-manifest.json", "checksums.sha256"}

  const QA := "06_QA"
  const LEGACY_QA := "06_QA_and_Manifest"

  const CONTROL_FILES := {
    "06_QA/package-manifest.json", "06_QA/checksums.sha256",
    "06_QA_and_Manifest/package-manifest.json", "06_QA_and_Manifest/checksums.sha256"}

  /** A manifest control file in any QA folder. */
  predicate IsControlFile(path: string) {
    var parts := SplitOn(path, '/');
    if |parts| != 2 then path in CONTROL_FILES
    else parts[1] in CONTROL_BASENAMES && "06_" <= parts[0]
  }

  lemma ControlNameHasNoSlash(name: string)
    requires name in CONTROL_BASENAMES
    ensures '/' !in name
  {
  }

  /** Whatever the folder, the two control names below it are control files. */
  lemma InQaFolderIsControl(folder: string, name: string)
    requires '/' !in folder && "06_" <= folder && name in CONTROL_BASENAMES
    ensures IsControlFile(folder + ['/'] + name)
  {
    ControlNameHasNoSlash(name);
    SplitFree(name, '/');
    SplitAtSeparator(folder, name, '/');
  }

  /** One of the two names, directly below a folder at the root of the package whose
      name starts as a QA folder's does. */
  ghost predicate LiesInQaFolder(path: string, folder: string, name: string) {
    && '/' !in folder && "06_" <= folder && name in {"package-manifest.json", "checksums.sha256"}
    && path == folder + ['/'] + name
  }

  lemma ManifestPaths()
    ensures "06_QA/package-manifest.json" == QA + ['/'] + "package-manifest.json"
    ensures "06_QA_and_Manifest/package-manifest.json" == LEGACY_QA + ['/'] + "package-manifest.json"
  {
  }

  lemma ChecksumPaths()
    ensures "06_QA/checksums.sha256" == QA + ['/'] + "checksums.sha256"
    ensures "06_QA_and_Manifest/checksums.sha256" == LEGACY_QA + ['/'] + "checksums.sha256"
  {
  }

  lemma ControlFilesLieInQaFolders(path: string) returns (folder: string, name: string)
    requires path in CONTROL_FILES
    ensures LiesInQaFolder(path, folder, name)
  {
    ManifestPaths();
    ChecksumPaths();
    QaFolders();
    folder := if path in {QA + ['/'] + "package-manifest.json", QA + ['/'] + "checksums.sha256"} then QA else LEGACY_QA;
    name := if path == folder + ['/'] + "package-manifest.json" then "package-manifest.json" else "checksums.sha256";
  }

  lemma {:induction false} TwoParts(path: string)
    requires |SplitOn(path, '/')| == 2
    ensures var parts := SplitOn(path, '/'); path == parts[0] + ['/'] + parts[1] && '/' !in parts[0]
  {
    JoinOfSplit(path, '/');
    PartsAreFree(path, '/');
    assert SplitOn(path, '/')[1..] == [SplitOn(path, '/')[1]];
  }

  /** Nothing else is a control file. */
  lemma ControlFileIff(path: string)
    ensures IsControlFile(path) <==> exists folder, name :: LiesInQaFolder(path, folder, name)
  {
    if IsControlFile(path) {
      if |SplitOn(path, '/')| == 2 {
        TwoParts(path);
        assert LiesInQaFolder(path, SplitOn(path, '/')[0], SplitOn(path, '/')[1]);
      } else {
        var folder, name := ControlFilesLieInQaFolders(path);
      }
    }
    if folder, name :| LiesInQaFolder(path, folder, name) {
      InQaFolderIsControl(folder, name);
    }
  }

  /** The last component of a path. */
  function NameOf(path: string): string {
    path[UpToLast(path, '/')..]
  }

  lemma NameBelow(folder: string, name: string)
    requires '/' !in name
    ensures NameOf(folder + ['/'] + name) == name
  {
    var path := folder + ['/'] + name;
    UpToLastIs(path, '/', |folder| + 1);
  }

  /** A file of another name is a payload, in whatever folder. */
  lemma OtherNamesAreNoControlFiles(path: string)
    requires NameOf(path) !in {"package-manifest.json", "checksums.sha256"}
    ensures !IsControlFile(path)
  {
    ControlFileIff(path);
    if folder, name :| LiesInQaFolder(path, folder, name) {
      ControlNameHasNoSlash(name);
      NameBelow(folder, name);
      assert false;
    }
  }

  lemma QaFolders()
    ensures '/' !in QA && "06_" <= QA && '/' !in LEGACY_QA && "06_" <= LEGACY_QA
  {
  }

  // --------------------------------------------------------------- suffixes

  /** The length of the text up to and including the last `c`; 0 if there is none. */
  function UpToLast(s: string, c: char): (n: nat)
    ensures n <= |s| && (n > 0 ==> s[n - 1] == c) && forall i :: n <= i < |s| ==> s[i] != c
  {
    if s == "" then 0
    else if s[|s| - 1] == c then |s|
    else UpToLast(s[..|s| - 1], c)
  }

  lemma {:induction false} UpToLastIs(s: string, c: char, n: nat)
    requires n <= |s| && (n > 0 ==> s[n - 1] == c) && forall i :: n <= i < |s| ==> s[i] != c
    ensures UpToLast(s, c) == n
  {
    if s != "" && s[|s| - 1] != c { UpToLastIs(s[..|s| - 1], c, n); }
  }

  /** The suffix of the last component: from its last dot on, unless that dot is
      the component's first or last character. */
  function Suffix(path: string): string {
    var dot, slash := UpToLast(path, '.'), UpToLast(path, '/');
    if slash + 1 < dot < |path| then path[dot - 1..] else ""
  }

  function Stem(path: string): (stem: string)
    ensures stem + Suffix(path) == path
  {
    path[..|path| - |Suffix(path)|]
  }

  /** Where a stem comes from, its last component is not empty. */
  lemma StemEndsInAName(path: string)
    requires Suffix(path) != ""
    ensures Stem(path) != "" && Stem(path)[|Stem(path)| - 1] != '/'
  {
    var dot, slash := UpToLast(path, '.'), UpToLast(path, '/');
    assert |Stem(path)| == dot - 1;
  }

  /** The suffix starts at the last dot of the name, if that is neither its first nor
      its last character. */
  lemma SuffixTells(path: string, i: nat)
    requires i < |NameOf(path)| && NameOf(path)[i] == '.' && '.' !in NameOf(path)[i + 1..]
    ensures Suffix(path) == if 0 < i < |NameOf(path)| - 1 then NameOf(path)[i..] else ""
  {
    LastDotOfName(path, i);
  }

  lemma {:induction false} LastDotOfName(path: string, i: nat)
    requires i < |NameOf(path)| && NameOf(path)[i] == '.' && '.' !in NameOf(path)[i + 1..]
    ensures UpToLast(path, '.') == UpToLast(path, '/') + i + 1
  {
    var slash, name := UpToLast(path, '/'), NameOf(path);
    forall k | slash + i < k < |path|
      ensures path[k] != '.'
    {
      assert path[k] == name[k - slash] == name[i + 1..][k - slash - i - 1];
    }
    UpToLastIs(path, '.', slash + i + 1);
  }

  lemma NoDotNoSuffix(path: string)
    requires '.' !in NameOf(path)
    ensures Suffix(path) == ""
  {
    var dot, slash := UpToLast(path, '.'), UpToLast(path, '/');
    assert forall i :: slash <= i < |path| ==> path[i] == NameOf(path)[i - slash];
    assert forall i :: slash <= i < |path| ==> path[i] != '.';
  }

  predicate IsSimpleSuffix(suffix: string) {
    |suffix| > 1 && suffix[0] == '.' && forall i :: 1 <= i < |suffix| ==> suffix[i] != '.' && suffix[i] != '/'
  }

  lemma SuffixOfStem(stem: string, suffix: string)
    requires stem != "" && stem[|stem| - 1] != '/' && IsSimpleSuffix(suffix)
    ensures Suffix(stem + suffix) == suffix
  {
    var path := stem + suffix;
    UpToLastIs(path, '.', |stem| + 1);
    assert forall i :: |stem| - 1 <= i < |path| ==> path[i] == (if i < |stem| then stem[i] else suffix[i - |stem|]);
    assert forall i :: |stem| - 1 <= i < |path| ==> path[i] != '/';
  }

  // ------------------------------------------------------------ derivatives

  const DERIVED := {".pdf", ".html", ".csv"}

  const SOURCES: seq<string> := [".pptx", ".docx", ".xlsx"]

  /** Case folding leaves these suffixes alone. */
  ghost predicate LawfulFold(fold: string -> string) {
    fold("") == "" && fold(".pptx") == ".pptx" && fold(".docx") == ".docx" && fold(".xlsx") == ".xlsx"
  }

  /** The first of the suffixes under which the stem is available. */
  function FirstSource(stem: string, path: string, available: set<string>, suffixes: seq<string>): Option<string> {
    if suffixes == [] then None
    else
      var candidate := stem + suffixes[0];
      if candidate != path && candidate in available then Some(candidate)
      else FirstSource(stem, path, available, suffixes[1..])
  }

  /** The sibling a derivative was rendered from, richest format first. */
  function ResolveDerivative(fold: string -> string, path: string, available: set<string>): Option<string> {
    if fold(Suffix(path)) !in DERIVED then None else FirstSource(Stem(path), path, available, SOURCES)
  }

  /** Under the suffix there is nothing to take: it gives the path itself, or
      nothing available. */
  predicate IsNoSource(candidate: string, path: string, available: set<string>) {
    candidate == path || candidate !in available
  }

  /** The richest available format wins; none is found only if there is none. */
  lemma {:induction false} FirstSourceIsFirst(stem: string, path: string, available: set<string>, suffixes: seq<string>)
    returns (i: nat)
    ensures i <= |suffixes| && forall j :: 0 <= j < i ==> IsNoSource(stem + suffixes[j], path, available)
    ensures i == |suffixes| ==> FirstSource(stem, path, available, suffixes) == None
    ensures i < |suffixes| ==>
      && FirstSource(stem, path, available, suffixes) == Some(stem + suffixes[i])
      && !IsNoSource(stem + suffixes[i], path, available)
  {
    i := 0;
    if suffixes != [] && IsNoSource(stem + suffixes[0], path, available) {
      i := FirstSourceIsFirst(stem, path, available, suffixes[1..]);
      i := i + 1;
    }
  }

  /** A declared source exists, is another file of another format, and is itself
      no derivative: derivation has depth one. */
  lemma SourceIsOriginal(fold: string -> string, path: string, available: set<string>, others: set<string>)
    requires LawfulFold(fold) && ResolveDerivative(fold, path, available).Some?
    ensures var source := ResolveDerivative(fold, path, available).value;
      && source in available && source != path && source != ""
      && fold(Suffix(source)) != fold(Suffix(path)) && ResolveDerivative(fold, source, others) == None
  {
    var source := ResolveDerivative(fold, path, available).value;
    var i := FirstSourceIsFirst(Stem(path), path, available, SOURCES);
    StemEndsInAName(path);
    SuffixOfStem(Stem(path), SOURCES[i]);
    assert fold(SOURCES[i]) == SOURCES[i];
  }

  /** The file may be the source: it is available and another one. */
  predicate Serves(candidate: string, path: string, available: set<string>) {
    candidate in available && candidate != path
  }

  /** Only .pdf, .html and .csv files have a source: the slides, else the text, else
      the table of the same stem. */
  lemma {:induction false} DerivativeTells(fold: string -> string, path: string, available: set<string>)
    ensures ResolveDerivative(fold, path, available) ==
      if fold(Suffix(path)) !in {".pdf", ".html", ".csv"} then None
      else if Serves(Stem(path) + ".pptx", path, available) then Some(Stem(path) + ".pptx")
      else if Serves(Stem(path) + ".docx", path, available) then Some(Stem(path) + ".docx")
      else if Serves(Stem(path) + ".xlsx", path, available) then Some(Stem(path) + ".xlsx")
      else None
  {
    assert SOURCES[1..] == [".docx", ".xlsx"] && SOURCES[1..][1..] == [".xlsx"] && [".xlsx"][1..] == [];
    var stem := Stem(path);
    assert FirstSource(stem, path, available, SOURCES) ==
      if Serves(stem + ".pptx", path, available) then Some(stem + ".pptx")
      else FirstSource(stem, path, available, SOURCES[1..]);
    assert FirstSource(stem, path, available, [".docx", ".xlsx"]) ==
      if Serves(stem + ".docx", path, available) then Some(stem + ".docx")
      else FirstSource(stem, path, available, [".xlsx"]);
  }
}
