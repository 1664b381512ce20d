/** Package manifests (exporters/manifest.py:75-195, exporters/run_package.py:538-572, 700-705):
    what the integrity check accepts, when a freshly built manifest passes it,
    and that writing the control files does not disturb it. */
module Manifest {
  import opened Outcomes
  import opened Sequences
  import opened Text
  import opened PackagePaths

  // ------------------------------------------------------------ the package

  /** Where a symbolic path leads: to a path of the package, to a file outside
      it, or to no file. */
  datatype Target = Inside(path: string) | Outside | Nowhere

  type Content = seq<bv8>

  /** A package tree, its paths relative to its root. */
  datatype Tree = Tree(files: map<string, Content>, links: map<string, Target>, folders: set<string>)

  datatype Entry = Entry(path: string, bytes: nat, sha: string, derivativeOf: Option<string>)

  /** The hash, the case folding of suffixes, the manifest's JSON text and the
      encoding of text files. */
  datatype Library = Library(
    digest: Content -> string, fold: string -> string, json: seq<Entry> -> Content, encode: string -> Content)

  function Payloads(tree: Tree): set<string> {
    set path | path in tree.files.Keys && !IsControlFile(path)
  }

  /** The file a path stands for once links are followed. */
  function Resolved(tree: Tree, path: string): Option<string> {
    if path in tree.files then Some(path)
    else if path in tree.links && tree.links[path].Inside? && tree.links[path].path in tree.files then
      Some(tree.links[path].path)
    else None
  }

  predicate IsFile(tree: Tree, path: string) {
    Resolved(tree, path).Some? || (path in tree.links && tree.links[path].Outside?)
  }

  // -------------------------------------------------------------- integrity

  datatype Fault =
    | DuplicatePath | Missing | Drift | Identical | NoSource | SelfDerived | SameFormat | SymbolicPath | Coverage
    | NotInside | ControlFile

  function PathsOf(entries: seq<Entry>): set<string> {
    set i | 0 <= i < |entries| :: entries[i].path
  }

  /** A declared source is another entry, of another format. */
  predicate IsDerivation(fold: string -> string, paths: set<string>, entry: Entry) {
    entry.derivativeOf.Some? && entry.derivativeOf.value != "" ==>
      var source := entry.derivativeOf.value;
      source in paths && source != entry.path && fold(Suffix(source)) != fold(Suffix(entry.path))
  }

  predicate IsRecorded(lib: Library, tree: Tree, entry: Entry) {
    entry.path in tree.files && entry.sha == lib.digest(tree.files[entry.path])
  }

  /** What an accepted manifest promises: entries and payloads match one to one,
      with the recorded digests, no digest twice; sources are sound; and nothing
      in the package is symbolic. */
  ghost predicate IsSound(lib: Library, tree: Tree, entries: seq<Entry>) {
    && (forall i, j :: 0 <= i < j < |entries| ==>
      entries[i].path != entries[j].path && entries[i].sha != entries[j].sha)
    && (forall i :: 0 <= i < |entries| ==>
      IsRecorded(lib, tree, entries[i]) && IsDerivation(lib.fold, PathsOf(entries), entries[i]))
    && tree.links.Keys == {} && PathsOf(entries) == Payloads(tree)
  }

  /** The first `k` entries have been found sound. */
  ghost predicate SoundUpTo(lib: Library, tree: Tree, entries: seq<Entry>, k: nat)
    requires k <= |entries|
  {
    && (forall i, j :: 0 <= i < j < k ==> entries[i].path != entries[j].path && entries[i].sha != entries[j].sha)
    && (forall i :: 0 <= i < k ==>
      IsRecorded(lib, tree, entries[i]) && IsDerivation(lib.fold, PathsOf(entries), entries[i]))
  }

  /** What entry `k` fails, if anything; symbolic paths are left to the sweep of
      the tree. */
  function EntryFault(
    lib: Library, tree: Tree, paths: set<string>, entry: Entry, seen: set<string>, hashes: set<string>)
    : Option<Fault>
  {
    if entry.path in seen then Some(DuplicatePath)
    else
      var at := Resolved(tree, entry.path);
      if at.None? then Some(Missing)
      else
        var actual := lib.digest(tree.files[at.value]);
        if actual != entry.sha then Some(Drift)
        else if actual in hashes then Some(Identical)
        else if entry.derivativeOf.None? || entry.derivativeOf.value == "" then None
        else
          var source := entry.derivativeOf.value;
          if source !in paths then Some(NoSource)
          else if source == entry.path then Some(SelfDerived)
          else if lib.fold(Suffix(source)) == lib.fold(Suffix(entry.path)) then Some(SameFormat)
          else None
  }

  /** Without symbolic paths, an entry has no fault exactly if it is new, recorded
      and soundly derived. */
  lemma NoFaultIff(lib: Library, tree: Tree, paths: set<string>, entry: Entry, seen: set<string>, hashes: set<string>)
    requires tree.links.Keys == {}
    ensures EntryFault(lib, tree, paths, entry, seen, hashes).None? <==>
      && entry.path !in seen && entry.sha !in hashes
      && IsRecorded(lib, tree, entry) && IsDerivation(lib.fold, paths, entry)
  {
  }

  lemma SoundOneMore(lib: Library, tree: Tree, entries: seq<Entry>, k: nat)
    requires k < |entries| && SoundUpTo(lib, tree, entries, k)
    ensures SoundUpTo(lib, tree, entries, k + 1) <==>
      && (forall i :: 0 <= i < k ==> entries[i].path != entries[k].path && entries[i].sha != entries[k].sha)
      && IsRecorded(lib, tree, entries[k]) && IsDerivation(lib.fold, PathsOf(entries), entries[k])
  {
  }

  lemma NewIff(entries: seq<Entry>, k: nat)
    requires k < |entries|
    ensures entries[k].path !in PathsOf(entries[..k]) && entries[k].sha !in HashesOf(entries[..k]) <==>
      forall i :: 0 <= i < k ==> entries[i].path != entries[k].path && entries[i].sha != entries[k].sha
  {
    assert forall i :: 0 <= i < k ==> entries[..k][i] == entries[i];
    assert forall i :: 0 <= i < k ==>
      entries[i].path in PathsOf(entries[..k]) && entries[i].sha in HashesOf(entries[..k]);
  }

  lemma EntryStep(lib: Library, tree: Tree, entries: seq<Entry>, k: nat)
    requires k < |entries| && SoundUpTo(lib, tree, entries, k) && tree.links.Keys == {}
    ensures EntryFault(lib, tree, PathsOf(entries), entries[k], PathsOf(entries[..k]), HashesOf(entries[..k])).None?
      <==> SoundUpTo(lib, tree, entries, k + 1)
  {
    NoFaultIff(lib, tree, PathsOf(entries), entries[k], PathsOf(entries[..k]), HashesOf(entries[..k]));
    SoundOneMore(lib, tree, entries, k);
    NewIff(entries, k);
  }

  function HashesOf(entries: seq<Entry>): set<string> {
    set i | 0 <= i < |entries| :: entries[i].sha
  }

  lemma OneMoreEntry(entries: seq<Entry>, k: nat)
    requires k < |entries|
    ensures PathsOf(entries[..k + 1]) == PathsOf(entries[..k]) + {entries[k].path}
    ensures HashesOf(entries[..k + 1]) == HashesOf(entries[..k]) + {entries[k].sha}
  {
    assert forall i :: 0 <= i < k ==> entries[..k + 1][i] == entries[..k][i];
    assert entries[..k + 1][k] == entries[k];
    forall x | x in PathsOf(entries[..k])
      ensures x in PathsOf(entries[..k + 1])
    {
      var i :| 0 <= i < k && entries[..k][i].path == x;
      assert entries[..k + 1][i].path == x;
    }
    forall x | x in HashesOf(entries[..k])
      ensures x in HashesOf(entries[..k + 1])
    {
      var i :| 0 <= i < k && entries[..k][i].sha == x;
      assert entries[..k + 1][i].sha == x;
    }
  }

  ghost predicate CheckedUpTo(
    lib: Library, tree: Tree, entries: seq<Entry>, k: nat, seen: set<string>, hashes: set<string>)
    requires k <= |entries|
  {
    && seen == PathsOf(entries[..k]) && hashes == HashesOf(entries[..k])
    && (tree.links.Keys == {} ==> SoundUpTo(lib, tree, entries, k))
  }

  lemma CheckStep(lib: Library, tree: Tree, entries: seq<Entry>, k: nat, seen: set<string>, hashes: set<string>)
    requires k < |entries| && CheckedUpTo(lib, tree, entries, k, seen, hashes)
    ensures var fault := EntryFault(lib, tree, PathsOf(entries), entries[k], seen, hashes);
      && (fault.None? ==> CheckedUpTo(lib, tree, entries, k + 1, seen + {entries[k].path}, hashes + {entries[k].sha}))
      && (fault.Some? && tree.links.Keys == {} ==> !SoundUpTo(lib, tree, entries, |entries|))
  {
    OneMoreEntry(entries, k);
    if tree.links.Keys == {} {
      EntryStep(lib, tree, entries, k);
      if SoundUpTo(lib, tree, entries, |entries|) { assert SoundUpTo(lib, tree, entries, k + 1); }
    }
  }

  /** Every node of the tree, in order. */
  function Listing(tree: Tree): (nodes: seq<string>)
    ensures forall x :: x in nodes <==> x in tree.files || x in tree.links
  {
    Sorted(tree.files.Keys + tree.links.Keys)
  }

  /** The first `k` nodes but for those to skip. */
  function Kept(nodes: seq<string>, skip: string -> bool, k: nat): set<string>
    requires k <= |nodes|
  {
    if k == 0 then {} else Kept(nodes, skip, k - 1) + (if skip(nodes[k - 1]) then {} else {nodes[k - 1]})
  }

  lemma {:induction false} KeptIs(nodes: seq<string>, skip: string -> bool, k: nat)
    requires k <= |nodes|
    ensures forall x :: x in Kept(nodes, skip, k) ==> x in nodes && !skip(x)
    ensures forall i :: 0 <= i < k && !skip(nodes[i]) ==> nodes[i] in Kept(nodes, skip, k)
  {
    if k > 0 { KeptIs(nodes, skip, k - 1); }
  }

  lemma SweptAll(tree: Tree)
    requires tree.links.Keys == {}
    ensures Kept(Listing(tree), IsControlFile, |Listing(tree)|) == Payloads(tree)
  {
    var nodes := Listing(tree);
    KeptIs(nodes, IsControlFile, |nodes|);
    forall x | x in Payloads(tree)
      ensures x in Kept(nodes, IsControlFile, |nodes|)
    {
      assert x in nodes;
    }
  }

  lemma NoLinkSeen(tree: Tree)
    requires forall i :: 0 <= i < |Listing(tree)| ==> Listing(tree)[i] !in tree.links
    ensures tree.links.Keys == {}
  {
    assert forall x :: x in tree.links ==> x in Listing(tree);
  }

  /** The package on disk. */
  class Package {
    var tree: Tree

    constructor (tree: Tree)
      ensures this.tree == tree
    {
      this.tree := tree;
    }
  }

  /** The path is the file, or a symbolic path to it. */
  predicate LeadsTo(tree: Tree, path: string, at: string) {
    path == at || (path !in tree.files && path in tree.links && tree.links[path] == Inside(at))
  }

  /** The entry tells the file the path leads to, no control file, with its size,
      its digest and the given source. */
  predicate Describes(lib: Library, tree: Tree, path: string, derivativeOf: Option<string>, entry: Entry) {
    && entry.path in tree.files && LeadsTo(tree, path, entry.path) && !IsControlFile(entry.path)
    && entry.bytes == |tree.files[entry.path]| && entry.sha == lib.digest(tree.files[entry.path])
    && entry.derivativeOf == derivativeOf
  }

  /** What `add_file` records: links are followed, and neither files outside the
      package nor control files are taken. */
  function Recorded(lib: Library, tree: Tree, path: string, derivativeOf: Option<string>): Result<Entry, Fault> {
    var at := Resolved(tree, path);
    if at.None? then Err(NotInside)
    else if IsControlFile(at.value) then Err(ControlFile)
    else
      var content := tree.files[at.value];
      Ok(Entry(at.value, |content|, lib.digest(content), derivativeOf))
  }

  /** That record is the only entry that describes the path. */
  lemma RecordedIsTheDescription(lib: Library, tree: Tree, path: string, derivativeOf: Option<string>, entry: Entry)
    ensures Recorded(lib, tree, path, derivativeOf) == Ok(entry) <==> Describes(lib, tree, path, derivativeOf, entry)
  {
  }

  /** There is none exactly if the path leads to no file but a control file. */
  lemma UnrecordedIff(lib: Library, tree: Tree, path: string, derivativeOf: Option<string>)
    ensures Recorded(lib, tree, path, derivativeOf).Err? <==>
      forall at :: at in tree.files && LeadsTo(tree, path, at) ==> IsControlFile(at)
  {
    var at := Resolved(tree, path);
    if at.Some? { assert LeadsTo(tree, path, at.value); }
  }

  /** The files the manifest is to list, in order. */
  function Candidates(tree: Tree): seq<string> {
    Sorted(set path | path in tree.files.Keys + tree.links.Keys && IsFile(tree, path) && !IsControlFile(path))
  }

  /** Each is a file, or a symbolic path to one inside the package or outside it; but
      not a control file. */
  lemma CandidatesAre(tree: Tree)
    ensures forall path :: path in Candidates(tree) <==>
      && !IsControlFile(path)
      && (path in tree.files || (path in tree.links && match tree.links[path]
                                 case Inside(at) => at in tree.files
                                 case Outside => true
                                 case Nowhere => false))
  {
  }

  /** The entries for the given candidates, or the first failure. */
  function Built(lib: Library, tree: Tree, available: set<string>, paths: seq<string>): Result<seq<Entry>, Fault> {
    if paths == [] then Ok([])
    else
      var n := |paths| - 1;
      var earlier := Built(lib, tree, available, paths[..n]);
      if earlier.Err? then earlier
      else
        var last := Recorded(lib, tree, paths[n], ResolveDerivative(lib.fold, paths[n], available));
        if last.Err? then Err(last.error) else Ok(earlier.value + [last.value])
  }

  function Names(paths: seq<string>): set<string> {
    set i | 0 <= i < |paths| :: paths[i]
  }

  /** The manifest of a tree. */
  function Manifest(lib: Library, tree: Tree): Result<seq<Entry>, Fault> {
    Built(lib, tree, Names(Candidates(tree)), Candidates(tree))
  }

  /** The QA folder: the legacy one only if it is there and the other is not. */
  function QaFolder(tree: Tree): string {
    if QA !in tree.folders && LEGACY_QA in tree.folders then LEGACY_QA else QA
  }

  const MANIFEST_NAME := "package-manifest.json"
  const CHECKSUMS_NAME := "checksums.sha256"

  function ControlPath(tree: Tree, name: string): string {
    QaFolder(tree) + ['/'] + name
  }

  function WithControlFile(tree: Tree, name: string, content: Content): Tree {
    tree.(files := tree.files[ControlPath(tree, name) := content], folders := tree.folders + {QaFolder(tree)})
  }

  /** The file is in the QA folder, the legacy one only where there is no other; every
      other file is as before. */
  ghost predicate IsWritten(before: Tree, after: Tree, name: string, content: Content) {
    var legacy := "06_QA_and_Manifest" in before.folders && "06_QA" !in before.folders;
    var folder := if legacy then "06_QA_and_Manifest" else "06_QA";
    var path := folder + ['/'] + name;
    && path in after.files && after.files[path] == content
    && (forall x :: x != path ==> (x in after.files <==> x in before.files))
    && (forall x :: x != path && x in before.files ==> after.files[x] == before.files[x])
    && after.links == before.links && after.folders == before.folders + {folder}
  }

  lemma ControlFileIsWritten(tree: Tree, name: string, content: Content)
    ensures IsWritten(tree, WithControlFile(tree, name, content), name, content)
  {
  }

  /** One line a file: its digest and its path. */
  function ChecksumLines(lib: Library, tree: Tree, paths: seq<string>): (text: string)
    requires forall i :: 0 <= i < |paths| ==> paths[i] in tree.files
  {
    if paths == [] then ""
    else
      var n := |paths| - 1;
      ChecksumLines(lib, tree, paths[..n]) + lib.digest(tree.files[paths[n]]) + "  " + paths[n] + "\n"
  }

  class PackageManifest {
    var entries: seq<Entry>

    constructor ()
      ensures entries == []
    {
      entries := [];
    }

    /** Appends the record of the file a path leads to.  Nothing is recorded of a
        path that leads to no file of the package, or to a control file. */
    method AddFile(
      lib: Library, root: Package, path: string, derivativeOf: Option<string>)
      returns (fault: Option<Fault>)
      requires root != this as object
      modifies this
      ensures fault in {None, Some(NotInside), Some(ControlFile)}
      ensures fault == Some(NotInside) <==> forall at :: at in root.tree.files ==> !LeadsTo(root.tree, path, at)
      ensures fault == Some(ControlFile) <==>
        exists at :: at in root.tree.files && LeadsTo(root.tree, path, at) && IsControlFile(at)
      ensures fault.Some? ==> entries == old(entries)
      ensures fault.None? ==>
        && |entries| == |old(entries)| + 1 && entries[..|old(entries)|] == old(entries)
        && Describes(lib, root.tree, path, derivativeOf, entries[|old(entries)|])
    {
      var tree := root.tree;
      var resolved := path;
      if path !in tree.files && path in tree.links && tree.links[path].Inside? {
        resolved := tree.links[path].path;
      }
      if resolved !in tree.files {
        return Some(NotInside);
      }
      assert LeadsTo(tree, path, resolved);
      if IsControlFile(resolved) {
        return Some(ControlFile);
      }
      var size, sha := |tree.files[resolved]|, lib.digest(tree.files[resolved]);
      entries := entries + [Entry(resolved, size, sha, derivativeOf)];
      fault := None;
    }

    /** `AddFile` in terms of the record. */
    method AddRecord(lib: Library, root: Package, path: string, derivativeOf: Option<string>)
      returns (fault: Option<Fault>)
      requires root != this as object
      modifies this
      ensures var recorded := Recorded(lib, root.tree, path, derivativeOf);
        && (fault.None? <==> recorded.Ok?)
        && (recorded.Ok? ==> entries == old(entries) + [recorded.value])
    {
      ghost var earlier := entries;
      fault := AddFile(lib, root, path, derivativeOf);
      if fault.None? {
        RecordedIsTheDescription(lib, root.tree, path, derivativeOf, entries[|earlier|]);
        assert entries == earlier + [entries[|earlier|]];
      } else {
        UnrecordedIff(lib, root.tree, path, derivativeOf);
      }
    }

    method CheckEntries(lib: Library, tree: Tree) returns (fault: Option<Fault>, seen: set<string>)
      ensures fault.None? ==> seen == PathsOf(entries)
      ensures tree.links.Keys == {} ==> (fault.None? <==> SoundUpTo(lib, tree, entries, |entries|))
    {
      seen := {};
      var hashes: set<string> := {};
      for k := 0 to |entries|
        invariant CheckedUpTo(lib, tree, entries, k, seen, hashes)
      {
        fault := EntryFault(lib, tree, PathsOf(entries), entries[k], seen, hashes);
        CheckStep(lib, tree, entries, k, seen, hashes);
        if fault.Some? {
          return;
        }
        seen, hashes := seen + {entries[k].path}, hashes + {entries[k].sha};
      }
      assert entries[..|entries|] == entries;
      fault := None;
    }

    /** The sweep of the tree: symbolic paths are refused, payloads gathered. */
    method Sweep(tree: Tree) returns (actual: Option<set<string>>)
      ensures actual == if tree.links.Keys == {} then Some(Payloads(tree)) else None
    {
      actual := Gather(Listing(tree), tree.links.Keys, IsControlFile);
      if actual.Some? {
        NoLinkSeen(tree);
        SweptAll(tree);
      }
    }

    static method Gather(
      nodes: seq<string>, links: set<string>, skip: string -> bool)
      returns (found: Option<set<string>>)
      ensures found.Some? <==> forall i :: 0 <= i < |nodes| ==> nodes[i] !in links
      ensures found.Some? ==> found.value == Kept(nodes, skip, |nodes|)
    {
      var kept: set<string> := {};
      for k := 0 to |nodes|
        invariant kept == Kept(nodes, skip, k)
        invariant forall i :: 0 <= i < k ==> nodes[i] !in links
      {
        if nodes[k] in links {
          return None;
        }
        if !skip(nodes[k]) { kept := kept + {nodes[k]}; }
      }
      found := Some(kept);
    }

    /** Accepts exactly the sound manifests. */
    method AssertIntegrity(lib: Library, root: Package) returns (fault: Option<Fault>)
      ensures fault.None? <==> IsSound(lib, root.tree, entries)
    {
      var seen;
      fault, seen := CheckEntries(lib, root.tree);
      if fault.Some? {
        return;
      }
      var actual := Sweep(root.tree);
      if actual.None? {
        fault := Some(SymbolicPath);
      } else if actual.value != seen {
        fault := Some(Coverage);
      }
    }

    /** Adds the manifest file, if the manifest is sound; it then still is. */
    method Write(lib: Library, root: Package) returns (result: Result<string, Fault>)
      modifies root
      ensures result.Ok? <==> IsSound(lib, old(root.tree), entries)
      ensures result.Ok? ==>
        && root.tree == WithControlFile(old(root.tree), MANIFEST_NAME, lib.json(entries))
        && result.value == ControlPath(old(root.tree), MANIFEST_NAME) && IsSound(lib, root.tree, entries)
        && IsWritten(old(root.tree), root.tree, "package-manifest.json", lib.json(entries))
      ensures result.Err? ==> root.tree == old(root.tree)
    {
      var fault := AssertIntegrity(lib, root);
      if fault.Some? {
        return Err(fault.value);
      }
      ControlFilesDoNotDisturb(lib, root.tree, entries, MANIFEST_NAME, lib.json(entries));
      ControlFileIsWritten(root.tree, MANIFEST_NAME, lib.json(entries));
      result := Ok(ControlPath(root.tree, MANIFEST_NAME));
      root.tree := WithControlFile(root.tree, MANIFEST_NAME, lib.json(entries));
    }

    /** Adds the checksum file over the payloads and the manifest file, in path
        order; the manifest stays sound. */
    method WriteChecksums(lib: Library, root: Package, manifestPath: string)
      requires IsSound(lib, root.tree, entries) && manifestPath in root.tree.files
      modifies root
      ensures forall x :: x in Sorted(Payloads(old(root.tree)) + {manifestPath}) ==> x in old(root.tree).files
      ensures root.tree == WithControlFile(old(root.tree), CHECKSUMS_NAME,
        lib.encode(ChecksumLines(lib, old(root.tree), Sorted(Payloads(old(root.tree)) + {manifestPath}))))
      ensures IsSound(lib, root.tree, entries)
      ensures exists content :: IsWritten(old(root.tree), root.tree, "checksums.sha256", content)
    {
      var paths := Sorted(PathsOf(entries) + {manifestPath});
      assert forall i :: 0 <= i < |paths| ==> paths[i] in paths;
      var text := ChecksumText(lib, root.tree, paths);
      ControlFilesDoNotDisturb(lib, root.tree, entries, CHECKSUMS_NAME, lib.encode(text));
      ControlFileIsWritten(root.tree, CHECKSUMS_NAME, lib.encode(text));
      root.tree := WithControlFile(root.tree, CHECKSUMS_NAME, lib.encode(text));
    }
  }

  method ChecksumText(lib: Library, tree: Tree, paths: seq<string>) returns (text: string)
    requires forall i :: 0 <= i < |paths| ==> paths[i] in tree.files
    ensures text == ChecksumLines(lib, tree, paths)
  {
    text := "";
    for k := 0 to |paths|
      invariant text == ChecksumLines(lib, tree, paths[..k])
    {
      assert paths[..k + 1][..k] == paths[..k];
      text := text + lib.digest(tree.files[paths[k]]) + "  " + paths[k] + "\n";
    }
    assert paths[..|paths|] == paths;
  }

  /** `_build_manifest`: every candidate is added in order, with the source it
      was made from. */
  method BuildManifest(lib: Library, root: Package) returns (manifest: PackageManifest, fault: Option<Fault>)
    ensures fresh(manifest)
    ensures fault.None? <==> Manifest(lib, root.tree).Ok?
    ensures fault.None? ==> Manifest(lib, root.tree) == Ok(manifest.entries)
    ensures fault.None? ==> RecordsEverything(lib, root.tree, manifest.entries)
  {
    manifest := new PackageManifest();
    var paths := Candidates(root.tree);
    var available := Names(paths);
    for k := 0 to |paths|
      invariant Built(lib, root.tree, available, paths[..k]) == Ok(manifest.entries)
    {
      BuiltOneMore(lib, root.tree, available, paths, k);
      fault := manifest.AddRecord(lib, root, paths[k], ResolveDerivative(lib.fold, paths[k], available));
      if fault.Some? {
        BuiltStaysErr(lib, root.tree, available, paths, k + 1);
        return;
      }
    }
    assert paths[..|paths|] == paths;
    fault := None;
    ManifestRecordsEverything(lib, root.tree, manifest.entries);
  }

  // ----------------------------------------------------- nothing is left out

  /** The entry is that of the file: its path, size and digest. */
  ghost predicate Records(lib: Library, tree: Tree, entry: Entry, path: string)
    requires path in tree.files
  {
    entry.path == path && entry.bytes == |tree.files[path]| && entry.sha == lib.digest(tree.files[path])
  }

  /** Every file has an entry but for those named as the manifest and the checksum
      file are; and every entry is that of a file. */
  ghost predicate RecordsEverything(lib: Library, tree: Tree, entries: seq<Entry>) {
    && (forall path :: path in tree.files && NameOf(path) !in {"package-manifest.json", "checksums.sha256"} ==>
          exists i :: 0 <= i < |entries| && Records(lib, tree, entries[i], path))
    && (forall i :: 0 <= i < |entries| ==>
          entries[i].path in tree.files && Records(lib, tree, entries[i], entries[i].path))
  }

  /** Each candidate is described by its entry. */
  lemma {:induction false} BuiltDescribes(
    lib: Library, tree: Tree, available: set<string>, paths: seq<string>, entries: seq<Entry>)
    requires Built(lib, tree, available, paths) == Ok(entries)
    ensures |entries| == |paths|
    ensures forall i :: 0 <= i < |paths| ==>
      Describes(lib, tree, paths[i], ResolveDerivative(lib.fold, paths[i], available), entries[i])
  {
    if paths != [] {
      var n := |paths| - 1;
      BuiltDescribes(lib, tree, available, paths[..n], Built(lib, tree, available, paths[..n]).value);
      RecordedIsTheDescription(lib, tree, paths[n], ResolveDerivative(lib.fold, paths[n], available), entries[n]);
    }
  }

  lemma PayloadIsACandidate(tree: Tree, path: string) returns (i: nat)
    requires path in tree.files && NameOf(path) !in {"package-manifest.json", "checksums.sha256"}
    ensures i < |Candidates(tree)| && Candidates(tree)[i] == path
  {
    OtherNamesAreNoControlFiles(path);
    assert path in Candidates(tree);
    i :| 0 <= i < |Candidates(tree)| && Candidates(tree)[i] == path;
  }

  lemma ManifestRecordsEverything(lib: Library, tree: Tree, entries: seq<Entry>)
    requires Manifest(lib, tree) == Ok(entries)
    ensures RecordsEverything(lib, tree, entries)
  {
    var paths := Candidates(tree);
    BuiltDescribes(lib, tree, Names(paths), paths, entries);
    forall path | path in tree.files && NameOf(path) !in {"package-manifest.json", "checksums.sha256"}
      ensures exists i :: 0 <= i < |entries| && Records(lib, tree, entries[i], path)
    {
      var i := PayloadIsACandidate(tree, path);
      assert Records(lib, tree, entries[i], path);
    }
  }

  lemma EntriesAreNoControlFiles(lib: Library, tree: Tree, entries: seq<Entry>, path: string)
    requires IsSound(lib, tree, entries) && IsControlFile(path)
    ensures forall i :: 0 <= i < |entries| ==> entries[i].path in tree.files && entries[i].path != path
  {
    forall i | 0 <= i < |entries|
      ensures entries[i].path in tree.files && entries[i].path != path
    {
      assert entries[i].path in PathsOf(entries);
    }
  }

  /** Adding a control file adds nothing to record. */
  lemma ControlFilesNeedNoEntry(lib: Library, tree: Tree, entries: seq<Entry>, name: string, content: Content)
    requires name in CONTROL_BASENAMES && RecordsEverything(lib, tree, entries) && IsSound(lib, tree, entries)
    ensures RecordsEverything(lib, WithControlFile(tree, name, content), entries)
  {
    var after := WithControlFile(tree, name, content);
    QaFolders();
    ControlNameHasNoSlash(name);
    InQaFolderIsControl(QaFolder(tree), name);
    NameBelow(QaFolder(tree), name);
    EntriesAreNoControlFiles(lib, tree, entries, ControlPath(tree, name));
    forall path | path in after.files && NameOf(path) !in {"package-manifest.json", "checksums.sha256"}
      ensures exists i :: 0 <= i < |entries| && Records(lib, after, entries[i], path)
    {
      var i :| 0 <= i < |entries| && Records(lib, tree, entries[i], path);
      assert Records(lib, after, entries[i], path);
    }
  }

  lemma {:induction false} BuiltOneMore(lib: Library, tree: Tree, available: set<string>, paths: seq<string>, k: nat)
    requires k < |paths| && Built(lib, tree, available, paths[..k]).Ok?
    ensures var last := Recorded(lib, tree, paths[k], ResolveDerivative(lib.fold, paths[k], available));
      Built(lib, tree, available, paths[..k + 1]) ==
        if last.Err? then Err(last.error) else Ok(Built(lib, tree, available, paths[..k]).value + [last.value])
  {
    assert paths[..k + 1][..k] == paths[..k];
  }

  lemma {:induction false} BuiltStaysErr(lib: Library, tree: Tree, available: set<string>, paths: seq<string>, k: nat)
    requires k <= |paths| && Built(lib, tree, available, paths[..k]).Err?
    ensures Built(lib, tree, available, paths).Err?
    decreases |paths| - k
  {
    if k < |paths| {
      assert paths[..k + 1][..k] == paths[..k];
      BuiltStaysErr(lib, tree, available, paths, k + 1);
    } else {
      assert paths[..k] == paths;
    }
  }

  /** A package without symbolic paths, whole: built, checked, written and
      checksummed, it passes its own check exactly when no two payloads have the
      same digest. */
  method SealPackage(lib: Library, root: Package) returns (manifest: PackageManifest, fault: Option<Fault>)
    requires LawfulFold(lib.fold) && root.tree.links.Keys == {}
    modifies root
    ensures fault.None? <==> DigestsDiffer(lib, old(root.tree))
    ensures fault.None? ==>
      IsSound(lib, root.tree, manifest.entries) && Payloads(root.tree) == Payloads(old(root.tree))
    ensures fault.None? ==> RecordsEverything(lib, root.tree, manifest.entries)
  {
    manifest, fault := BuildManifest(lib, root);
    ManifestIsBuilt(lib, root.tree);
    FreshManifestIsSoundIff(lib, root.tree, manifest.entries);
    ghost var was := root.tree;
    var written := manifest.Write(lib, root);
    if written.Err? {
      return manifest, Some(written.error);
    }
    ControlFilesNeedNoEntry(lib, was, manifest.entries, MANIFEST_NAME, lib.json(manifest.entries));
    ghost var withManifest := root.tree;
    manifest.WriteChecksums(lib, root, written.value);
    ghost var lines := ChecksumLines(lib, withManifest, Sorted(Payloads(withManifest) + {written.value}));
    ControlFilesNeedNoEntry(lib, withManifest, manifest.entries, CHECKSUMS_NAME, lib.encode(lines));
    fault := None;
  }

  /** Writing a control file leaves a sound manifest sound, whatever it holds. */
  lemma ControlFilesDoNotDisturb(lib: Library, tree: Tree, entries: seq<Entry>, name: string, content: Content)
    requires name in CONTROL_BASENAMES && IsSound(lib, tree, entries)
    ensures IsSound(lib, WithControlFile(tree, name, content), entries)
  {
    var after := WithControlFile(tree, name, content);
    QaFolders();
    InQaFolderIsControl(QaFolder(tree), name);
    assert Payloads(after) == Payloads(tree);
    forall i | 0 <= i < |entries|
      ensures IsRecorded(lib, after, entries[i])
    {
      assert entries[i].path in PathsOf(entries);
    }
  }

  // ----------------------------------------------------------- a fresh manifest

  lemma ListedPaths(tree: Tree)
    requires tree.links.Keys == {}
    ensures Candidates(tree) == Sorted(Payloads(tree)) && Names(Candidates(tree)) == Payloads(tree)
  {
    var nodes := tree.files.Keys + tree.links.Keys;
    assert (set path | path in nodes && IsFile(tree, path) && !IsControlFile(path)) == Payloads(tree);
    var paths := Candidates(tree);
    forall x | x in Payloads(tree)
      ensures x in Names(paths)
    {
      var i :| 0 <= i < |paths| && paths[i] == x;
    }
  }

  /** The entry of a payload. */
  function EntryOf(lib: Library, tree: Tree, available: set<string>, path: string): Entry
    requires path in tree.files
  {
    Entry(path, |tree.files[path]|, lib.digest(tree.files[path]), ResolveDerivative(lib.fold, path, available))
  }

  /** The entries list the paths, in order. */
  ghost predicate Lists(lib: Library, tree: Tree, available: set<string>, entries: seq<Entry>, paths: seq<string>) {
    && |entries| == |paths|
    && forall i :: 0 <= i < |paths| ==> paths[i] in tree.files && entries[i] == EntryOf(lib, tree, available, paths[i])
  }

  lemma PayloadIsRecorded(lib: Library, tree: Tree, available: set<string>, path: string)
    requires path in Payloads(tree)
    ensures path in tree.files
    ensures Recorded(lib, tree, path, ResolveDerivative(lib.fold, path, available)) ==
      Ok(EntryOf(lib, tree, available, path))
  {
  }

  lemma ListsOneMore(
    lib: Library, tree: Tree, available: set<string>, entries: seq<Entry>, paths: seq<string>, more: seq<Entry>)
    requires paths != [] && Lists(lib, tree, available, entries, paths[..|paths| - 1])
    requires paths[|paths| - 1] in tree.files && more == entries + [EntryOf(lib, tree, available, paths[|paths| - 1])]
    ensures Lists(lib, tree, available, more, paths)
  {
  }

  /** Without symbolic paths every payload gets its entry, in order. */
  lemma {:induction false} BuiltEntries(lib: Library, tree: Tree, available: set<string>, paths: seq<string>)
    requires forall i :: 0 <= i < |paths| ==> paths[i] in Payloads(tree)
    ensures var built := Built(lib, tree, available, paths);
      built.Ok? && Lists(lib, tree, available, built.value, paths)
  {
    if paths != [] {
      var n := |paths| - 1;
      BuiltEntries(lib, tree, available, paths[..n]);
      PayloadIsRecorded(lib, tree, available, paths[n]);
      ListsOneMore(lib, tree, available, Built(lib, tree, available, paths[..n]).value, paths,
                   Built(lib, tree, available, paths).value);
    }
  }

  ghost predicate DigestsDiffer(lib: Library, tree: Tree) {
    forall p, q :: p in Payloads(tree) && q in Payloads(tree) && p != q ==>
      lib.digest(tree.files[p]) != lib.digest(tree.files[q])
  }

  lemma BuiltDerivations(lib: Library, tree: Tree, path: string)
    requires LawfulFold(lib.fold) && path in Payloads(tree)
    ensures IsDerivation(lib.fold, Payloads(tree), EntryOf(lib, tree, Payloads(tree), path))
  {
    if ResolveDerivative(lib.fold, path, Payloads(tree)).Some? {
      SourceIsOriginal(lib.fold, path, Payloads(tree), Payloads(tree));
    }
  }

  lemma ListedNames(lib: Library, tree: Tree, available: set<string>, entries: seq<Entry>, paths: seq<string>)
    requires Lists(lib, tree, available, entries, paths)
    ensures PathsOf(entries) == Names(paths)
  {
    assert forall i :: 0 <= i < |paths| ==> entries[i].path == paths[i];
  }

  /** What the manifest of a tree without symbolic paths lists. */
  lemma ManifestEntries(lib: Library, tree: Tree, entries: seq<Entry>)
    requires tree.links.Keys == {} && Manifest(lib, tree) == Ok(entries)
    ensures Lists(lib, tree, Payloads(tree), entries, Sorted(Payloads(tree))) && PathsOf(entries) == Payloads(tree)
  {
    ListedPaths(tree);
    var paths := Candidates(tree);
    assert forall i :: 0 <= i < |paths| ==> paths[i] in paths;
    BuiltEntries(lib, tree, Payloads(tree), paths);
    ListedNames(lib, tree, Payloads(tree), entries, paths);
  }

  /** There is one. */
  lemma ManifestIsBuilt(lib: Library, tree: Tree)
    requires tree.links.Keys == {}
    ensures Manifest(lib, tree).Ok?
  {
    ListedPaths(tree);
    var paths := Candidates(tree);
    assert forall i :: 0 <= i < |paths| ==> paths[i] in paths;
    BuiltEntries(lib, tree, Payloads(tree), paths);
  }

  ghost predicate ShasDiffer(entries: seq<Entry>) {
    forall i, j :: 0 <= i < j < |entries| ==> entries[i].sha != entries[j].sha
  }

  /** Listing distinct paths is sound but for equal digests. */
  lemma ListedIsSoundIff(lib: Library, tree: Tree, entries: seq<Entry>, paths: seq<string>)
    requires LawfulFold(lib.fold) && tree.links.Keys == {} && Distinct(paths)
    requires Lists(lib, tree, Payloads(tree), entries, paths) && PathsOf(entries) == Payloads(tree)
    ensures IsSound(lib, tree, entries) <==> ShasDiffer(entries)
  {
    forall i | 0 <= i < |entries|
      ensures IsDerivation(lib.fold, PathsOf(entries), entries[i])
    {
      assert entries[i].path in PathsOf(entries);
      BuiltDerivations(lib, tree, paths[i]);
    }
  }

  /** Where a payload is listed. */
  lemma ListedAt(tree: Tree, paths: seq<string>, path: string) returns (i: nat)
    requires Names(paths) == Payloads(tree) && path in Payloads(tree)
    ensures i < |paths| && paths[i] == path
  {
    i :| 0 <= i < |paths| && paths[i] == path;
  }

  lemma PayloadAt(tree: Tree, paths: seq<string>, i: nat)
    requires Names(paths) == Payloads(tree) && i < |paths|
    ensures paths[i] in Payloads(tree)
  {
    assert paths[i] in Names(paths);
  }

  lemma DigestsDifferIff(lib: Library, tree: Tree, available: set<string>, entries: seq<Entry>, paths: seq<string>)
    requires Distinct(paths) && Lists(lib, tree, available, entries, paths) && Names(paths) == Payloads(tree)
    ensures DigestsDiffer(lib, tree) <==> ShasDiffer(entries)
  {
    if DigestsDiffer(lib, tree) {
      forall i, j | 0 <= i < j < |entries|
        ensures entries[i].sha != entries[j].sha
      {
        PayloadAt(tree, paths, i);
        PayloadAt(tree, paths, j);
      }
    }
    if ShasDiffer(entries) {
      forall p, q | p in Payloads(tree) && q in Payloads(tree) && p != q
        ensures lib.digest(tree.files[p]) != lib.digest(tree.files[q])
      {
        var i := ListedAt(tree, paths, p);
        var j := ListedAt(tree, paths, q);
        assert entries[i].sha != entries[j].sha;
      }
    }
  }

  /** A freshly built manifest is sound exactly when no two payloads have the same
      digest. */
  lemma FreshManifestIsSoundIff(lib: Library, tree: Tree, entries: seq<Entry>)
    requires LawfulFold(lib.fold) && tree.links.Keys == {} && Manifest(lib, tree) == Ok(entries)
    ensures IsSound(lib, tree, entries) <==> DigestsDiffer(lib, tree)
  {
    ManifestEntries(lib, tree, entries);
    var paths := Sorted(Payloads(tree));
    AscendingIsDistinct(paths);
    ListedIsSoundIff(lib, tree, entries, paths);
    ListedNames(lib, tree, Payloads(tree), entries, paths);
    DigestsDifferIff(lib, tree, Payloads(tree), entries, paths);
  }

  /** Nothing symbolic is ever accepted. */
  lemma SymbolicPathsAreRefused(lib: Library, tree: Tree, entries: seq<Entry>, path: string)
    requires path in tree.links
    ensures !IsSound(lib, tree, entries)
  {
  }

  /** Derivation has depth one: the source of an entry has no source itself. */
  lemma SourcesAreOriginals(lib: Library, tree: Tree, entries: seq<Entry>, i: nat, j: nat)
    requires LawfulFold(lib.fold) && tree.links.Keys == {} && Manifest(lib, tree) == Ok(entries)
    requires i < |entries| && j < |entries| && entries[i].derivativeOf == Some(entries[j].path)
    ensures entries[j].derivativeOf == None
  {
    ManifestEntries(lib, tree, entries);
    SourceIsOriginal(lib.fold, entries[i].path, Payloads(tree), Payloads(tree));
  }

  /** A manifest pins its tree: any two trees it is sound for have the same
      payload paths, and the same digest at each. */
  lemma SoundManifestPinsTheTree(lib: Library, a: Tree, b: Tree, entries: seq<Entry>, path: string)
    requires IsSound(lib, a, entries) && IsSound(lib, b, entries)
    ensures path in Payloads(a) <==> path in Payloads(b)
    ensures path in Payloads(a) ==> lib.digest(a.files[path]) == lib.digest(b.files[path])
  {
    assert Payloads(a) == PathsOf(entries) == Payloads(b);
    if path in PathsOf(entries) {
      var i :| 0 <= i < |entries| && entries[i].path == path;
      assert IsRecorded(lib, a, entries[i]) && IsRecorded(lib, b, entries[i]);
    }
  }
}
