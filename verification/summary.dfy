/** The orchestration in `main`: the unfiltered tree pass, then the content
    pass over a top-down walk whose subdirectory list is pruned in place
    before the walk descends, and whose files are each checked on their own
    path. */
module Summary {
  import opened Strings
  import opened FileTree
  import opened Output
  import opened Exclusion
  import opened TreeRender
  import opened ContentDump

  const StructureHeader: string := "=== Repository Structure (tree-like) ===\n"
  const ContentsHeader: string := "\n=== File Contents ===\n\n"

  /** A file the content pass reaches: the path it is labelled with (built
      from the repository path as given), its absolute path, and what reading
      it gives. */
  datatype Visit = Visit(path: string, absPath: string, read: ReadOutcome)

  /** The file `f` found in the directory with paths `path` and `absPath`. */
  function VisitOf(f: Node, path: string, absPath: string): Visit
    requires f.File?
  {
    Visit(Join(path, f.name), Join(absPath, f.name), f.read)
  }

  // ----- One step of `os.walk`: split the listing, prune the subdirectories -----

  /** The `dirs` list `os.walk` yields: the subdirectories, in listing order. */
  function SubDirs(cs: seq<Node>): (r: seq<Node>)
    ensures forall x | x in r :: x in cs && IsDirectory(x)
  {
    if cs == [] then []
    else (if IsDirectory(cs[0]) then [cs[0]] else []) + SubDirs(cs[1..])
  }

  /** The `files` list `os.walk` yields: the other entries, in listing order. */
  function Files(cs: seq<Node>): (r: seq<Node>)
    ensures forall x | x in r :: x in cs && x.File?
  {
    if cs == [] then []
    else (if cs[0].File? then [cs[0]] else []) + Files(cs[1..])
  }

  /** `[d for d in dirs if not should_exclude(os.path.join(root, d), ...)]`:
      the subdirectories whose own path is not excluded, order kept. */
  function Kept(dirs: seq<Node>, absPath: string, patterns: seq<string>): (r: seq<Node>)
    ensures forall x | x in r :: x in dirs
  {
    if dirs == [] then []
    else
      var last := dirs[|dirs| - 1];
      assert dirs == dirs[..|dirs| - 1] + [last];
      Kept(dirs[..|dirs| - 1], absPath, patterns)
        + (if Excluded(Join(absPath, last.name), patterns) then [] else [last])
  }

  /** Every subdirectory of the listing is in `dirs`. */
  lemma {:induction false} SubDirsComplete(cs: seq<Node>, x: Node)
    requires x in cs && IsDirectory(x)
    ensures x in SubDirs(cs)
  {
    if x != cs[0] {
      SubDirsComplete(cs[1..], x);
    }
  }

  /** Every file of the listing is in `files`. */
  lemma {:induction false} FilesComplete(cs: seq<Node>, x: Node)
    requires x in cs && x.File?
    ensures x in Files(cs)
  {
    if x != cs[0] {
      FilesComplete(cs[1..], x);
    }
  }

  /** A subdirectory that survives pruning has a path that is not excluded. */
  lemma {:induction false} KeptSound(dirs: seq<Node>, absPath: string, patterns: seq<string>, x: Node)
    requires x in Kept(dirs, absPath, patterns)
    ensures !Excluded(Join(absPath, x.name), patterns)
    decreases |dirs|
  {
    var init := dirs[..|dirs| - 1];
    if x in Kept(init, absPath, patterns) {
      KeptSound(init, absPath, patterns, x);
    }
  }

  /** Every subdirectory whose own path is not excluded survives pruning. */
  lemma {:induction false} KeptComplete(dirs: seq<Node>, absPath: string, patterns: seq<string>, x: Node)
    requires x in dirs && !Excluded(Join(absPath, x.name), patterns)
    ensures x in Kept(dirs, absPath, patterns)
    decreases |dirs|
  {
    var init := dirs[..|dirs| - 1];
    if x != dirs[|dirs| - 1] {
      var i :| 0 <= i < |dirs| && dirs[i] == x;
      assert init[i] == x;
      KeptComplete(init, absPath, patterns, x);
    }
  }

  /** `dirs[:] = [...]`: the list that replaces the walk's subdirectories. */
  method PruneDirs(dirs: seq<Node>, absPath: string, patterns: seq<string>) returns (kept: seq<Node>)
    ensures kept == Kept(dirs, absPath, patterns)
  {
    kept := [];
    for i := 0 to |dirs|
      invariant kept == Kept(dirs[..i], absPath, patterns)
    {
      assert dirs[..i + 1][..i] == dirs[..i];
      var excluded := ShouldExclude(Join(absPath, dirs[i].name), patterns);
      if !excluded {
        kept := kept + [dirs[i]];
      }
    }
    assert dirs[..|dirs|] == dirs;
  }

  // ----- What the content pass dumps -----

  /** The files of one directory that pass their own exclusion check. */
  function FileVisits(files: seq<Node>, path: string, absPath: string, patterns: seq<string>): seq<Visit>
    requires forall f | f in files :: f.File?
  {
    if files == [] then []
    else
      var last := files[|files| - 1];
      var v := VisitOf(last, path, absPath);
      FileVisits(files[..|files| - 1], path, absPath, patterns)
        + (if Excluded(v.absPath, patterns) then [] else [v])
  }

  /** The files the walk dumps below `d`, in the order it dumps them: the
      directory's own files, then each kept subdirectory in turn. */
  function WalkVisits(d: Node, path: string, absPath: string, patterns: seq<string>): seq<Visit>
    decreases d, 1, 0
  {
    if !d.Dir? then []
    else
      var kept := Kept(SubDirs(d.children), absPath, patterns);
      FileVisits(Files(d.children), path, absPath, patterns)
        + SubWalkVisits(d, kept, path, absPath, patterns)
  }

  function SubWalkVisits(parent: Node, kept: seq<Node>, path: string, absPath: string,
                         patterns: seq<string>): seq<Visit>
    requires parent.Dir? && forall c | c in kept :: c in parent.children
    decreases parent, 0, |kept|
  {
    if kept == [] then []
    else
      var c := kept[|kept| - 1];
      assert c in kept;
      SubWalkVisits(parent, kept[..|kept| - 1], path, absPath, patterns)
        + WalkVisits(c, Join(path, c.name), Join(absPath, c.name), patterns)
  }

  /** The `write` calls of the dumps of `visits`, in order. */
  function DumpChunks(visits: seq<Visit>): seq<string> {
    if visits == [] then []
    else
      var last := visits[|visits| - 1];
      DumpChunks(visits[..|visits| - 1]) + FileDump(last.path, last.read)
  }

  lemma {:induction false} DumpChunksAppend(a: seq<Visit>, b: seq<Visit>)
    ensures DumpChunks(a + b) == DumpChunks(a) + DumpChunks(b)
    decreases |b|
  {
    if b != [] {
      var last := b[|b| - 1];
      var init := b[..|b| - 1];
      assert (a + b)[..|a + b| - 1] == a + init;
      assert (a + b)[|a + b| - 1] == last;
      assert DumpChunks(a + b) == DumpChunks(a + init) + FileDump(last.path, last.read);
      DumpChunksAppend(a, init);
      assert DumpChunks(b) == DumpChunks(init) + FileDump(last.path, last.read);
      AppendAssociative(DumpChunks(a), DumpChunks(init), FileDump(last.path, last.read));
    } else {
      assert a + b == a;
    }
  }

  /** One walk step: the directory's own files, then its kept subdirectories. */
  lemma WalkVisitsUnfold(d: Node, path: string, absPath: string, patterns: seq<string>)
    requires d.Dir?
    ensures WalkVisits(d, path, absPath, patterns)
      == FileVisits(Files(d.children), path, absPath, patterns)
         + SubWalkVisits(d, Kept(SubDirs(d.children), absPath, patterns), path, absPath, patterns)
  {
  }

  lemma DumpChunksExtend(written: seq<string>, a: seq<Visit>, b: seq<Visit>)
    ensures written + DumpChunks(a) + DumpChunks(b) == written + DumpChunks(a + b)
  {
    DumpChunksAppend(a, b);
  }

  /** Every dumped file contributes exactly its five writes. */
  lemma {:induction false} DumpChunksCount(visits: seq<Visit>)
    ensures |DumpChunks(visits)| == 5 * |visits|
    decreases |visits|
  {
    if visits != [] {
      DumpChunksCount(visits[..|visits| - 1]);
    }
  }

  // ----- The walk, imperatively -----

  /** The inner loop of `main` for one directory: each file is dumped
      unless its own path is excluded. */
  method DumpFiles(files: seq<Node>, path: string, absPath: string, patterns: seq<string>, out: Sink)
    requires forall f | f in files :: f.File?
    modifies out
    ensures out.written == old(out.written) + DumpChunks(FileVisits(files, path, absPath, patterns))
  {
    for i := 0 to |files|
      invariant out.written == old(out.written) + DumpChunks(FileVisits(files[..i], path, absPath, patterns))
    {
      assert files[..i + 1][..i] == files[..i];
      ghost var before := FileVisits(files[..i], path, absPath, patterns);
      ghost var v := VisitOf(files[i], path, absPath);
      var filepath := Join(path, files[i].name);
      var excluded := ShouldExclude(Join(absPath, files[i].name), patterns);
      assert FileVisits(files[..i + 1], path, absPath, patterns) == before + (if excluded then [] else [v]);
      if !excluded {
        ghost var prev := out.written;
        PrintFileContents(filepath, files[i].read, out);
        assert out.written == prev + FileDump(v.path, v.read);
        assert (before + [v])[..|before + [v]| - 1] == before;
        assert DumpChunks(before + [v]) == DumpChunks(before) + FileDump(v.path, v.read);
        AppendAssociative(old(out.written), DumpChunks(before), FileDump(v.path, v.read));
        assert out.written == old(out.written) + DumpChunks(before + [v]);
      } else {
        assert FileVisits(files[..i + 1], path, absPath, patterns) == before;
      }
    }
    assert files[..|files|] == files;
  }

  /** The loop of `main` over `os.walk(...)` from `d` on: prune the
      subdirectories, dump each file that is not excluded, then descend into
      what is left of the subdirectories. A directory that cannot be listed
      yields nothing. */
  method Walk(d: Node, path: string, absPath: string, patterns: seq<string>, out: Sink)
    modifies out
    ensures out.written == old(out.written) + DumpChunks(WalkVisits(d, path, absPath, patterns))
    decreases d
  {
    if !d.Dir? {
      return;
    }
    var dirs := SubDirs(d.children);
    var files := Files(d.children);
    dirs := PruneDirs(dirs, absPath, patterns);
    DumpFiles(files, path, absPath, patterns, out);
    ghost var start := out.written;
    for j := 0 to |dirs|
      invariant out.written == start + DumpChunks(SubWalkVisits(d, dirs[..j], path, absPath, patterns))
    {
      var c := dirs[j];
      ghost var before := SubWalkVisits(d, dirs[..j], path, absPath, patterns);
      ghost var sub := WalkVisits(c, Join(path, c.name), Join(absPath, c.name), patterns);
      SubWalkStep(d, dirs, j, path, absPath, patterns);
      Walk(c, Join(path, c.name), Join(absPath, c.name), patterns, out);
      DumpChunksExtend(start, before, sub);
    }
    assert dirs[..|dirs|] == dirs;
    WalkVisitsUnfold(d, path, absPath, patterns);
    DumpChunksExtend(old(out.written), FileVisits(files, path, absPath, patterns),
                     SubWalkVisits(d, dirs, path, absPath, patterns));
  }

  // ----- The whole report -----

  /** Everything `main(repo_path, output_filename)` writes to the report. */
  ghost function Report(root: Node, repoPath: string, absRoot: string, outputFilename: string): seq<string>
    requires IsDirectory(root)
  {
    [StructureHeader] + TreeLines(root, "") + [ContentsHeader]
      + DumpChunks(WalkVisits(root, repoPath, absRoot, ExcludePatterns(outputFilename)))
  }

  /** `main`: `absRoot` is `os.path.abspath(repo_path)`. The tree pass is not
      filtered; only the content pass is. */
  method Summarize(root: Node, repoPath: string, absRoot: string, outputFilename: string)
    returns (out: Sink)
    requires IsDirectory(root) && WellFormed(root)
    ensures fresh(out)
    ensures out.written == Report(root, repoPath, absRoot, outputFilename)
  {
    var excludePatterns := [
      outputFilename,
      ".git", "node_modules", "__pycache__", "build", "dist",
      ".log", ".tmp", ".swp", ".DS_Store"
    ];
    assert excludePatterns == ExcludePatterns(outputFilename);
    out := new Sink();
    out.Write(StructureHeader);
    PrintDirectoryStructure(root, out, "");
    out.Write(ContentsHeader);
    ghost var beforeWalk := out.written;
    assert beforeWalk == [StructureHeader] + TreeLines(root, "") + [ContentsHeader];
    Walk(root, repoPath, absRoot, excludePatterns, out);
  }

  // ----- Which files are dumped -----

  /** Reference: every file reachable from `d` through directories that can
      be listed, with no filtering at all. */
  function Reachable(d: Node, path: string, absPath: string): seq<Visit>
    decreases d, 1
  {
    if d.Dir? then ReachableIn(d.children, path, absPath) else []
  }

  function ReachableIn(cs: seq<Node>, path: string, absPath: string): seq<Visit>
    decreases cs, 0
  {
    if cs == [] then []
    else EntryFiles(cs[0], path, absPath) + ReachableIn(cs[1..], path, absPath)
  }

  function EntryFiles(c: Node, path: string, absPath: string): seq<Visit>
    decreases c, 2
  {
    match c
    case File(_, _) => [VisitOf(c, path, absPath)]
    case Dir(name, _) => Reachable(c, Join(path, name), Join(absPath, name))
    case Unreadable(_) => []
  }

  /** Everything reachable below a directory lies under its absolute path. */
  lemma {:induction false} ReachableUnder(d: Node, path: string, absPath: string, v: Visit)
    requires WellFormed(d)
    requires v in Reachable(d, path, absPath)
    ensures absPath <= v.absPath
    decreases d, 1
  {
    ReachableInUnder(d.children, path, absPath, v);
  }

  lemma {:induction false} ReachableInUnder(cs: seq<Node>, path: string, absPath: string, v: Visit)
    requires forall c | c in cs :: ValidName(c.name) && WellFormed(c)
    requires v in ReachableIn(cs, path, absPath)
    ensures absPath <= v.absPath
    decreases cs, 0
  {
    var c := cs[0];
    if v in EntryFiles(c, path, absPath) {
      var childAbs := Join(absPath, c.name);
      JoinShape(absPath, c.name);
      if c.Dir? {
        ReachableUnder(c, Join(path, c.name), childAbs, v);
      }
    } else {
      ReachableInUnder(cs[1..], path, absPath, v);
    }
  }

  /** A file reachable through a listing is reachable through one of its
      entries. */
  lemma {:induction false} ReachableInSound(cs: seq<Node>, path: string, absPath: string, v: Visit)
    returns (c: Node)
    requires v in ReachableIn(cs, path, absPath)
    ensures c in cs && v in EntryFiles(c, path, absPath)
    decreases |cs|
  {
    if v in EntryFiles(cs[0], path, absPath) {
      c := cs[0];
    } else {
      c := ReachableInSound(cs[1..], path, absPath, v);
    }
  }

  /** A file reachable through an entry is reachable through the listing. */
  lemma {:induction false} ReachableInComplete(cs: seq<Node>, path: string, absPath: string, c: Node, v: Visit)
    requires c in cs && v in EntryFiles(c, path, absPath)
    ensures v in ReachableIn(cs, path, absPath)
    decreases |cs|
  {
    if c != cs[0] {
      ReachableInComplete(cs[1..], path, absPath, c, v);
    }
  }

  /** A file the inner loop dumps is one of the directory's files, and its
      own path is not excluded. */
  lemma {:induction false} FileVisitsSound(files: seq<Node>, path: string, absPath: string,
                                           patterns: seq<string>, v: Visit) returns (f: Node)
    requires forall f | f in files :: f.File?
    requires v in FileVisits(files, path, absPath, patterns)
    ensures f in files && v == VisitOf(f, path, absPath) && !Excluded(v.absPath, patterns)
    decreases |files|
  {
    var init := files[..|files| - 1];
    var last := files[|files| - 1];
    if v in FileVisits(init, path, absPath, patterns) {
      f := FileVisitsSound(init, path, absPath, patterns, v);
    } else {
      f := last;
    }
  }

  /** Every file of the directory whose own path is not excluded is dumped. */
  lemma {:induction false} FileVisitsComplete(files: seq<Node>, path: string, absPath: string,
                                              patterns: seq<string>, f: Node)
    requires forall f | f in files :: f.File?
    requires f in files && !Excluded(VisitOf(f, path, absPath).absPath, patterns)
    ensures VisitOf(f, path, absPath) in FileVisits(files, path, absPath, patterns)
    decreases |files|
  {
    var init := files[..|files| - 1];
    var last := files[|files| - 1];
    if f != last {
      var i :| 0 <= i < |files| && files[i] == f;
      assert init[i] == f;
      FileVisitsComplete(init, path, absPath, patterns, f);
    }
  }

  /** A file dumped below a directory is dumped by the walk of one of its
      kept subdirectories. */
  lemma {:induction false} SubWalkSound(parent: Node, kept: seq<Node>, path: string, absPath: string,
                                        patterns: seq<string>, v: Visit) returns (c: Node)
    requires parent.Dir? && forall c | c in kept :: c in parent.children
    requires v in SubWalkVisits(parent, kept, path, absPath, patterns)
    ensures c in kept && v in WalkVisits(c, Join(path, c.name), Join(absPath, c.name), patterns)
    decreases |kept|
  {
    var init := kept[..|kept| - 1];
    var last := kept[|kept| - 1];
    if v in SubWalkVisits(parent, init, path, absPath, patterns) {
      c := SubWalkSound(parent, init, path, absPath, patterns, v);
    } else {
      c := last;
    }
  }

  /** What the walk of a kept subdirectory dumps is dumped. */
  lemma {:induction false} SubWalkComplete(parent: Node, kept: seq<Node>, path: string, absPath: string,
                                           patterns: seq<string>, c: Node, v: Visit)
    requires parent.Dir? && forall c | c in kept :: c in parent.children
    requires c in kept && v in WalkVisits(c, Join(path, c.name), Join(absPath, c.name), patterns)
    ensures v in SubWalkVisits(parent, kept, path, absPath, patterns)
    decreases |kept|
  {
    var init := kept[..|kept| - 1];
    var last := kept[|kept| - 1];
    if c != last {
      assert c in init by {
        var i :| 0 <= i < |kept| && kept[i] == c;
        assert i != |kept| - 1;
        assert init[i] == c;
      }
      assert forall x | x in init :: x in parent.children;
      SubWalkComplete(parent, init, path, absPath, patterns, c, v);
    }
    SubWalkStep(parent, kept, |kept| - 1, path, absPath, patterns);
    assert kept[..|kept|] == kept;
  }

  /** One more kept subdirectory adds the files its own walk dumps. */
  lemma SubWalkStep(parent: Node, kept: seq<Node>, j: nat, path: string, absPath: string,
                    patterns: seq<string>)
    requires parent.Dir? && forall c | c in kept :: c in parent.children
    requires j < |kept|
    ensures forall c | c in kept[..j] :: c in parent.children
    ensures kept[j] in parent.children
    ensures SubWalkVisits(parent, kept[..j + 1], path, absPath, patterns)
      == SubWalkVisits(parent, kept[..j], path, absPath, patterns)
         + WalkVisits(kept[j], Join(path, kept[j].name), Join(absPath, kept[j].name), patterns)
  {
    assert kept[..j + 1][..j] == kept[..j];
  }

  /** A file is dumped exactly when it is reachable through directories that
      can be listed and its own absolute path is not excluded. Pruning an
      excluded subdirectory therefore never loses a file that would have
      passed its own check: whatever lies below it contains the same
      pattern. */
  lemma {:induction false} WalkVisitsExact(d: Node, path: string, absPath: string,
                                           patterns: seq<string>, v: Visit)
    requires WellFormed(d)
    ensures v in WalkVisits(d, path, absPath, patterns)
      <==> v in Reachable(d, path, absPath) && !Excluded(v.absPath, patterns)
    decreases d
  {
    if d.Dir? {
      if v in WalkVisits(d, path, absPath, patterns) {
        WalkedIsReachable(d, path, absPath, patterns, v);
      }
      if v in Reachable(d, path, absPath) && !Excluded(v.absPath, patterns) {
        ReachableIsWalked(d, path, absPath, patterns, v);
      }
    }
  }

  lemma {:induction false} WalkedIsReachable(d: Node, path: string, absPath: string,
                                             patterns: seq<string>, v: Visit)
    requires WellFormed(d) && d.Dir?
    requires v in WalkVisits(d, path, absPath, patterns)
    ensures v in Reachable(d, path, absPath) && !Excluded(v.absPath, patterns)
    decreases d, 0
  {
    var cs := d.children;
    var files := Files(cs);
    var kept := Kept(SubDirs(cs), absPath, patterns);
    if v in FileVisits(files, path, absPath, patterns) {
      var f := FileVisitsSound(files, path, absPath, patterns, v);
      ReachableInComplete(cs, path, absPath, f, v);
    } else {
      var c := SubWalkSound(d, kept, path, absPath, patterns, v);
      assert c.Dir?;
      WalkVisitsExact(c, Join(path, c.name), Join(absPath, c.name), patterns, v);
      ReachableInComplete(cs, path, absPath, c, v);
    }
  }

  lemma {:induction false} ReachableIsWalked(d: Node, path: string, absPath: string,
                                             patterns: seq<string>, v: Visit)
    requires WellFormed(d) && d.Dir?
    requires v in Reachable(d, path, absPath) && !Excluded(v.absPath, patterns)
    ensures v in WalkVisits(d, path, absPath, patterns)
    decreases d, 0
  {
    var cs := d.children;
    var files := Files(cs);
    var kept := Kept(SubDirs(cs), absPath, patterns);
    var c := ReachableInSound(cs, path, absPath, v);
    if c.File? {
      FilesComplete(cs, c);
      FileVisitsComplete(files, path, absPath, patterns, c);
    } else {
      assert c.Dir?;
      var childAbs := Join(absPath, c.name);
      ReachableUnder(c, Join(path, c.name), childAbs, v);
      if Excluded(childAbs, patterns) {
        ExcludedExtends(childAbs, v.absPath, patterns);
      }
      SubDirsComplete(cs, c);
      KeptComplete(SubDirs(cs), absPath, patterns, c);
      WalkVisitsExact(c, Join(path, c.name), childAbs, patterns, v);
      SubWalkComplete(d, kept, path, absPath, patterns, c, v);
    }
  }

  /** No dumped file lies at or below an excluded path: neither its own
      absolute path nor any leading part of it, such as the path of a
      directory that contains it, holds a pattern. */
  lemma NothingDumpedUnderExcludedPath(d: Node, path: string, absPath: string,
                                       patterns: seq<string>, v: Visit, k: nat)
    requires WellFormed(d)
    requires v in WalkVisits(d, path, absPath, patterns)
    requires k <= |v.absPath|
    ensures !Excluded(v.absPath[..k], patterns)
  {
    WalkVisitsExact(d, path, absPath, patterns, v);
    if Excluded(v.absPath[..k], patterns) {
      ExcludedExtends(v.absPath[..k], v.absPath, patterns);
    }
  }

  /** A subdirectory whose own path is excluded contributes nothing. */
  lemma ExcludedSubdirectoryPruned(d: Node, path: string, absPath: string,
                                   patterns: seq<string>, c: Node, v: Visit)
    requires WellFormed(d) && d.Dir? && c in d.children && c.Dir?
    requires Excluded(Join(absPath, c.name), patterns)
    requires v in Reachable(c, Join(path, c.name), Join(absPath, c.name))
    ensures v !in WalkVisits(d, path, absPath, patterns)
  {
    ReachableUnder(c, Join(path, c.name), Join(absPath, c.name), v);
    ExcludedExtends(Join(absPath, c.name), v.absPath, patterns);
    WalkVisitsExact(d, path, absPath, patterns, v);
  }

  /** No file whose absolute path contains the output-filename string is
      dumped. This is a property of strings, not of files: see
      `RelativeOutputNameDumped`. */
  lemma OutputFileNeverDumped(root: Node, repoPath: string, absRoot: string,
                              outputFilename: string, v: Visit)
    requires WellFormed(root)
    requires v in WalkVisits(root, repoPath, absRoot, ExcludePatterns(outputFilename))
    ensures !IsSubstring(outputFilename, v.absPath)
  {
    WalkVisitsExact(root, repoPath, absRoot, ExcludePatterns(outputFilename), v);
    if IsSubstring(outputFilename, v.absPath) {
      OutputFilenameExcluded(v.absPath, outputFilename);
    }
  }

  /** In particular a file in the root named like the output file is never
      dumped. */
  lemma SelfExcluded(root: Node, repoPath: string, absRoot: string, f: Node)
    requires WellFormed(root)
    requires root.Dir? && f in root.children && f.File?
    ensures VisitOf(f, repoPath, absRoot) !in WalkVisits(root, repoPath, absRoot, ExcludePatterns(f.name))
  {
    var v := VisitOf(f, repoPath, absRoot);
    JoinShape(absRoot, f.name);
    assert OccursAt(f.name, v.absPath, |v.absPath| - |f.name|);
    if v in WalkVisits(root, repoPath, absRoot, ExcludePatterns(f.name)) {
      OutputFileNeverDumped(root, repoPath, absRoot, f.name, v);
    }
  }

  /** The filter compares strings, not files. With the output filename given
      as `./out.txt` and the repository `.` at `/u`, the report lies at
      `/u/out.txt`, which does not contain `./out.txt`. The report, created
      before the walk, is then itself walked and dumped into itself with
      whatever part of it has been written so far. */
  lemma RelativeOutputNameDumped()
    ensures Visit("./out.txt", "/u/out.txt", Text("partial"))
      in WalkVisits(Dir("r", [File("out.txt", Text("partial"))]), ".", "/u", ExcludePatterns("./out.txt"))
  {
    var f := File("out.txt", Text("partial"));
    var root := Dir("r", [f]);
    var v := VisitOf(f, ".", "/u");
    assert v == Visit("./out.txt", "/u/out.txt", Text("partial"));
    assert WellFormed(root) by {
      assert ValidName(f.name);
    }
    assert v in Reachable(root, ".", "/u") by {
      assert [f][1..] == [];
      assert EntryFiles(f, ".", "/u") == [v];
      assert ReachableIn([f], ".", "/u") == [v] + ReachableIn([], ".", "/u");
    }
    ReportPathNotExcluded();
    WalkVisitsExact(root, ".", "/u", ExcludePatterns("./out.txt"), v);
  }

  lemma ReportPathNotExcluded()
    ensures !Excluded("/u/out.txt", ExcludePatterns("./out.txt"))
  {
    var s := "/u/out.txt";
    var patterns := ExcludePatterns("./out.txt");
    assert patterns == ["./out.txt", ".git", "node_modules", "__pycache__", "build", "dist",
                        ".log", ".tmp", ".swp", ".DS_Store"];
    FirstCharMissing("./out.txt", s);
    ReportPathMissesDirectoryNames();
    ReportPathMissesFileFragments();
  }

  /** The five directory names of the default list do not occur in the
      report's path. */
  lemma ReportPathMissesDirectoryNames()
    ensures !IsSubstring(".git", "/u/out.txt") && !IsSubstring("node_modules", "/u/out.txt")
    ensures !IsSubstring("__pycache__", "/u/out.txt") && !IsSubstring("build", "/u/out.txt")
    ensures !IsSubstring("dist", "/u/out.txt")
  {
    var s := "/u/out.txt";
    CharMissing(".git", s, 1);
    CharMissing("node_modules", s, 0);
    CharMissing("__pycache__", s, 0);
    CharMissing("build", s, 0);
    CharMissing("dist", s, 0);
  }

  /** The four file-name fragments of the default list do not occur in the
      report's path. */
  lemma ReportPathMissesFileFragments()
    ensures !IsSubstring(".log", "/u/out.txt") && !IsSubstring(".tmp", "/u/out.txt")
    ensures !IsSubstring(".swp", "/u/out.txt") && !IsSubstring(".DS_Store", "/u/out.txt")
  {
    var s := "/u/out.txt";
    CharMissing(".log", s, 1);
    CharMissing(".tmp", s, 2);
    CharMissing(".swp", s, 1);
    CharMissing(".DS_Store", s, 1);
  }

  /** The filter looks at the whole absolute path, ancestors included: when
      the repository itself lies under a path holding a pattern (say a parent
      directory named `build`), the content section is empty. */
  lemma ExcludedRootDumpsNothing(root: Node, repoPath: string, absRoot: string, patterns: seq<string>)
    requires WellFormed(root)
    requires Excluded(absRoot, patterns)
    ensures WalkVisits(root, repoPath, absRoot, patterns) == []
  {
    var visits := WalkVisits(root, repoPath, absRoot, patterns);
    if visits != [] {
      var v := visits[0];
      WalkVisitsExact(root, repoPath, absRoot, patterns, v);
      ReachableUnder(root, repoPath, absRoot, v);
      ExcludedExtends(absRoot, v.absPath, patterns);
    }
  }

  /** The tree section is not filtered: every entry of the repository root,
      an excluded one such as `.git` or the report file itself included, has
      its line in the report. */
  lemma TreeListsEveryRootEntry(root: Node, repoPath: string, absRoot: string,
                                outputFilename: string, c: Node)
    requires root.Dir? && c in root.children
    ensures exists isLast: bool ::
      Connector(isLast) + c.name + "\n" in Report(root, repoPath, absRoot, outputFilename)
  {
    EveryEntryListed(root, c, "");
    var isLast: bool :| "" + Connector(isLast) + c.name + "\n" in TreeLines(root, "");
    var line := Connector(isLast) + c.name + "\n";
    assert "" + Connector(isLast) == Connector(isLast);
    TreeLineInReport(root, repoPath, absRoot, outputFilename, line);
  }

  /** The report holds the drawing of the repository. */
  lemma TreeLineInReport(root: Node, repoPath: string, absRoot: string,
                         outputFilename: string, line: string)
    requires root.Dir? && line in TreeLines(root, "")
    ensures line in Report(root, repoPath, absRoot, outputFilename)
  {
    var tree := TreeLines(root, "");
    var walked := DumpChunks(WalkVisits(root, repoPath, absRoot, ExcludePatterns(outputFilename)));
    assert Report(root, repoPath, absRoot, outputFilename) == [StructureHeader] + tree + ([ContentsHeader] + walked);
  }
}
