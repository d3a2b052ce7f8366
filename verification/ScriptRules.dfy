/** What the exclusion tables of import_files.py (lines 22-48) come to, name by name: which paths
    of the source a run is to bring in, said without the tables and without the recursion. */
module ScriptRules {
  import opened Wrappers
  import opened SourceTree
  import opened MergeBooks

  predicate Suffixed(name: Name, suffix: string) {
    exists n | 0 <= n <= |name| :: name == name[..n] + suffix
  }

  lemma EndsWithMeans(name: Name, suffix: string)
    ensures EndsWith(name, suffix) <==> Suffixed(name, suffix)
  {
    if EndsWith(name, suffix) {
      assert name == name[..|name| - |suffix|] + suffix;
    }
    if n :| 0 <= n <= |name| && name == name[..n] + suffix {
      assert |name| == n + |suffix|;
    }
  }

  /** Directory names that are excluded wherever they stand in a path. */
  predicate ExcludedName(name: Name) {
    || name == ".git" || name == "__pycache__" || name == ".pytest_cache" || name == ".mypy_cache"
    || name == ".ruff_cache" || name == "dist" || name == "build" || name == "*.egg-info" || name == ".eggs"
    || name == "venv" || name == "env" || name == ".venv" || name == ".env"
  }

  predicate ExcludedDir(name: Name) { Suffixed(name, ".egg-info") }

  predicate ExcludedFile(name: Name) {
    || name == ".DS_Store" || name == ".coverage" || name == "coverage.xml"
    || Suffixed(name, ".pyc") || Suffixed(name, ".pyo") || Suffixed(name, ".pyd") || Suffixed(name, ".log")
  }

  /** No component has an excluded name, no directory on the way is an egg-info directory, and the
      last component is none either, or no excluded file. */
  predicate Importable(path: Path, isDir: bool) {
    && path != []
    && (forall i | 0 <= i < |path| :: !ExcludedName(path[i]))
    && (forall i | 0 <= i < |path| - 1 :: !ExcludedDir(path[i]))
    && (if isDir then !ExcludedDir(path[|path| - 1]) else !ExcludedFile(path[|path| - 1]))
  }

  /** The source has this file, with this content, or this directory at `path`. */
  predicate InSource(entries: seq<Entry>, path: Path, item: Item) {
    match item
    case FileItem(content) => Lookup(Dir(entries), path) == Some(File(content))
    case DirItem => Lookup(Dir(entries), path).Some? && Lookup(Dir(entries), path).value.Dir?
  }

  // ----- the tables

  lemma RulesDirs(name: Name)
    ensures name in RULES.dirs <==> ExcludedName(name)
  {
  }

  lemma RulesDirSuffixes(name: Name)
    ensures EndsWithAny(name, RULES.dirSuffixes) <==> ExcludedDir(name)
  {
    EndsWithMeans(name, ".egg-info");
    assert RULES.dirSuffixes[0] == ".egg-info";
  }

  lemma RulesFileSuffixes(name: Name)
    ensures EndsWithAny(name, RULES.fileSuffixes) || name in RULES.files <==> ExcludedFile(name)
  {
    EndsWithMeans(name, ".pyc");
    EndsWithMeans(name, ".pyo");
    EndsWithMeans(name, ".pyd");
    EndsWithMeans(name, ".log");
    var suffixes := RULES.fileSuffixes;
    assert suffixes[0] == ".pyc" && suffixes[1] == ".pyo" && suffixes[2] == ".pyd" && suffixes[3] == ".log";
  }

  // ----- the tests of all prefixes together

  /** Everything on the way to a node of the tree is a directory. */
  lemma {:induction false} LookupPrefix(node: Node, below: Path, n: nat)
    requires n < |below| && Lookup(node, below).Some?
    ensures Lookup(node, below[..n]).Some? && Lookup(node, below[..n]).value.Dir?
    decreases n
  {
    if n > 0 {
      var child := Find(node.entries, below[0]).value;
      LookupPrefix(child, below[1..], n - 1);
      assert below[..n][1..] == below[1..][..n - 1];
    }
  }

  predicate Excluded(path: Path, isDir: bool)
    requires path != []
  {
    || (exists i | 0 <= i < |path| :: ExcludedName(path[i]))
    || (if isDir then ExcludedDir(path[|path| - 1]) else ExcludedFile(path[|path| - 1]))
  }

  lemma ShouldExcludeMeans(isDir: bool, path: Path)
    requires path != []
    ensures ShouldExclude(RULES, isDir, path) <==> Excluded(path, isDir)
  {
    var last := path[|path| - 1];
    RulesDirSuffixes(last);
    RulesFileSuffixes(last);
    forall i | 0 <= i < |path| ensures path[i] in RULES.dirs <==> ExcludedName(path[i]) {
      RulesDirs(path[i]);
    }
  }

  /** Excluding prefix by prefix is excluding by the components. */
  lemma NoPrefixIsExcluded(path: Path, isDir: bool)
    requires path != []
    ensures Importable(path, isDir) <==>
            forall n | 1 <= n <= |path| :: !Excluded(path[..n], n < |path| || isDir)
  {
    assert path[..|path|] == path;
    if Importable(path, isDir) {
      forall n | 1 <= n <= |path| ensures !Excluded(path[..n], n < |path| || isDir) {
        assert path[..n][n - 1] == path[n - 1];
      }
    }
    if forall n | 1 <= n <= |path| :: !Excluded(path[..n], n < |path| || isDir) {
      assert !Excluded(path[..|path|], isDir);
      forall i | 0 <= i < |path| - 1 ensures !ExcludedDir(path[i]) {
        assert !Excluded(path[..i + 1], true) && path[..i + 1][i] == path[i];
      }
    }
  }

  /** What a run is to bring in: what the source has and no table excludes. */
  lemma WantedMeans(entries: seq<Entry>, path: Path, item: Item)
    ensures Wanted(RULES, entries, path, item) <==>
            InSource(entries, path, item) && Importable(path, item.DirItem?)
  {
    var root := Dir(entries);
    if path != [] && InSource(entries, path, item) {
      assert path[..|path|] == path;
      forall n | 1 <= n <= |path|
        ensures Lookup(root, path[..n]).Some?
        ensures ShouldExclude(RULES, Lookup(root, path[..n]).value.Dir?, path[..n]) <==>
                Excluded(path[..n], n < |path| || item.DirItem?)
      {
        if n < |path| {
          LookupPrefix(root, path, n);
        }
        ShouldExcludeMeans(n < |path| || item.DirItem?, path[..n]);
      }
      NoPrefixIsExcluded(path, item.DirItem?);
    }
  }

  /** To be brought in. */
  predicate Candidate(entries: seq<Entry>, path: Path, item: Item) {
    InSource(entries, path, item) && Importable(path, item.DirItem?)
  }

  /** A file of the destination stands above a candidate, which cannot be brought in without
      overwriting the file. */
  ghost predicate Obstructed(entries: seq<Entry>, dest: Tree) {
    exists p, item | Candidate(entries, p, item) :: FileAbove(p, dest)
  }

  lemma ObstructedIsClash(entries: seq<Entry>, dest: Tree)
    ensures Obstructed(entries, dest) <==> Clash(RULES, entries, dest)
  {
    forall p, item ensures Wanted(RULES, entries, p, item) <==> Candidate(entries, p, item) {
      WantedMeans(entries, p, item);
    }
  }

  /** What a run may leave behind: the old entries, and candidates; all of them, if it reports no
      error. */
  ghost predicate Imported(entries: seq<Entry>, before: Tree, after: Tree, complete: bool) {
    && (forall p | p in before :: p in after && after[p] == before[p])
    && (forall p | p in after && p !in before :: Candidate(entries, p, after[p]))
    && (complete <==> forall p, item | Candidate(entries, p, item) :: p in after)
  }

  lemma MergeIsImported(entries: seq<Entry>, before: Tree, after: Tree, lists: Lists)
    requires UniqueNamesAll(entries) && Accounted(VisitsAll(RULES, entries, []), before, after, lists)
    ensures Imported(entries, before, after, lists.errors == 0)
  {
    MergeIsWanted(RULES, entries, before, after, lists);
    forall p, item ensures Wanted(RULES, entries, p, item) <==> Candidate(entries, p, item) {
      WantedMeans(entries, p, item);
    }
  }

  /** The three lists of a run are what it created and what it found there, each once. */
  ghost predicate Listed(entries: seq<Entry>, before: Tree, after: Tree, lists: Lists) {
    && NoRepeats(lists.copiedFiles) && NoRepeats(lists.copiedDirs) && NoRepeats(lists.skipped)
    && (forall p :: p in lists.copiedFiles <==> p in after && p !in before && after[p].FileItem?)
    && (forall p :: p in lists.copiedDirs <==> p in after && p !in before && after[p].DirItem?)
    && (forall p :: p in lists.skipped <==> p in before && exists content :: Candidate(entries, p, FileItem(content)))
  }

  lemma VisitIsCandidate(entries: seq<Entry>, v: Visit)
    requires UniqueNamesAll(entries)
    ensures v in VisitsAll(RULES, entries, []) <==> Candidate(entries, v.path, v.item)
  {
    VisitsAreWanted(RULES, entries, v.path, v.item);
    WantedMeans(entries, v.path, v.item);
  }

  lemma CreatedIsNew(visits: seq<Visit>, dirs: bool, before: Tree, after: Tree, lists: Lists, p: Path)
    requires DistinctPaths(visits) && Accounted(visits, before, after, lists)
    ensures p in (if dirs then lists.copiedDirs else lists.copiedFiles) <==>
            p in after && p !in before && after[p].DirItem? == dirs
  {
    CreatedLists(visits, dirs, before, after, p);
    if p in after && p !in before {
      NewFileIsVisited(visits, before, after, p);
      OneItemPerPath(visits);
    }
  }

  lemma KeptIsCandidate(entries: seq<Entry>, before: Tree, p: Path)
    requires UniqueNamesAll(entries)
    ensures p in PathsOf(Kept(VisitsAll(RULES, entries, []), before)) <==>
            p in before && exists content :: Candidate(entries, p, FileItem(content))
  {
    var visits := VisitsAll(RULES, entries, []);
    KeptLists(visits, before, p);
    if v :| v in visits && v.path == p && v.item.FileItem? && p in before {
      VisitIsCandidate(entries, v);
      assert v.item == FileItem(v.item.content);
    }
    if content :| Candidate(entries, p, FileItem(content)) {
      VisitIsCandidate(entries, Visit(p, FileItem(content)));
    }
  }

  lemma AccountIsListed(entries: seq<Entry>, before: Tree, after: Tree, lists: Lists)
    requires UniqueNamesAll(entries) && Accounted(VisitsAll(RULES, entries, []), before, after, lists)
    ensures Listed(entries, before, after, lists)
  {
    var visits := VisitsAll(RULES, entries, []);
    VisitsAllDistinct(RULES, entries, []);
    CreatedHasNoRepeats(visits, false, before, after);
    CreatedHasNoRepeats(visits, true, before, after);
    KeptHasNoRepeats(visits, before);
    forall p ensures p in lists.copiedFiles <==> p in after && p !in before && after[p].FileItem? {
      CreatedIsNew(visits, false, before, after, lists, p);
    }
    forall p ensures p in lists.copiedDirs <==> p in after && p !in before && after[p].DirItem? {
      CreatedIsNew(visits, true, before, after, lists, p);
    }
    forall p
      ensures p in lists.skipped <==> p in before && exists content :: Candidate(entries, p, FileItem(content))
    {
      KeptIsCandidate(entries, before, p);
    }
  }
}
