/** copy_if_not_exists and the loop of main (import_files.py:76-199), with every directory and
    file operation free to fail. */
module ImportFiles {
  import opened SourceTree
  import opened MergeBooks
  import opened ScriptRules

  class Importer {
    const rules: Rules
    var dest: Tree
    var copiedFiles: seq<Path>
    var copiedDirs: seq<Path>
    var skipped: seq<Path>
    var errors: nat         // lines written to stderr
    ghost var faults: nat   // operations that failed though no file stood in their way

    constructor (rules: Rules, dest: Tree)
      ensures this.rules == rules && this.dest == dest && Books() == NOTHING && faults == 0
    {
      this.rules := rules;
      this.dest, copiedFiles, copiedDirs, skipped, errors, faults := dest, [], [], [], 0, 0;
    }

    function Books(): Lists
      reads this
    {
      Lists(copiedFiles, copiedDirs, skipped, errors)
    }

    /** The parent of `path` exists, though a file may stand there. */
    predicate HasParent(path: Path)
      reads this
      requires path != []
    {
      |path| == 1 || path[..|path| - 1] in dest
    }

    /** dest.mkdir(parents=True, exist_ok=True) where nothing stands at `path`. The parent exists
        whenever it is called, so no other directory is made; under a file it fails. */
    method Mkdir(path: Path) returns (ok: bool)
      requires path != [] && path !in dest && HasParent(path) && TreeShaped(dest)
      modifies this`dest, this`faults
      ensures dest == if ok then old(dest)[path := DirItem] else old(dest)
      ensures ok ==> !UnderFile(path, old(dest))
      ensures faults == old(faults) + if ok || UnderFile(path, old(dest)) then 0 else 1
      ensures TreeShaped(dest)
    {
      if UnderFile(path, dest) {
        return false;
      }
      if * {
        faults := faults + 1;
        return false;
      }
      dest := dest[path := DirItem];
      ok := true;
    }

    /** dest.parent.mkdir(parents=True, exist_ok=True) and shutil.copy2; a failure leaves nothing. */
    method CopyFile(content: string, path: Path) returns (ok: bool)
      requires path != [] && path !in dest && HasParent(path) && TreeShaped(dest)
      modifies this`dest, this`faults
      ensures dest == if ok then old(dest)[path := FileItem(content)] else old(dest)
      ensures ok ==> !UnderFile(path, old(dest))
      ensures faults == old(faults) + if ok || UnderFile(path, old(dest)) then 0 else 1
      ensures TreeShaped(dest)
    {
      if UnderFile(path, dest) {
        return false;
      }
      if * {
        faults := faults + 1;
        return false;
      }
      dest := dest[path := FileItem(content)];
      ok := true;
    }

    /** The branch for a source file: skip it, copy it, or report the failure. */
    method CopyOneFile(content: string, relative: Path) returns (ghost lists: Lists)
      requires relative != [] && TreeShaped(dest) && HasParent(relative)
      modifies this
      ensures TreeShaped(dest) && Books() == old(Books()).Plus(lists)
      ensures OneOutcome(Visit(relative, FileItem(content)), old(dest), dest, lists)
      ensures faults >= old(faults)
      ensures lists.errors > 0 && faults == old(faults) ==> UnderFile(relative, old(dest))
    {
      if relative in dest {
        skipped := skipped + [relative];
        return Lists([], [], [relative], 0);
      }
      var ok := CopyFile(content, relative);
      if ok {
        copiedFiles := copiedFiles + [relative];
        return Lists([relative], [], [], 0);
      }
      errors := errors + 1;
      return Lists([], [], [], 1);
    }

    /** The first half of the branch for a source directory: make sure something stands there. */
    method EnsureDir(relative: Path) returns (ok: bool, ghost lists: Lists)
      requires relative != [] && TreeShaped(dest) && HasParent(relative)
      modifies this
      ensures TreeShaped(dest) && Books() == old(Books()).Plus(lists)
      ensures OneOutcome(Visit(relative, DirItem), old(dest), dest, lists)
      ensures faults >= old(faults)
      ensures lists.errors > 0 && faults == old(faults) ==> UnderFile(relative, old(dest))
      ensures ok <==> relative in dest
    {
      if relative in dest {
        PlusNothing(Books());
        return true, NOTHING;
      }
      ok := Mkdir(relative);
      if ok {
        copiedDirs := copiedDirs + [relative];
        return true, Lists([], [relative], [], 0);
      }
      errors := errors + 1;
      return false, Lists([], [], [], 1);
    }

    /** copy_if_not_exists. What it appended to the lists accounts for all it visited, whichever
        operations failed on the way. */
    method CopyIfNotExists(src: Node, relative: Path) returns (ghost lists: Lists)
      requires relative != [] && TreeShaped(dest) && HasParent(relative) && UniqueNames(src)
      modifies this
      ensures TreeShaped(dest) && Books() == old(Books()).Plus(lists)
      ensures Accounted(Visits(rules, src, relative), old(dest), dest, lists)
      ensures faults >= old(faults)
      ensures lists.errors > 0 && faults == old(faults) ==> Blocked(Visits(rules, src, relative), old(dest))
      decreases src, 1
    {
      if ShouldExclude(rules, src.Dir?, relative) {
        PlusNothing(Books());
        NothingVisited(dest);
        return NOTHING;
      }
      ghost var t0, b0 := dest, Books();
      if src.Dir? {
        var ok, first := EnsureDir(relative);
        FirstVisit(rules, src, relative, t0);
        if !ok {
          FailureAccounted(rules, src, relative, t0);
          return first;
        }
        ghost var t1 := dest;
        ghost var rest := CopyEntries(src.entries, relative);
        DirectoryAccounted(rules, src, relative, t0, t1, dest, first, rest);
        DirectoryBlocked(rules, src, relative, t0, t1, first);
        PlusAssociative(b0, first, rest);
        return first.Plus(rest);
      }
      lists := CopyOneFile(src.content, relative);
      FileAccounted(rules, src, relative, t0, dest, lists);
      FirstVisit(rules, src, relative, t0);
    }

    /** The loop over the entries of a directory, and that of main over the source itself, whose
        path is []. */
    method CopyEntries(entries: seq<Entry>, relative: Path) returns (ghost lists: Lists)
      requires TreeShaped(dest) && (relative == [] || relative in dest) && UniqueNamesAll(entries)
      modifies this
      ensures TreeShaped(dest) && Books() == old(Books()).Plus(lists)
      ensures Accounted(VisitsAll(rules, entries, relative), old(dest), dest, lists)
      ensures faults >= old(faults)
      ensures lists.errors > 0 && faults == old(faults) ==> Blocked(VisitsAll(rules, entries, relative), old(dest))
      decreases entries, 1
    {
      lists := NOTHING;
      PlusNothing(Books());
      NothingVisited(dest);
      ghost var t0, b0, f0 := dest, Books(), faults;
      for i := 0 to |entries|
        invariant TreeShaped(dest) && (relative == [] || relative in dest)
        invariant Books() == b0.Plus(lists)
        invariant Accounted(VisitsAll(rules, entries[..i], relative), t0, dest, lists)
        invariant faults >= f0
        invariant lists.errors > 0 && faults == f0 ==> Blocked(VisitsAll(rules, entries[..i], relative), t0)
      {
        lists := CopyEntry(entries, i, relative, t0, b0, f0, lists);
      }
      assert entries[..|entries|] == entries;
    }

    /** One turn of that loop. */
    method CopyEntry(entries: seq<Entry>, i: nat, relative: Path,
                     ghost t0: Tree, ghost b0: Lists, ghost f0: nat, ghost sofar: Lists)
      returns (ghost lists: Lists)
      requires TreeShaped(dest) && (relative == [] || relative in dest) && i < |entries| && UniqueNamesAll(entries)
      requires Books() == b0.Plus(sofar) && Accounted(VisitsAll(rules, entries[..i], relative), t0, dest, sofar)
      requires faults >= f0
      requires sofar.errors > 0 && faults == f0 ==> Blocked(VisitsAll(rules, entries[..i], relative), t0)
      modifies this
      ensures TreeShaped(dest) && (relative == [] || relative in dest)
      ensures Books() == b0.Plus(lists) && Accounted(VisitsAll(rules, entries[..i + 1], relative), t0, dest, lists)
      ensures faults >= f0
      ensures lists.errors > 0 && faults == f0 ==> Blocked(VisitsAll(rules, entries[..i + 1], relative), t0)
      decreases entries, 0
    {
      var item := entries[i];
      ghost var t1 := dest;
      assert (relative + [item.name])[..|relative|] == relative;
      ghost var more := CopyIfNotExists(item.node, relative + [item.name]);
      EntriesJoin(rules, entries, i, relative, t0, t1, dest, sofar, more);
      EntriesBlocked(rules, entries, i, relative, t0, t1);
      PlusAssociative(b0, sofar, more);
      lists := sofar.Plus(more);
    }

    /** main, between the checks of its two directories and the summary. */
    method Run(source: seq<Entry>) returns (ghost lists: Lists)
      requires TreeShaped(dest) && UniqueNamesAll(source) && Books() == NOTHING
      modifies this
      ensures TreeShaped(dest) && Books() == lists
      ensures Accounted(VisitsAll(rules, source, []), old(dest), dest, lists)
      ensures faults >= old(faults)
      ensures lists.errors > 0 && faults == old(faults) ==> Blocked(VisitsAll(rules, source, []), old(dest))
      ensures forall p | p in old(dest) :: p in dest && dest[p] == old(dest)[p]
    {
      lists := CopyEntries(source, []);
      PlusNothing(lists);
    }
  }

  /** What one visit does to its path: nothing, if something stands there; else it creates it or
      reports an error. */
  predicate OneOutcome(v: Visit, before: Tree, after: Tree, lists: Lists) {
    if v.path in before then
      after == before && lists == if v.item.DirItem? then NOTHING else Lists([], [], [v.path], 0)
    else if v.path in after then
      after == before[v.path := v.item] &&
      lists == if v.item.DirItem? then Lists([], [v.path], [], 0) else Lists([v.path], [], [], 0)
    else
      after == before && lists == Lists([], [], [], 1)
  }

  lemma NothingVisited(tree: Tree)
    ensures Accounted([], tree, tree, NOTHING)
  {
  }

  /** One more entry of the loop: its paths are not those of the entries before it. */
  lemma EntriesJoin(rules: Rules, entries: seq<Entry>, i: nat, path: Path,
                    t0: Tree, t1: Tree, t2: Tree, l: Lists, m: Lists)
    requires i < |entries| && UniqueNamesAll(entries)
    requires Accounted(VisitsAll(rules, entries[..i], path), t0, t1, l)
    requires Accounted(Visits(rules, entries[i].node, path + [entries[i].name]), t1, t2, m)
    ensures Accounted(VisitsAll(rules, entries[..i + 1], path), t0, t2, l.Plus(m))
  {
    var item := entries[i];
    SiblingsDisjoint(rules, entries[..i], path, item);
    AccountsJoin(VisitsAll(rules, entries[..i], path), Visits(rules, item.node, path + [item.name]), t0, t1, t2, l, m);
    assert entries[..i + 1][..i] == entries[..i];
  }

  /** A file stands where the parent directory of `path` should be. */
  predicate UnderFile(path: Path, tree: Tree) {
    |path| > 1 && path[..|path| - 1] in tree && tree[path[..|path| - 1]].FileItem?
  }

  lemma FirstVisit(rules: Rules, src: Node, path: Path, tree: Tree)
    requires path != [] && !ShouldExclude(rules, src.Dir?, path)
    ensures UnderFile(path, tree) ==> Blocked(Visits(rules, src, path), tree)
  {
    var v := Visit(path, ItemOf(src));
    assert v == Visits(rules, src, path)[0];
    if UnderFile(path, tree) {
      assert FileAbove(v.path, tree);
    }
  }

  /** What blocks the entries of a directory stood there before the directory was made. */
  lemma DirectoryBlocked(rules: Rules, src: Node, path: Path, t0: Tree, t1: Tree, first: Lists)
    requires path != [] && src.Dir? && !ShouldExclude(rules, true, path)
    requires OneOutcome(Visit(path, DirItem), t0, t1, first)
    ensures Blocked(VisitsAll(rules, src.entries, path), t1) ==> Blocked(Visits(rules, src, path), t0)
  {
    OneAccounted(Visit(path, DirItem), t0, t1, first);
    if Blocked(VisitsAll(rules, src.entries, path), t1) {
      BlockedBefore([Visit(path, DirItem)], VisitsAll(rules, src.entries, path), t0, t1);
      BlockedInPart(VisitsAll(rules, src.entries, path), Visits(rules, src, path), t0);
    }
  }

  /** What blocks an entry, or one before it, stood there before the loop. */
  lemma EntriesBlocked(rules: Rules, entries: seq<Entry>, i: nat, path: Path, t0: Tree, t1: Tree)
    requires i < |entries| && UniqueNamesAll(entries) && Merged(VisitsAll(rules, entries[..i], path), t0, t1)
    ensures var whole := VisitsAll(rules, entries[..i + 1], path);
            && (Blocked(VisitsAll(rules, entries[..i], path), t0) ==> Blocked(whole, t0))
            && (Blocked(Visits(rules, entries[i].node, path + [entries[i].name]), t1) ==> Blocked(whole, t0))
  {
    var item := entries[i];
    var a, b := VisitsAll(rules, entries[..i], path), Visits(rules, item.node, path + [item.name]);
    assert entries[..i + 1][..i] == entries[..i];
    assert VisitsAll(rules, entries[..i + 1], path) == a + b;
    if Blocked(a, t0) {
      BlockedInPart(a, a + b, t0);
    }
    if Blocked(b, t1) {
      SiblingsNotAbove(rules, entries[..i], path, item);
      BlockedBefore(a, b, t0, t1);
      BlockedInPart(b, a + b, t0);
    }
  }

  lemma SiblingsNotAbove(rules: Rules, entries: seq<Entry>, path: Path, last: Entry)
    requires forall i | 0 <= i < |entries| :: entries[i].name != last.name
    ensures NoFileAbove(VisitsAll(rules, entries, path), Visits(rules, last.node, path + [last.name]))
  {
    VisitsAllBelow(rules, entries, path);
    VisitsBelow(rules, last.node, path + [last.name]);
    forall v, w | v in VisitsAll(rules, entries, path) && w in Visits(rules, last.node, path + [last.name])
      ensures |v.path| < |w.path| ==> v.path != w.path[..|v.path|]
    {
      assert w.path[..|path| + 1] == path + [last.name];
      assert w.path[|path|] == last.name != v.path[|path|];
    }
  }

  lemma OneVisit(v: Visit, dirs: bool, before: Tree, after: Tree)
    ensures Created([v], dirs, before, after) ==
            if v.item.DirItem? == dirs && v.path in after && v.path !in before then [v] else []
    ensures Kept([v], before) == if v.item.FileItem? && v.path in before then [v] else []
    ensures PathsOf([v]) == [v.path]
  {
    assert [v][..0] == [];
  }

  lemma MergedOne(v: Visit, before: Tree, after: Tree)
    requires v.path !in before && after == before[v.path := v.item]
    ensures Merged([v], before, after) && Complete([v], after)
  {
    forall p | p in after && p !in before ensures Visit(p, after[p]) in [v] {
      assert Visit(p, after[p]) == v;
    }
  }

  lemma MergedNothing(v: Visit, tree: Tree)
    ensures Merged([v], tree, tree) && (Complete([v], tree) <==> v.path in tree)
  {
    assert v in [v];
  }

  /** One outcome is accounted for. */
  lemma OneAccounted(v: Visit, before: Tree, after: Tree, lists: Lists)
    requires OneOutcome(v, before, after, lists)
    ensures Accounted([v], before, after, lists)
  {
    assert Merged([v], before, after) && (Complete([v], after) <==> v.path in after) by {
      if v.path in after && v.path !in before {
        MergedOne(v, before, after);
      } else {
        MergedNothing(v, before);
      }
    }
    assert Balanced([v], before, after, lists) by {
      OneVisit(v, true, before, after);
      OneVisit(v, false, before, after);
    }
  }

  lemma FileAccounted(rules: Rules, src: Node, path: Path, before: Tree, after: Tree, lists: Lists)
    requires path != [] && src.File? && !ShouldExclude(rules, false, path)
    requires OneOutcome(Visit(path, FileItem(src.content)), before, after, lists)
    ensures Accounted(Visits(rules, src, path), before, after, lists)
  {
    OneAccounted(Visit(path, FileItem(src.content)), before, after, lists);
    assert Visits(rules, src, path) == [Visit(path, FileItem(src.content))];
  }

  lemma DirectoryAccounted(rules: Rules, src: Node, path: Path, t0: Tree, t1: Tree, t2: Tree, first: Lists, rest: Lists)
    requires path != [] && src.Dir? && !ShouldExclude(rules, true, path)
    requires OneOutcome(Visit(path, DirItem), t0, t1, first)
    requires Accounted(VisitsAll(rules, src.entries, path), t1, t2, rest)
    ensures Accounted(Visits(rules, src, path), t0, t2, first.Plus(rest))
  {
    OneAccounted(Visit(path, DirItem), t0, t1, first);
    DirectoryFirst(rules, src.entries, path);
    AccountsJoin([Visit(path, DirItem)], VisitsAll(rules, src.entries, path), t0, t1, t2, first, rest);
  }

  lemma DirectoryFirst(rules: Rules, entries: seq<Entry>, path: Path)
    ensures DisjointPaths([Visit(path, DirItem)], VisitsAll(rules, entries, path))
  {
    VisitsAllBelow(rules, entries, path);
  }

  /** main: one run over the source into an existing destination, with the tables of the script.
      Nothing is overwritten; what is new is in the source and no table excludes it; the lists are
      what was created and what was skipped. If no operation fails by itself, all that no table
      excludes is brought in exactly when no file of the destination stands above any of it. */
  method ImportAll(source: seq<Entry>, dest: Tree) returns (importer: Importer, ghost lists: Lists)
    requires TreeShaped(dest) && UniqueNamesAll(source)
    ensures fresh(importer) && TreeShaped(importer.dest) && importer.Books() == lists
    ensures Accounted(VisitsAll(RULES, source, []), dest, importer.dest, lists)
    ensures forall p | p in dest :: p in importer.dest && importer.dest[p] == dest[p]
    ensures forall p | p in importer.dest && p !in dest ::
              InSource(source, p, importer.dest[p]) && Importable(p, importer.dest[p].DirItem?)
    ensures lists.errors == 0 <==>
            forall p, item | InSource(source, p, item) && Importable(p, item.DirItem?) :: p in importer.dest
    ensures importer.faults == 0 ==> (lists.errors == 0 <==> !Obstructed(source, dest))
    ensures Obstructed(source, dest) ==> lists.errors > 0
    ensures Listed(source, dest, importer.dest, lists)
  {
    importer := new Importer(RULES, dest);
    lists := importer.Run(source);
    AccountIsListed(source, dest, importer.dest, lists);
    MergeIsImported(source, dest, importer.dest, lists);
    assert forall p, item | InSource(source, p, item) && Importable(p, item.DirItem?) :: Candidate(source, p, item);
    ObstructedIsClash(source, dest);
    BlockedIsClash(RULES, source, dest);
    if lists.errors == 0 {
      CompleteIsUnblocked(VisitsAll(RULES, source, []), dest, importer.dest);
    }
  }
}
