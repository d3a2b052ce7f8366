/** What a merge run may do to the destination and what it must write into its three lists,
    whichever directories and files it fails to create. */
module MergeBooks {
  import opened SourceTree

  /** Every entry stands in a directory. */
  predicate TreeShaped(dest: Tree) {
    forall p | p in dest :: p != [] && (|p| > 1 ==> p[..|p| - 1] in dest && dest[p[..|p| - 1]] == DirItem)
  }

  /** Nothing that was there changed, and everything new is a visited node of the source. */
  predicate Merged(visits: seq<Visit>, before: Tree, after: Tree) {
    && (forall p | p in before :: p in after && after[p] == before[p])
    && (forall p | p in after && p !in before :: Visit(p, after[p]) in visits)
  }

  /** Every visited path is there. */
  predicate Complete(visits: seq<Visit>, after: Tree) {
    forall v | v in visits :: v.path in after
  }

  function PathsOf(visits: seq<Visit>): seq<Path> {
    if visits == [] then [] else PathsOf(visits[..|visits| - 1]) + [visits[|visits| - 1].path]
  }

  /** The visited files, or directories, that are there after but not before. */
  function Created(visits: seq<Visit>, dirs: bool, before: Tree, after: Tree): seq<Visit> {
    if visits == [] then []
    else
      var last := visits[|visits| - 1];
      var created := Created(visits[..|visits| - 1], dirs, before, after);
      if last.item.DirItem? == dirs && last.path in after && last.path !in before then created + [last] else created
  }

  /** The visited files that were there before. */
  function Kept(visits: seq<Visit>, before: Tree): seq<Visit> {
    if visits == [] then []
    else
      var last := visits[|visits| - 1];
      var kept := Kept(visits[..|visits| - 1], before);
      if last.item.FileItem? && last.path in before then kept + [last] else kept
  }

  /** The three lists of a run, and how many errors it reported. */
  datatype Lists = Lists(copiedFiles: seq<Path>, copiedDirs: seq<Path>, skipped: seq<Path>, errors: nat) {
    function Plus(more: Lists): Lists {
      Lists(copiedFiles + more.copiedFiles, copiedDirs + more.copiedDirs, skipped + more.skipped, errors + more.errors)
    }
  }

  lemma PlusAssociative(l: Lists, m: Lists, n: Lists)
    ensures l.Plus(m).Plus(n) == l.Plus(m.Plus(n))
  {
    assert l.copiedFiles + m.copiedFiles + n.copiedFiles == l.copiedFiles + (m.copiedFiles + n.copiedFiles);
    assert l.copiedDirs + m.copiedDirs + n.copiedDirs == l.copiedDirs + (m.copiedDirs + n.copiedDirs);
    assert l.skipped + m.skipped + n.skipped == l.skipped + (m.skipped + n.skipped);
  }

  const NOTHING := Lists([], [], [], 0)

  lemma PlusNothing(l: Lists)
    ensures l.Plus(NOTHING) == l && NOTHING.Plus(l) == l
  {
  }

  /** The lists record exactly what was created and what was there already, in visiting order, and
      errors were reported exactly when something visited is missing. */
  predicate Balanced(visits: seq<Visit>, before: Tree, after: Tree, lists: Lists) {
    && lists.copiedFiles == PathsOf(Created(visits, false, before, after))
    && lists.copiedDirs == PathsOf(Created(visits, true, before, after))
    && lists.skipped == PathsOf(Kept(visits, before))
    && (lists.errors == 0 <==> Complete(visits, after))
  }

  predicate Accounted(visits: seq<Visit>, before: Tree, after: Tree, lists: Lists) {
    Merged(visits, before, after) && Balanced(visits, before, after, lists)
  }

  // ----- two parts of a run

  lemma {:induction false} PathsOfConcat(a: seq<Visit>, b: seq<Visit>)
    ensures PathsOf(a + b) == PathsOf(a) + PathsOf(b)
    decreases |b|
  {
    if b == [] {
      assert a + b == a;
    } else {
      var front := b[..|b| - 1];
      assert (a + b)[..|a + b| - 1] == a + front;
      PathsOfConcat(a, front);
      assert PathsOf(a) + (PathsOf(front) + [b[|b| - 1].path]) == PathsOf(a) + PathsOf(b);
    }
  }

  lemma {:induction false} CreatedConcat(a: seq<Visit>, b: seq<Visit>, dirs: bool, before: Tree, after: Tree)
    ensures Created(a + b, dirs, before, after) == Created(a, dirs, before, after) + Created(b, dirs, before, after)
    decreases |b|
  {
    if b == [] {
      assert a + b == a;
    } else {
      var front := b[..|b| - 1];
      assert (a + b)[..|a + b| - 1] == a + front;
      CreatedConcat(a, front, dirs, before, after);
    }
  }

  lemma {:induction false} KeptConcat(a: seq<Visit>, b: seq<Visit>, before: Tree)
    ensures Kept(a + b, before) == Kept(a, before) + Kept(b, before)
    decreases |b|
  {
    if b == [] {
      assert a + b == a;
    } else {
      var front := b[..|b| - 1];
      assert (a + b)[..|a + b| - 1] == a + front;
      KeptConcat(a, front, before);
    }
  }

  /** Two trees have the same visited paths. */
  predicate SameOn(visits: seq<Visit>, t: Tree, t': Tree) {
    forall v | v in visits :: v.path in t <==> v.path in t'
  }

  lemma {:induction false} CreatedSame(visits: seq<Visit>, dirs: bool,
                                       before: Tree, before': Tree, after: Tree, after': Tree)
    requires SameOn(visits, before, before') && SameOn(visits, after, after')
    ensures Created(visits, dirs, before, after) == Created(visits, dirs, before', after')
    decreases |visits|
  {
    if visits != [] {
      var front, last := visits[..|visits| - 1], visits[|visits| - 1];
      assert last in visits;
      CreatedSame(front, dirs, before, before', after, after');
    }
  }

  lemma {:induction false} KeptSame(visits: seq<Visit>, before: Tree, before': Tree)
    requires SameOn(visits, before, before')
    ensures Kept(visits, before) == Kept(visits, before')
    decreases |visits|
  {
    if visits != [] {
      var last := visits[|visits| - 1];
      assert last in visits;
      KeptSame(visits[..|visits| - 1], before, before');
    }
  }

  /** A step that touches other paths only leaves these alone. */
  lemma OthersSame(a: seq<Visit>, b: seq<Visit>, before: Tree, after: Tree)
    requires DisjointPaths(a, b) && Merged(b, before, after)
    ensures SameOn(a, before, after)
  {
    forall v | v in a ensures v.path in before <==> v.path in after {
      if v.path in after && v.path !in before {
        assert false;
      }
    }
  }

  lemma MergedJoin(a: seq<Visit>, b: seq<Visit>, t0: Tree, t1: Tree, t2: Tree)
    requires Merged(a, t0, t1) && Merged(b, t1, t2)
    ensures Merged(a + b, t0, t2)
  {
    forall p | p in t2 && p !in t0 ensures Visit(p, t2[p]) in a + b {
      if p in t1 {
        assert Visit(p, t1[p]) in a;
      } else {
        assert Visit(p, t2[p]) in b;
      }
    }
  }

  /** Accounts of two parts with different paths add up to an account of the whole. */
  lemma AccountsJoin(a: seq<Visit>, b: seq<Visit>, t0: Tree, t1: Tree, t2: Tree, l: Lists, m: Lists)
    requires Accounted(a, t0, t1, l) && Accounted(b, t1, t2, m) && DisjointPaths(a, b)
    ensures Accounted(a + b, t0, t2, l.Plus(m))
  {
    MergedJoin(a, b, t0, t1, t2);
    OthersSame(a, b, t1, t2);
    assert DisjointPaths(b, a);
    OthersSame(b, a, t0, t1);
    assert SameOn(a, t0, t0) && SameOn(b, t2, t2);
    ListsJoin(a, b, false, t0, t1, t2);
    ListsJoin(a, b, true, t0, t1, t2);
    KeptConcat(a, b, t0);
    KeptSame(b, t0, t1);
    PathsOfConcat(Kept(a, t0), Kept(b, t0));
    CompleteJoin(a, b, t1, t2);
  }

  lemma ListsJoin(a: seq<Visit>, b: seq<Visit>, dirs: bool, t0: Tree, t1: Tree, t2: Tree)
    requires SameOn(a, t1, t2) && SameOn(b, t0, t1)
    ensures PathsOf(Created(a + b, dirs, t0, t2)) ==
            PathsOf(Created(a, dirs, t0, t1)) + PathsOf(Created(b, dirs, t1, t2))
  {
    CreatedConcat(a, b, dirs, t0, t2);
    assert SameOn(a, t0, t0) && SameOn(b, t2, t2);
    CreatedSame(a, dirs, t0, t0, t1, t2);
    CreatedSame(b, dirs, t0, t1, t2, t2);
    PathsOfConcat(Created(a, dirs, t0, t2), Created(b, dirs, t0, t2));
  }

  lemma CompleteJoin(a: seq<Visit>, b: seq<Visit>, t1: Tree, t2: Tree)
    requires SameOn(a, t1, t2)
    ensures Complete(a + b, t2) <==> Complete(a, t1) && Complete(b, t2)
  {
    if Complete(a + b, t2) {
      forall v | v in a ensures v.path in t1 {
        assert v in a + b;
      }
      forall v | v in b ensures v.path in t2 {
        assert v in a + b;
      }
    }
  }

  // ----- a directory that could not be created

  /** Below a path that is not there, nothing is there. */
  lemma {:induction false} NothingBelow(dest: Tree, path: Path, p: Path)
    requires TreeShaped(dest) && path != [] && path <= p && path !in dest
    ensures p !in dest
    decreases |p|
  {
    if p != path && p in dest {
      NothingBelow(dest, path, p[..|p| - 1]);
      assert false;
    }
  }

  lemma {:induction false} NothingKept(visits: seq<Visit>, before: Tree)
    requires forall v | v in visits :: v.path !in before
    ensures Kept(visits, before) == []
    decreases |visits|
  {
    if visits != [] {
      assert visits[|visits| - 1] in visits;
      NothingKept(visits[..|visits| - 1], before);
    }
  }

  lemma {:induction false} NothingCreated(visits: seq<Visit>, dirs: bool, tree: Tree)
    ensures Created(visits, dirs, tree, tree) == []
    decreases |visits|
  {
    if visits != [] {
      NothingCreated(visits[..|visits| - 1], dirs, tree);
    }
  }

  /** A failure at `path` accounts for all that would have been visited from there. */
  lemma FailureAccounted(rules: Rules, node: Node, path: Path, dest: Tree)
    requires path != [] && TreeShaped(dest) && path !in dest && Visits(rules, node, path) != []
    ensures Accounted(Visits(rules, node, path), dest, dest, Lists([], [], [], 1))
  {
    var visits := Visits(rules, node, path);
    VisitsBelow(rules, node, path);
    forall v | v in visits ensures v.path !in dest {
      NothingBelow(dest, path, v.path);
    }
    NothingKept(visits, dest);
    NothingCreated(visits, false, dest);
    NothingCreated(visits, true, dest);
    assert visits[0] in visits;
  }

  // ----- files where directories are wanted

  /** A file stands at a proper prefix of the path. */
  predicate FileAbove(path: Path, tree: Tree) {
    exists n | 0 < n < |path| :: path[..n] in tree && tree[path[..n]].FileItem?
  }

  predicate Blocked(visits: seq<Visit>, tree: Tree) {
    exists v | v in visits :: FileAbove(v.path, tree)
  }

  /** No file of `a` is visited at a proper prefix of a path of `b`. */
  predicate NoFileAbove(a: seq<Visit>, b: seq<Visit>) {
    forall v, w | v in a && w in b && |v.path| < |w.path| && v.path == w.path[..|v.path|] :: v.item.DirItem?
  }

  /** What the visits of `a` created blocks nothing of `b`. */
  lemma BlockedBefore(a: seq<Visit>, b: seq<Visit>, before: Tree, after: Tree)
    requires Merged(a, before, after) && NoFileAbove(a, b) && Blocked(b, after)
    ensures Blocked(b, before)
  {
    var w :| w in b && FileAbove(w.path, after);
    var n :| 0 < n < |w.path| && w.path[..n] in after && after[w.path[..n]].FileItem?;
    var q := w.path[..n];
    if q !in before {
      NewFileIsVisited(a, before, after, q);
      assert false;
    }
    assert before[q] == after[q];
    assert FileAbove(w.path, before);
  }

  lemma NewFileIsVisited(visits: seq<Visit>, before: Tree, after: Tree, p: Path)
    requires Merged(visits, before, after) && p in after && p !in before
    ensures Visit(p, after[p]) in visits
  {
  }

  lemma BlockedInPart(part: seq<Visit>, whole: seq<Visit>, tree: Tree)
    requires Blocked(part, tree) && forall v | v in part :: v in whole
    ensures Blocked(whole, tree)
  {
  }

  lemma {:induction false} PrefixesAreDirs(tree: Tree, p: Path, n: nat)
    requires TreeShaped(tree) && p in tree && 0 < n < |p|
    ensures p[..n] in tree && tree[p[..n]] == DirItem
    decreases |p|
  {
    var parent := p[..|p| - 1];
    if n < |p| - 1 {
      PrefixesAreDirs(tree, parent, n);
      assert parent[..n] == p[..n];
    }
  }

  /** A run that brings in all it visits met no file where it needed a directory. */
  lemma CompleteIsUnblocked(visits: seq<Visit>, before: Tree, after: Tree)
    requires Merged(visits, before, after) && TreeShaped(after) && Complete(visits, after)
    ensures !Blocked(visits, before)
  {
    forall v | v in visits ensures !FileAbove(v.path, before) {
      forall n | 0 < n < |v.path| && v.path[..n] in before ensures !before[v.path[..n]].FileItem? {
        PrefixesAreDirs(after, v.path, n);
        assert after[v.path[..n]] == before[v.path[..n]];
      }
    }
  }

  // ----- what the accounts say of whole runs

  lemma PathsOfAppend(visits: seq<Visit>, last: Visit)
    ensures PathsOf(visits + [last]) == PathsOf(visits) + [last.path]
  {
    assert (visits + [last])[..|visits|] == visits;
  }

  lemma {:induction false} CreatedLists(visits: seq<Visit>, dirs: bool, before: Tree, after: Tree, p: Path)
    ensures p in PathsOf(Created(visits, dirs, before, after)) <==>
            exists v :: v in visits && v.path == p && v.item.DirItem? == dirs && p in after && p !in before
    decreases |visits|
  {
    if visits != [] {
      var front, last := visits[..|visits| - 1], visits[|visits| - 1];
      CreatedLists(front, dirs, before, after, p);
      assert forall v :: v in visits <==> v in front || v == last;
      PathsOfAppend(Created(front, dirs, before, after), last);
    }
  }

  lemma {:induction false} KeptLists(visits: seq<Visit>, before: Tree, p: Path)
    ensures p in PathsOf(Kept(visits, before)) <==>
            exists v :: v in visits && v.path == p && v.item.FileItem? && p in before
    decreases |visits|
  {
    if visits != [] {
      var front, last := visits[..|visits| - 1], visits[|visits| - 1];
      KeptLists(front, before, p);
      assert forall v :: v in visits <==> v in front || v == last;
      PathsOfAppend(Kept(front, before), last);
    }
  }

  predicate NoRepeats(paths: seq<Path>) {
    forall i, j | 0 <= i < j < |paths| :: paths[i] != paths[j]
  }

  lemma LastIsNew(visits: seq<Visit>)
    requires DistinctPaths(visits) && visits != []
    ensures forall v | v in visits[..|visits| - 1] :: v.path != visits[|visits| - 1].path
    ensures DistinctPaths(visits[..|visits| - 1])
  {
  }

  lemma {:induction false} CreatedHasNoRepeats(visits: seq<Visit>, dirs: bool, before: Tree, after: Tree)
    requires DistinctPaths(visits)
    ensures NoRepeats(PathsOf(Created(visits, dirs, before, after)))
    decreases |visits|
  {
    if visits != [] {
      var front, last := visits[..|visits| - 1], visits[|visits| - 1];
      LastIsNew(visits);
      CreatedHasNoRepeats(front, dirs, before, after);
      CreatedLists(front, dirs, before, after, last.path);
      PathsOfAppend(Created(front, dirs, before, after), last);
    }
  }

  lemma {:induction false} KeptHasNoRepeats(visits: seq<Visit>, before: Tree)
    requires DistinctPaths(visits)
    ensures NoRepeats(PathsOf(Kept(visits, before)))
    decreases |visits|
  {
    if visits != [] {
      var front, last := visits[..|visits| - 1], visits[|visits| - 1];
      LastIsNew(visits);
      KeptHasNoRepeats(front, before);
      KeptLists(front, before, last.path);
      PathsOfAppend(Kept(front, before), last);
    }
  }

  /** The books of any run: no list repeats a path, no path is in two lists, only visited paths are
      listed, and every visited path is listed, or was a directory already, or is missing. */
  lemma BooksBalance(visits: seq<Visit>, before: Tree, after: Tree, lists: Lists)
    requires DistinctPaths(visits) && Accounted(visits, before, after, lists)
    ensures NoRepeats(lists.copiedFiles) && NoRepeats(lists.copiedDirs) && NoRepeats(lists.skipped)
    ensures forall p | p in lists.copiedFiles :: p !in lists.copiedDirs && p !in lists.skipped
    ensures forall p | p in lists.copiedDirs :: p !in lists.skipped
    ensures forall p | p in lists.copiedFiles || p in lists.copiedDirs || p in lists.skipped ::
              exists v :: v in visits && v.path == p
    ensures forall v | v in visits ::
              match v.item
              case FileItem(_) =>
                if v.path in before then v.path in lists.skipped
                else v.path in lists.copiedFiles <==> v.path in after
              case DirItem =>
                v.path in before || (v.path in lists.copiedDirs <==> v.path in after)
  {
    CreatedHasNoRepeats(visits, false, before, after);
    CreatedHasNoRepeats(visits, true, before, after);
    KeptHasNoRepeats(visits, before);
    forall p ensures
        (p in lists.copiedFiles <==>
           exists v :: v in visits && v.path == p && v.item.DirItem? == false && p in after && p !in before) &&
        (p in lists.copiedDirs <==>
           exists v :: v in visits && v.path == p && v.item.DirItem? == true && p in after && p !in before) &&
        (p in lists.skipped <==> exists v :: v in visits && v.path == p && v.item.FileItem? && p in before) {
      CreatedLists(visits, false, before, after, p);
      CreatedLists(visits, true, before, after, p);
      KeptLists(visits, before, p);
    }
    OneItemPerPath(visits);
  }

  lemma OneItemPerPath(visits: seq<Visit>)
    requires DistinctPaths(visits)
    ensures forall v, w | v in visits && w in visits && v.path == w.path :: v == w
  {
    forall v, w | v in visits && w in visits && v.path == w.path ensures v == w {
      var i :| 0 <= i < |visits| && visits[i] == v;
      var j :| 0 <= j < |visits| && visits[j] == w;
      assert i == j;
    }
  }

  function FilesOf(visits: seq<Visit>): seq<Visit> {
    if visits == [] then []
    else
      var last := visits[|visits| - 1];
      var files := FilesOf(visits[..|visits| - 1]);
      if last.item.FileItem? then files + [last] else files
  }

  lemma {:induction false} AllKept(visits: seq<Visit>, before: Tree)
    requires Complete(visits, before)
    ensures Kept(visits, before) == FilesOf(visits)
    decreases |visits|
  {
    if visits != [] {
      assert visits[|visits| - 1] in visits;
      AllKept(visits[..|visits| - 1], before);
    }
  }

  /** After a run without errors, a second run creates nothing, reports no error, and skips
      every visited file. */
  lemma SecondRunIdle(visits: seq<Visit>, before: Tree, after: Tree, lists: Lists, again: Tree, lists': Lists)
    requires Accounted(visits, before, after, lists) && lists.errors == 0
    requires Accounted(visits, after, again, lists')
    ensures again == after
    ensures lists' == Lists([], [], PathsOf(FilesOf(visits)), 0)
  {
    forall p | p in again ensures p in after {
      if p !in after {
        assert false;
      }
    }
    assert again.Keys == after.Keys;
    NothingCreated(visits, false, after);
    NothingCreated(visits, true, after);
    AllKept(visits, after);
  }

  /** Without errors, the destination is what it was plus exactly the wanted paths that were
      absent, with the source's content; with errors it is somewhere in between. */
  lemma MergeIsWanted(rules: Rules, entries: seq<Entry>, before: Tree, after: Tree, lists: Lists)
    requires UniqueNamesAll(entries) && Accounted(VisitsAll(rules, entries, []), before, after, lists)
    ensures forall p | p in before :: p in after && after[p] == before[p]
    ensures forall p | p in after && p !in before :: Wanted(rules, entries, p, after[p])
    ensures lists.errors == 0 <==> forall p, item | Wanted(rules, entries, p, item) :: p in after
  {
    var visits := VisitsAll(rules, entries, []);
    forall p, item ensures Visit(p, item) in visits <==> Wanted(rules, entries, p, item) {
      VisitsAreWanted(rules, entries, p, item);
    }
    if forall p, item | Wanted(rules, entries, p, item) :: p in after {
      forall v | v in visits ensures v.path in after {
        assert v == Visit(v.path, v.item);
        assert Wanted(rules, entries, v.path, v.item);
      }
    }
  }

  /** A wanted path below a file of the destination: it cannot be brought in without overwriting. */
  ghost predicate Clash(rules: Rules, entries: seq<Entry>, dest: Tree) {
    exists p, item | Wanted(rules, entries, p, item) :: FileAbove(p, dest)
  }

  lemma BlockedIsClash(rules: Rules, entries: seq<Entry>, dest: Tree)
    requires UniqueNamesAll(entries)
    ensures Blocked(VisitsAll(rules, entries, []), dest) <==> Clash(rules, entries, dest)
  {
    var visits := VisitsAll(rules, entries, []);
    if v :| v in visits && FileAbove(v.path, dest) {
      VisitsAreWanted(rules, entries, v.path, v.item);
      assert v == Visit(v.path, v.item);
    }
    if p, item :| Wanted(rules, entries, p, item) && FileAbove(p, dest) {
      VisitsAreWanted(rules, entries, p, item);
      assert FileAbove(Visit(p, item).path, dest);
    }
  }
}
