/** The two directory trees that import_files.py merges, and what it is meant to look at:
    every path of the source none of whose prefixes is excluded. */
module SourceTree {
  import opened Wrappers

  type Name = string
  type Path = seq<Name>

  /** The source: a finite tree of files and directories. */
  datatype Node = File(content: string) | Dir(entries: seq<Entry>)
  datatype Entry = Entry(name: Name, node: Node)

  /** What stands at one path of the destination. */
  datatype Item = FileItem(content: string) | DirItem

  /** The destination below its root, which is a directory and has no entry of its own. */
  type Tree = map<Path, Item>

  /** What is excluded: names of directories, and of files, and the suffixes that the globs of
      the two tables stand for (each glob is a `*` and a suffix). */
  datatype Rules = Rules(dirs: set<Name>, dirSuffixes: seq<string>, files: set<Name>, fileSuffixes: seq<string>)

  /** EXCLUDE_DIRS and EXCLUDE_FILES. A glob in the table of directories is also a literal name. */
  const RULES := Rules(
    {".git", "__pycache__", ".pytest_cache", ".mypy_cache", ".ruff_cache", "dist", "build", "*.egg-info",
     ".eggs", "venv", "env", ".venv", ".env"},
    [".egg-info"],
    {".DS_Store", ".coverage", "coverage.xml"},
    [".pyc", ".pyo", ".pyd", ".log"])

  predicate EndsWith(name: string, suffix: string) {
    |suffix| <= |name| && name[|name| - |suffix|..] == suffix
  }

  predicate EndsWithAny(name: string, suffixes: seq<string>) {
    exists i | 0 <= i < |suffixes| :: EndsWith(name, suffixes[i])
  }

  /** should_exclude */
  predicate ShouldExclude(rules: Rules, isDir: bool, relative: Path)
    requires relative != []
  {
    var name := relative[|relative| - 1];
    || (exists i | 0 <= i < |relative| :: relative[i] in rules.dirs)
    || (isDir && EndsWithAny(name, rules.dirSuffixes))
    || (!isDir && (EndsWithAny(name, rules.fileSuffixes) || name in rules.files))
  }

  /** No directory lists a name twice. */
  predicate UniqueNames(node: Node)
    decreases node, 1
  {
    node.Dir? ==> UniqueNamesAll(node.entries)
  }

  predicate UniqueNamesAll(entries: seq<Entry>)
    decreases entries, 0
  {
    && (forall i, j | 0 <= i < j < |entries| :: entries[i].name != entries[j].name)
    && (forall i | 0 <= i < |entries| :: UniqueNames(entries[i].node))
  }

  function ItemOf(node: Node): Item {
    match node
    case File(content) => FileItem(content)
    case Dir(_) => DirItem
  }

  datatype Visit = Visit(path: Path, item: Item)

  /** The nodes that the recursion reaches, in its order: a pruned directory hides all below it. */
  function Visits(rules: Rules, node: Node, path: Path): seq<Visit>
    requires path != []
    decreases node, 1
  {
    if ShouldExclude(rules, node.Dir?, path) then []
    else [Visit(path, ItemOf(node))] + if node.Dir? then VisitsAll(rules, node.entries, path) else []
  }

  function VisitsAll(rules: Rules, entries: seq<Entry>, path: Path): seq<Visit>
    decreases entries, 0
  {
    if entries == [] then []
    else
      var last := entries[|entries| - 1];
      VisitsAll(rules, entries[..|entries| - 1], path) + Visits(rules, last.node, path + [last.name])
  }

  // ----- pruning agrees with a test of each path by itself

  function Find(entries: seq<Entry>, name: Name): (r: Option<Node>)
    ensures r.Some? ==> exists i :: 0 <= i < |entries| && entries[i] == Entry(name, r.value)
    ensures r.None? ==> forall i | 0 <= i < |entries| :: entries[i].name != name
  {
    if entries == [] then None
    else if entries[|entries| - 1].name == name then
      assert entries[|entries| - 1] == Entry(name, entries[|entries| - 1].node);
      Some(entries[|entries| - 1].node)
    else Find(entries[..|entries| - 1], name)
  }

  /** The node at a path below `node`, excluded or not. */
  function Lookup(node: Node, below: Path): Option<Node>
    decreases |below|
  {
    if below == [] then Some(node)
    else if node.File? then None
    else
      match Find(node.entries, below[0])
      case None => None
      case Some(child) => Lookup(child, below[1..])
  }

  /** Every prefix of the path, down from `path`, leads to a node that is not excluded. */
  predicate AllowedDownTo(rules: Rules, node: Node, path: Path, below: Path)
    requires path != []
    decreases |below|
  {
    && !ShouldExclude(rules, node.Dir?, path)
    && (below == [] ||
        (node.Dir? && Find(node.entries, below[0]).Some? &&
         AllowedDownTo(rules, Find(node.entries, below[0]).value, path + [below[0]], below[1..])))
  }

  /** The same, one prefix at a time: no prefix that leads to a node is excluded by itself. */
  predicate NoPrefixExcluded(rules: Rules, node: Node, path: Path, below: Path)
    requires path != []
  {
    forall n | 0 <= n <= |below| && Lookup(node, below[..n]).Some? ::
      !ShouldExclude(rules, Lookup(node, below[..n]).value.Dir?, path + below[..n])
  }

  lemma {:induction false} AllowedIsPrefixWise(rules: Rules, node: Node, path: Path, below: Path)
    requires path != []
    ensures AllowedDownTo(rules, node, path, below) <==>
            Lookup(node, below).Some? && NoPrefixExcluded(rules, node, path, below)
    decreases |below|
  {
    assert below[..0] == [] && path + [] == path && below[..|below|] == below;
    if below != [] && node.Dir? && Find(node.entries, below[0]).Some? {
      var child := Find(node.entries, below[0]).value;
      var path', below' := path + [below[0]], below[1..];
      AllowedIsPrefixWise(rules, child, path', below');
      forall n | 0 <= n <= |below'|
        ensures Lookup(node, below[..n + 1]) == Lookup(child, below'[..n])
        ensures path + below[..n + 1] == path' + below'[..n]
      {
        assert below[..n + 1][1..] == below'[..n];
      }
      if NoPrefixExcluded(rules, node, path, below) {
        forall n | 0 <= n <= |below'| && Lookup(child, below'[..n]).Some?
          ensures !ShouldExclude(rules, Lookup(child, below'[..n]).value.Dir?, path' + below'[..n])
        {
          assert Lookup(node, below[..n + 1]).Some?;
        }
      }
      if NoPrefixExcluded(rules, child, path', below') && !ShouldExclude(rules, node.Dir?, path) {
        forall n | 0 <= n <= |below| && Lookup(node, below[..n]).Some?
          ensures !ShouldExclude(rules, Lookup(node, below[..n]).value.Dir?, path + below[..n])
        {
          if n > 0 {
            assert Lookup(child, below'[..n - 1]).Some?;
          }
        }
      }
    }
  }

  /** Visits stay below the path they start from. */
  lemma {:induction false} VisitsBelow(rules: Rules, node: Node, path: Path)
    requires path != []
    ensures forall v | v in Visits(rules, node, path) :: path <= v.path
    decreases node, 1
  {
    if !ShouldExclude(rules, node.Dir?, path) && node.Dir? {
      VisitsAllBelow(rules, node.entries, path);
    }
  }

  lemma {:induction false} VisitsAllBelow(rules: Rules, entries: seq<Entry>, path: Path)
    ensures forall v | v in VisitsAll(rules, entries, path) ::
              |path| < |v.path| && path <= v.path && exists i :: 0 <= i < |entries| && entries[i].name == v.path[|path|]
    decreases entries, 0
  {
    if entries != [] {
      var last := entries[|entries| - 1];
      VisitsAllBelow(rules, entries[..|entries| - 1], path);
      VisitsBelow(rules, last.node, path + [last.name]);
      forall v | v in VisitsAll(rules, entries, path)
        ensures |path| < |v.path| && path <= v.path
        ensures exists i :: 0 <= i < |entries| && entries[i].name == v.path[|path|]
      {
        if v in Visits(rules, last.node, path + [last.name]) {
          assert v.path[..|path| + 1] == path + [last.name];
          assert last.name == v.path[|path|];
        } else {
          var i :| 0 <= i < |entries| - 1 && entries[..|entries| - 1][i].name == v.path[|path|];
          assert entries[i].name == v.path[|path|];
        }
      }
    }
  }

  /** The recursion visits a path exactly when it leads to a node of the source and none of its
      prefixes is excluded, and sees that node there. */
  lemma {:induction false} VisitsAreAllowed(rules: Rules, node: Node, path: Path, below: Path, item: Item)
    requires path != [] && UniqueNames(node)
    ensures Visit(path + below, item) in Visits(rules, node, path) <==>
            AllowedDownTo(rules, node, path, below) && Lookup(node, below).Some? &&
            ItemOf(Lookup(node, below).value) == item
    decreases node, 1
  {
    var v := Visit(path + below, item);
    if !ShouldExclude(rules, node.Dir?, path) {
      assert below == [] <==> path + below == path;
      if node.Dir? {
        VisitsAllBelow(rules, node.entries, path);
        if below != [] {
          VisitsAllAreAllowed(rules, node.entries, path, below, item);
        }
      }
    }
  }

  lemma {:induction false} VisitsAllAreAllowed(rules: Rules, entries: seq<Entry>, path: Path, below: Path, item: Item)
    requires below != [] && UniqueNamesAll(entries)
    ensures Visit(path + below, item) in VisitsAll(rules, entries, path) <==>
            Find(entries, below[0]).Some? &&
            var child := Find(entries, below[0]).value;
            AllowedDownTo(rules, child, path + [below[0]], below[1..]) && Lookup(child, below[1..]).Some? &&
            ItemOf(Lookup(child, below[1..]).value) == item
    decreases entries, 0
  {
    if entries != [] {
      var last, front := entries[|entries| - 1], entries[..|entries| - 1];
      var v := Visit(path + below, item);
      assert v.path[|path|] == below[0];
      if last.name == below[0] {
        assert path + below == (path + [last.name]) + below[1..];
        VisitsAreAllowed(rules, last.node, path + [last.name], below[1..], item);
        VisitsAllBelow(rules, front, path);
      } else {
        VisitsBelow(rules, last.node, path + [last.name]);
        assert (path + [last.name])[|path|] == last.name;
        VisitsAllAreAllowed(rules, front, path, below, item);
      }
    }
  }

  /** A path of the source below its root, and the tests it has to pass one prefix at a time. */
  predicate Wanted(rules: Rules, entries: seq<Entry>, path: Path, item: Item) {
    var root := Dir(entries);
    && path != [] && Lookup(root, path).Some? && ItemOf(Lookup(root, path).value) == item
    && forall n | 1 <= n <= |path| && Lookup(root, path[..n]).Some? ::
         !ShouldExclude(rules, Lookup(root, path[..n]).value.Dir?, path[..n])
  }

  /** The pruning recursion over the source reaches exactly the paths that pass those tests. */
  lemma VisitsAreWanted(rules: Rules, entries: seq<Entry>, path: Path, item: Item)
    requires UniqueNamesAll(entries)
    ensures Visit(path, item) in VisitsAll(rules, entries, []) <==> Wanted(rules, entries, path, item)
  {
    VisitsAllBelow(rules, entries, []);
    if path != [] && Find(entries, path[0]).Some? {
      var root, child, first, below := Dir(entries), Find(entries, path[0]).value, [path[0]], path[1..];
      VisitsAllAreAllowed(rules, entries, [], path, item);
      assert [] + path == path && [] + first == first;
      AllowedIsPrefixWise(rules, child, first, below);
      forall n | 0 <= n <= |below|
        ensures Lookup(root, path[..n + 1]) == Lookup(child, below[..n]) && path[..n + 1] == first + below[..n]
      {
        assert path[..n + 1][1..] == below[..n];
      }
      assert path[..|path|] == path && below[..|below|] == below;
      if Wanted(rules, entries, path, item) {
        forall n | 0 <= n <= |below| && Lookup(child, below[..n]).Some?
          ensures !ShouldExclude(rules, Lookup(child, below[..n]).value.Dir?, first + below[..n])
        {
          assert Lookup(root, path[..n + 1]).Some?;
        }
      }
      if NoPrefixExcluded(rules, child, first, below) {
        forall n | 1 <= n <= |path| && Lookup(root, path[..n]).Some?
          ensures !ShouldExclude(rules, Lookup(root, path[..n]).value.Dir?, path[..n])
        {
          assert Lookup(child, below[..n - 1]).Some?;
        }
      }
    } else if path != [] {
      VisitsAllAreAllowed(rules, entries, [], path, item);
      assert [] + path == path;
    }
  }

  // ----- no path is visited twice

  predicate DistinctPaths(visits: seq<Visit>) {
    forall i, j | 0 <= i < j < |visits| :: visits[i].path != visits[j].path
  }

  predicate DisjointPaths(a: seq<Visit>, b: seq<Visit>) {
    forall v, w | v in a && w in b :: v.path != w.path
  }

  lemma DistinctConcat(a: seq<Visit>, b: seq<Visit>)
    requires DistinctPaths(a) && DistinctPaths(b) && DisjointPaths(a, b)
    ensures DistinctPaths(a + b)
  {
    var c := a + b;
    forall i, j | 0 <= i < j < |c| ensures c[i].path != c[j].path {
      if i < |a| <= j {
        assert a[i] in a && b[j - |a|] in b;
      }
    }
  }

  /** Siblings are visited at different paths. */
  lemma SiblingsDisjoint(rules: Rules, entries: seq<Entry>, path: Path, last: Entry)
    requires forall i | 0 <= i < |entries| :: entries[i].name != last.name
    ensures DisjointPaths(VisitsAll(rules, entries, path), Visits(rules, last.node, path + [last.name]))
  {
    VisitsAllBelow(rules, entries, path);
    VisitsBelow(rules, last.node, path + [last.name]);
    forall v, w | v in VisitsAll(rules, entries, path) && w in Visits(rules, last.node, path + [last.name])
      ensures v.path != w.path
    {
      assert w.path[..|path| + 1] == path + [last.name];
      assert w.path[|path|] == last.name;
    }
  }

  lemma {:induction false} VisitsDistinct(rules: Rules, node: Node, path: Path)
    requires path != [] && UniqueNames(node)
    ensures DistinctPaths(Visits(rules, node, path))
    decreases node, 1
  {
    if !ShouldExclude(rules, node.Dir?, path) && node.Dir? {
      VisitsAllDistinct(rules, node.entries, path);
      VisitsAllBelow(rules, node.entries, path);
      DistinctConcat([Visit(path, DirItem)], VisitsAll(rules, node.entries, path));
    }
  }

  lemma {:induction false} VisitsAllDistinct(rules: Rules, entries: seq<Entry>, path: Path)
    requires UniqueNamesAll(entries)
    ensures DistinctPaths(VisitsAll(rules, entries, path))
    decreases entries, 0
  {
    if entries != [] {
      var last, front := entries[|entries| - 1], entries[..|entries| - 1];
      VisitsAllDistinct(rules, front, path);
      VisitsDistinct(rules, last.node, path + [last.name]);
      SiblingsDisjoint(rules, front, path, last);
      DistinctConcat(VisitsAll(rules, front, path), Visits(rules, last.node, path + [last.name]));
    }
  }

  // ----- why pruning and not a test of each path

  const EGG_INFO: Name := "x.egg-info"
  const PKG_INFO: Name := "PKG-INFO"

  lemma EggInfoNames()
    ensures EndsWith(EGG_INFO, ".egg-info") && EGG_INFO !in RULES.dirs
    ensures PKG_INFO !in RULES.dirs && PKG_INFO !in RULES.files && !EndsWithAny(PKG_INFO, RULES.fileSuffixes)
  {
  }

  /** A file in an egg-info directory is not excluded by its own path, and still never visited. */
  lemma EggInfoIsPruned(content: string)
    ensures var source := [Entry(EGG_INFO, Dir([Entry(PKG_INFO, File(content))]))];
            && !ShouldExclude(RULES, false, [EGG_INFO, PKG_INFO])
            && Lookup(Dir(source), [EGG_INFO, PKG_INFO]) == Some(File(content))
            && VisitsAll(RULES, source, []) == []
  {
    EggInfoNames();
    var inner := [Entry(PKG_INFO, File(content))];
    var source := [Entry(EGG_INFO, Dir(inner))];
    assert Find(inner, PKG_INFO) == Some(File(content)) && Find(source, EGG_INFO) == Some(Dir(inner));
    assert Lookup(Dir(inner), [PKG_INFO]) == Lookup(File(content), []);
    assert RULES.dirSuffixes[0] == ".egg-info";
    assert ShouldExclude(RULES, true, [] + [EGG_INFO]);
    assert source[..0] == [];
    assert [EGG_INFO, PKG_INFO][1..] == [PKG_INFO] && [PKG_INFO][1..] == [];
  }
}
