/**
  The documentation tree of the translation server (translate-tool/server.mjs): the
  filter over a repository's git tree listing, `buildTreeFromFiles`, which nests each
  file under its path relative to the first documentation root it lies under, and the
  recursive sort that lists directories before files and each group by name.

  `localeCompare` is a parameter: `le(a, b)` stands for `a.localeCompare(b) <= 0`, which
  the sort only needs to be a total preorder.
 */
module FileTree {
  import opened Strings

  // ---------------------------------------------------------------------------------
  // The listing filter

  /** An entry of a git tree listing: its path and its type (`blob`, `tree`, …). */
  datatype Entry = Entry(path: string, kind: string)

  /** `/p$/i` for a literal `p`: `s` ends with `p`, ASCII letters compared without case. */
  predicate EndsWithIgnoreCase(s: string, p: string) {
    |p| <= |s| && HasAtIgnoreCase(s, |s| - |p|, p)
  }

  /** `/\.(md|topic)$/i` */
  predicate DocFile(path: string) {
    EndsWithIgnoreCase(path, ".md") || EndsWithIgnoreCase(path, ".topic")
  }

  /** `path.startsWith(dp + '/')`: strictly inside the root `dp`. */
  predicate Under(path: string, dp: string) {
    StartsWith(path, dp + "/")
  }

  predicate UnderSome(path: string, docPaths: seq<string>) {
    exists k :: 0 <= k < |docPaths| && Under(path, docPaths[k])
  }

  predicate Wanted(e: Entry, docPaths: seq<string>) {
    e.kind == "blob" && DocFile(e.path) && UnderSome(e.path, docPaths)
  }

  /** `tree.filter(…)`: exactly the wanted entries stay, each as often as it was listed. */
  function Listed(tree: seq<Entry>, docPaths: seq<string>): (r: seq<Entry>)
    ensures forall e :: e in r <==> e in tree && Wanted(e, docPaths)
    ensures forall e :: Wanted(e, docPaths) ==> multiset(r)[e] == multiset(tree)[e]
    ensures |r| <= |tree|
  {
    if tree == [] then []
    else
      assert tree == [tree[0]] + tree[1..];
      (if Wanted(tree[0], docPaths) then [tree[0]] else []) + Listed(tree[1..], docPaths)
  }

  /** A root does not hold itself, nor a sibling whose name merely starts with the root's. */
  lemma UnderIsStrict(dp: string, c: char, rest: string)
    requires c != '/'
    ensures !Under(dp, dp)
    ensures !Under(dp + [c] + rest, dp)
  {
    if Under(dp + [c] + rest, dp) {
      HasAtChar(dp + [c] + rest, 0, dp + "/", |dp|);
    }
  }

  // ---------------------------------------------------------------------------------
  // Placing files

  /** `docPaths.find(dp => path.startsWith(dp + '/'))`, as an index. */
  function FirstUnder(path: string, docPaths: seq<string>): (r: Option<nat>)
    ensures r.Some? ==> r.value < |docPaths| && Under(path, docPaths[r.value])
    ensures r.Some? ==> forall j :: 0 <= j < r.value ==> !Under(path, docPaths[j])
    ensures r.None? <==> !UnderSome(path, docPaths)
    decreases |docPaths|
  {
    if docPaths == [] then None
    else if Under(path, docPaths[0]) then Some(0)
    else
      match FirstUnder(path, docPaths[1..])
      case None => None
      case Some(k) => Some(k + 1)
  }

  /** `if (!matchDP) continue` lets a file through when the first root it lies under is
      found and is not the empty string, which JavaScript treats as false. */
  predicate Kept(path: string, docPaths: seq<string>) {
    FirstUnder(path, docPaths).Some? && docPaths[FirstUnder(path, docPaths).value] != ""
  }

  /** `path.slice(matchDP.length + 1).split('/')` for a file that is kept: the pieces that
      joined with `/` and put after the first root and its slash give the path back. */
  function RelParts(path: string, docPaths: seq<string>): (r: Option<seq<string>>)
    ensures r.Some? <==> Kept(path, docPaths)
    ensures r.Some? ==> |r.value| >= 1 && forall k :: 0 <= k < |r.value| ==> '/' !in r.value[k]
    ensures r.Some? ==> FirstUnder(path, docPaths).Some?
    ensures r.Some? ==> path == docPaths[FirstUnder(path, docPaths).value] + "/" + Join(r.value, '/')
  {
    match FirstUnder(path, docPaths)
    case None => None
    case Some(k) =>
      if docPaths[k] == "" then None
      else
        var dp := docPaths[k] + "/";
        HasAtSlice(path, 0, dp);
        assert path == dp + path[|dp|..];
        JoinSplit(path[|dp|..], '/');
        Some(Split(path[|dp|..], '/'))
  }

  /** With non-empty roots, as the configured ones are, a file is kept exactly when it lies
      under some root. */
  lemma NonEmptyRootsKeep(path: string, docPaths: seq<string>)
    requires forall k :: 0 <= k < |docPaths| ==> docPaths[k] != ""
    ensures Kept(path, docPaths) <==> UnderSome(path, docPaths)
  {
  }

  /** A file whose first root is the empty string is skipped although it lies under it:
      with the roots `[""]`, `/a.md` is left out of the tree. */
  lemma EmptyRootSkipped(tree: seq<Node>)
    ensures UnderSome("/a.md", [""])
    ensures Place(tree, "/a.md", [""]) == tree
  {
    assert Under("/a.md", [""][0]);
  }

  /** A node of the tree: a file with its full path, or a directory. */
  datatype Node = File(name: string, path: string) | Dir(name: string, children: seq<Node>)

  predicate IsDir(n: Node, name: string) {
    n.Dir? && n.name == name
  }

  /** `current.find(n => n.name === name && n.type === 'directory')`, as an index. */
  function FindDir(nodes: seq<Node>, name: string): (r: Option<nat>)
    ensures r.Some? ==> r.value < |nodes| && IsDir(nodes[r.value], name)
    ensures r.None? ==> forall j :: 0 <= j < |nodes| ==> !IsDir(nodes[j], name)
    decreases |nodes|
  {
    if nodes == [] then None
    else if IsDir(nodes[0], name) then Some(0)
    else
      match FindDir(nodes[1..], name)
      case None => None
      case Some(k) => Some(k + 1)
  }

  /** The inner loop: walk down `parts`, reusing the directory of each name or adding one,
      and add the file under the last part. */
  function Insert(nodes: seq<Node>, parts: seq<string>, path: string): seq<Node>
    requires |parts| >= 1
    decreases |parts|
  {
    if |parts| == 1 then nodes + [File(parts[0], path)]
    else
      match FindDir(nodes, parts[0])
      case Some(k) => nodes[k := Dir(parts[0], Insert(nodes[k].children, parts[1..], path))]
      case None => nodes + [Dir(parts[0], Insert([], parts[1..], path))]
  }

  /** One iteration of the outer loop. */
  function Place(tree: seq<Node>, path: string, docPaths: seq<string>): seq<Node> {
    match RelParts(path, docPaths)
    case None => tree
    case Some(parts) => Insert(tree, parts, path)
  }

  /** The tree holds a file `path` at the place `parts` names. */
  predicate Has(nodes: seq<Node>, parts: seq<string>, path: string)
    decreases nodes
  {
    |parts| >= 1 &&
    exists k :: 0 <= k < |nodes| &&
      if |parts| == 1 then nodes[k] == File(parts[0], path)
      else nodes[k].Dir? && nodes[k].name == parts[0] && Has(nodes[k].children, parts[1..], path)
  }

  /** The paths of the files in a tree, at every depth. */
  function FilePaths(nodes: seq<Node>): multiset<string>
    decreases nodes
  {
    if nodes == [] then multiset{}
    else
      (match nodes[0]
       case File(_, p) => multiset{p}
       case Dir(_, c) => FilePaths(c)) + FilePaths(nodes[1..])
  }

  /** How many directories named `name` one level holds. */
  function DirCount(nodes: seq<Node>, name: string): nat {
    if nodes == [] then 0
    else (if IsDir(nodes[0], name) then 1 else 0) + DirCount(nodes[1..], name)
  }

  /** Each level holds at most one directory of each name. */
  ghost predicate UniqueTree(nodes: seq<Node>)
    decreases nodes
  {
    (forall name :: DirCount(nodes, name) <= 1) &&
    forall k :: 0 <= k < |nodes| && nodes[k].Dir? ==> UniqueTree(nodes[k].children)
  }

  lemma {:induction false} FilePathsAppend(a: seq<Node>, b: seq<Node>)
    ensures FilePaths(a + b) == FilePaths(a) + FilePaths(b)
    decreases |a|
  {
    if a != [] {
      assert (a + b)[0] == a[0];
      assert (a + b)[1..] == a[1..] + b;
      FilePathsAppend(a[1..], b);
    } else {
      assert a + b == b;
    }
  }

  lemma {:induction false} DirCountAppend(a: seq<Node>, b: seq<Node>, name: string)
    ensures DirCount(a + b, name) == DirCount(a, name) + DirCount(b, name)
    decreases |a|
  {
    if a != [] {
      assert (a + b)[0] == a[0];
      assert (a + b)[1..] == a[1..] + b;
      DirCountAppend(a[1..], b, name);
    } else {
      assert a + b == b;
    }
  }

  /** Replacing a node by one holding `extra` more files adds `extra` to the paths. */
  lemma FilePathsUpdate(nodes: seq<Node>, k: nat, x: Node, extra: multiset<string>)
    requires k < |nodes| && FilePaths([x]) == FilePaths([nodes[k]]) + extra
    ensures FilePaths(nodes[k := x]) == FilePaths(nodes) + extra
  {
    assert nodes == nodes[..k] + [nodes[k]] + nodes[k + 1..];
    assert nodes[k := x] == nodes[..k] + [x] + nodes[k + 1..];
    FilePathsAppend(nodes[..k] + [nodes[k]], nodes[k + 1..]);
    FilePathsAppend(nodes[..k], [nodes[k]]);
    FilePathsAppend(nodes[..k] + [x], nodes[k + 1..]);
    FilePathsAppend(nodes[..k], [x]);
  }

  /** Replacing a directory by one of the same name keeps every count. */
  lemma DirCountUpdate(nodes: seq<Node>, k: nat, x: Node, name: string)
    requires k < |nodes| && x.Dir? == nodes[k].Dir? && x.name == nodes[k].name
    ensures DirCount(nodes[k := x], name) == DirCount(nodes, name)
  {
    assert nodes == nodes[..k] + [nodes[k]] + nodes[k + 1..];
    assert nodes[k := x] == nodes[..k] + [x] + nodes[k + 1..];
    DirCountAppend(nodes[..k] + [nodes[k]], nodes[k + 1..], name);
    DirCountAppend(nodes[..k], [nodes[k]], name);
    DirCountAppend(nodes[..k] + [x], nodes[k + 1..], name);
    DirCountAppend(nodes[..k], [x], name);
  }

  lemma {:induction false} DirCountNone(nodes: seq<Node>, name: string)
    requires forall j :: 0 <= j < |nodes| ==> !IsDir(nodes[j], name)
    ensures DirCount(nodes, name) == 0
    decreases |nodes|
  {
    if nodes != [] {
      DirCountNone(nodes[1..], name);
    }
  }

  /** Inserting a file adds its path to the tree, once. */
  lemma {:induction false} InsertPaths(nodes: seq<Node>, parts: seq<string>, path: string)
    requires |parts| >= 1
    ensures FilePaths(Insert(nodes, parts, path)) == FilePaths(nodes) + multiset{path}
    decreases |parts|
  {
    if |parts| == 1 {
      var x := File(parts[0], path);
      FilePathsAppend(nodes, [x]);
      assert FilePaths([x]) == multiset{path};
    } else {
      match FindDir(nodes, parts[0])
      case Some(k) =>
        var c := nodes[k].children;
        InsertPaths(c, parts[1..], path);
        var x := Dir(parts[0], Insert(c, parts[1..], path));
        assert FilePaths([x]) == FilePaths(c) + multiset{path};
        assert FilePaths([nodes[k]]) == FilePaths(c);
        FilePathsUpdate(nodes, k, x, multiset{path});
        assert Insert(nodes, parts, path) == nodes[k := x];
      case None =>
        InsertPaths([], parts[1..], path);
        var x := Dir(parts[0], Insert([], parts[1..], path));
        assert FilePaths([x]) == multiset{path};
        FilePathsAppend(nodes, [x]);
        assert Insert(nodes, parts, path) == nodes + [x];
    }
  }

  /** Inserting a file places it where its parts say. */
  lemma {:induction false} InsertPlaces(nodes: seq<Node>, parts: seq<string>, path: string)
    requires |parts| >= 1
    ensures Has(Insert(nodes, parts, path), parts, path)
    decreases |parts|
  {
    var r := Insert(nodes, parts, path);
    if |parts| == 1 {
      assert r[|nodes|] == File(parts[0], path);
    } else {
      match FindDir(nodes, parts[0])
      case Some(k) =>
        InsertPlaces(nodes[k].children, parts[1..], path);
        assert r[k].Dir? && r[k].name == parts[0];
      case None =>
        InsertPlaces([], parts[1..], path);
        assert r[|nodes|].Dir? && r[|nodes|].name == parts[0];
    }
  }

  /** Inserting a file keeps every file already placed where it was. */
  lemma {:induction false} InsertKeeps(nodes: seq<Node>, parts: seq<string>, path: string,
                                       ps: seq<string>, p: string)
    requires |parts| >= 1 && Has(nodes, ps, p)
    ensures Has(Insert(nodes, parts, path), ps, p)
    decreases |parts|
  {
    var r := Insert(nodes, parts, path);
    var j :| 0 <= j < |nodes| &&
      if |ps| == 1 then nodes[j] == File(ps[0], p)
      else nodes[j].Dir? && nodes[j].name == ps[0] && Has(nodes[j].children, ps[1..], p);
    if |parts| == 1 {
      assert r[j] == nodes[j];
    } else {
      match FindDir(nodes, parts[0])
      case Some(k) =>
        if j != k {
          assert r[j] == nodes[j];
        } else if |ps| > 1 {
          InsertKeeps(nodes[k].children, parts[1..], path, ps[1..], p);
          assert r[j].Dir? && r[j].name == ps[0];
        } else {
          assert false;
        }
      case None =>
        assert r[j] == nodes[j];
    }
  }

  /** Inserting a file reuses a directory of the name it needs: no level gains a second
      directory of one name. */
  lemma {:induction false} InsertUnique(nodes: seq<Node>, parts: seq<string>, path: string)
    requires |parts| >= 1 && UniqueTree(nodes)
    ensures UniqueTree(Insert(nodes, parts, path))
    decreases |parts|
  {
    var r := Insert(nodes, parts, path);
    if |parts| == 1 {
      forall name ensures DirCount(r, name) <= 1 {
        DirCountAppend(nodes, [File(parts[0], path)], name);
      }
      forall k | 0 <= k < |r| && r[k].Dir? ensures UniqueTree(r[k].children) {
        assert r[k] == nodes[k];
      }
    } else {
      match FindDir(nodes, parts[0])
      case Some(k) =>
        InsertUnique(nodes[k].children, parts[1..], path);
        var x := Dir(parts[0], Insert(nodes[k].children, parts[1..], path));
        forall name ensures DirCount(r, name) <= 1 {
          DirCountUpdate(nodes, k, x, name);
        }
        forall j | 0 <= j < |r| && r[j].Dir? ensures UniqueTree(r[j].children) {
          if j != k {
            assert r[j] == nodes[j];
          }
        }
      case None =>
        InsertUnique([], parts[1..], path);
        var x := Dir(parts[0], Insert([], parts[1..], path));
        forall name ensures DirCount(r, name) <= 1 {
          DirCountAppend(nodes, [x], name);
          if name == parts[0] {
            DirCountNone(nodes, name);
          }
        }
        forall j | 0 <= j < |r| && r[j].Dir? ensures UniqueTree(r[j].children) {
          if j < |nodes| {
            assert r[j] == nodes[j];
          }
        }
    }
  }

  // ---------------------------------------------------------------------------------
  // Sorting

  /** `le` is total and transitive, as a consistent comparator is. */
  ghost predicate TotalPreorder(le: (string, string) -> bool) {
    (forall x, y :: le(x, y) || le(y, x)) &&
    (forall x, y, z :: le(x, y) && le(y, z) ==> le(x, z))
  }

  /** The comparator: `a` may come before `b` when it is a directory and `b` a file, or
      both are of one kind and `a`'s name is not after `b`'s. */
  predicate Comes(a: Node, b: Node, le: (string, string) -> bool) {
    if a.Dir? != b.Dir? then a.Dir? else le(a.name, b.name)
  }

  predicate Sorted(nodes: seq<Node>, le: (string, string) -> bool) {
    forall i, j :: 0 <= i < j < |nodes| ==> Comes(nodes[i], nodes[j], le)
  }

  /** Every level of the tree is sorted. */
  predicate SortedTree(nodes: seq<Node>, le: (string, string) -> bool)
    decreases nodes
  {
    Sorted(nodes, le) &&
    forall k :: 0 <= k < |nodes| && nodes[k].Dir? ==> SortedTree(nodes[k].children, le)
  }

  lemma ComesTotal(a: Node, b: Node, le: (string, string) -> bool)
    requires TotalPreorder(le)
    ensures Comes(a, b, le) || Comes(b, a, le)
  {
    assert le(a.name, b.name) || le(b.name, a.name);
  }

  lemma ComesTransitive(a: Node, b: Node, c: Node, le: (string, string) -> bool)
    requires TotalPreorder(le) && Comes(a, b, le) && Comes(b, c, le)
    ensures Comes(a, c, le)
  {
    if a.Dir? == b.Dir? && b.Dir? == c.Dir? {
      assert le(a.name, b.name) && le(b.name, c.name);
    }
  }

  /** `x` goes before the first node it may come before; later input stays after equal
      earlier input, as the stable `Array.prototype.sort` keeps it. */
  function InsertSorted(x: Node, s: seq<Node>, le: (string, string) -> bool): (r: seq<Node>)
    ensures multiset(r) == multiset(s) + multiset{x}
    ensures |r| == |s| + 1
  {
    if s == [] then [x]
    else if Comes(x, s[0], le) then [x] + s
    else
      assert s == [s[0]] + s[1..];
      [s[0]] + InsertSorted(x, s[1..], le)
  }

  /** `nodes.sort(…)` on one level, as an insertion sort from the back. */
  function SortLevel(s: seq<Node>, le: (string, string) -> bool): (r: seq<Node>)
    ensures multiset(r) == multiset(s)
    ensures |r| == |s|
  {
    if s == [] then []
    else
      assert s == [s[0]] + s[1..];
      InsertSorted(s[0], SortLevel(s[1..], le), le)
  }

  /** Each directory's children sorted, the level itself left in order. */
  function SortEach(nodes: seq<Node>, le: (string, string) -> bool): (r: seq<Node>)
    ensures |r| == |nodes|
    ensures forall k :: 0 <= k < |r| ==> r[k].Dir? == nodes[k].Dir? && r[k].name == nodes[k].name
    ensures forall k :: 0 <= k < |r| && r[k].File? ==> r[k] == nodes[k]
    ensures forall k :: 0 <= k < |r| && r[k].Dir? ==> r[k].children == SortTree(nodes[k].children, le)
    decreases nodes, 0
  {
    seq(|nodes|, k requires 0 <= k < |nodes| =>
      match nodes[k]
      case File(_, _) => nodes[k]
      case Dir(n, c) => Dir(n, SortTree(c, le)))
  }

  /** `sortTree`: the level sorted after each directory's children are. The source sorts
      the level first and then recurses into each directory; the two orders give the same
      tree, because `Comes` reads only `Dir?` and `name`, which `SortEach` keeps at every
      position, so the level is permuted the same way either way. */
  function SortTree(nodes: seq<Node>, le: (string, string) -> bool): seq<Node>
    decreases nodes, 1
  {
    SortLevel(SortEach(nodes, le), le)
  }

  lemma {:induction false} InsertSortedSorted(x: Node, s: seq<Node>, le: (string, string) -> bool)
    requires TotalPreorder(le) && Sorted(s, le)
    ensures Sorted(InsertSorted(x, s, le), le)
    decreases |s|
  {
    var r := InsertSorted(x, s, le);
    if s != [] {
      if Comes(x, s[0], le) {
        forall i, j | 0 <= i < j < |r| ensures Comes(r[i], r[j], le) {
          if i == 0 && j > 1 {
            ComesTransitive(x, s[0], s[j - 1], le);
          }
        }
      } else {
        ComesTotal(x, s[0], le);
        var t := InsertSorted(x, s[1..], le);
        InsertSortedSorted(x, s[1..], le);
        forall j | 0 <= j < |t| ensures Comes(s[0], t[j], le) {
          assert t[j] in multiset(s[1..]) + multiset{x};
          if t[j] != x {
            var m :| 0 <= m < |s[1..]| && s[1..][m] == t[j];
            assert s[m + 1] == t[j];
          }
        }
        assert r == [s[0]] + t;
      }
    }
  }

  lemma {:induction false} SortLevelSorted(s: seq<Node>, le: (string, string) -> bool)
    requires TotalPreorder(le)
    ensures Sorted(SortLevel(s, le), le)
    decreases |s|
  {
    if s != [] {
      SortLevelSorted(s[1..], le);
      InsertSortedSorted(s[0], SortLevel(s[1..], le), le);
    }
  }

  lemma MultisetSwap(a: multiset<string>, x: multiset<string>, b: multiset<string>)
    ensures a + (x + b) == x + (a + b)
  {
  }

  /** Inserting a node into a sorted level adds its paths, nothing else. */
  lemma {:induction false} InsertSortedPaths(x: Node, s: seq<Node>, le: (string, string) -> bool)
    ensures FilePaths(InsertSorted(x, s, le)) == FilePaths([x]) + FilePaths(s)
    decreases |s|
  {
    if s == [] {
    } else if Comes(x, s[0], le) {
      FilePathsAppend([x], s);
    } else {
      InsertSortedPaths(x, s[1..], le);
      PathsBehindHead(x, s, InsertSorted(x, s[1..], le));
    }
  }

  /** The step of `InsertSortedPaths` where the head stays in front. */
  lemma PathsBehindHead(x: Node, s: seq<Node>, t: seq<Node>)
    requires s != [] && FilePaths(t) == FilePaths([x]) + FilePaths(s[1..])
    ensures FilePaths([s[0]] + t) == FilePaths([x]) + FilePaths(s)
  {
    assert s == [s[0]] + s[1..];
    FilePathsAppend([s[0]], s[1..]);
    FilePathsAppend([s[0]], t);
    MultisetSwap(FilePaths([s[0]]), FilePaths([x]), FilePaths(s[1..]));
  }

  /** Inserting a node into a sorted level adds its directory, nothing else. */
  lemma {:induction false} InsertSortedCount(x: Node, s: seq<Node>, le: (string, string) -> bool, name: string)
    ensures DirCount(InsertSorted(x, s, le), name) == DirCount([x], name) + DirCount(s, name)
    decreases |s|
  {
    if s == [] {
    } else if Comes(x, s[0], le) {
      DirCountAppend([x], s, name);
    } else {
      var t := InsertSorted(x, s[1..], le);
      assert InsertSorted(x, s, le) == [s[0]] + t;
      InsertSortedCount(x, s[1..], le, name);
      assert s == [s[0]] + s[1..];
      DirCountAppend([s[0]], s[1..], name);
      DirCountAppend([s[0]], t, name);
    }
  }

  lemma {:induction false} SortLevelKeeps(s: seq<Node>, le: (string, string) -> bool, name: string)
    ensures FilePaths(SortLevel(s, le)) == FilePaths(s)
    ensures DirCount(SortLevel(s, le), name) == DirCount(s, name)
    decreases |s|
  {
    if s != [] {
      SortLevelKeeps(s[1..], le, name);
      InsertSortedPaths(s[0], SortLevel(s[1..], le), le);
      InsertSortedCount(s[0], SortLevel(s[1..], le), le, name);
      assert s == [s[0]] + s[1..];
      FilePathsAppend([s[0]], s[1..]);
      DirCountAppend([s[0]], s[1..], name);
    }
  }

  lemma {:induction false} SortEachCount(nodes: seq<Node>, le: (string, string) -> bool, name: string)
    ensures DirCount(SortEach(nodes, le), name) == DirCount(nodes, name)
    decreases |nodes|
  {
    if nodes != [] {
      SortEachCount(nodes[1..], le, name);
      assert SortEach(nodes, le)[1..] == SortEach(nodes[1..], le);
    }
  }

  /** Sorting keeps the files of every level. */
  lemma {:induction false} SortTreePaths(nodes: seq<Node>, le: (string, string) -> bool)
    ensures FilePaths(SortTree(nodes, le)) == FilePaths(nodes)
    decreases nodes, 1
  {
    SortEachPaths(nodes, le);
    SortLevelKeeps(SortEach(nodes, le), le, []);
  }

  lemma {:induction false} SortEachPaths(nodes: seq<Node>, le: (string, string) -> bool)
    ensures FilePaths(SortEach(nodes, le)) == FilePaths(nodes)
    decreases nodes, 0
  {
    if nodes != [] {
      var r := SortEach(nodes, le);
      SortEachPaths(nodes[1..], le);
      assert r[1..] == SortEach(nodes[1..], le);
      if nodes[0].Dir? {
        SortTreePaths(nodes[0].children, le);
      }
    }
  }

  /** Sorting orders every level. */
  lemma {:induction false} SortTreeSorted(nodes: seq<Node>, le: (string, string) -> bool)
    requires TotalPreorder(le)
    ensures SortedTree(SortTree(nodes, le), le)
    decreases nodes
  {
    var m := SortEach(nodes, le);
    var r := SortTree(nodes, le);
    SortLevelSorted(m, le);
    forall k | 0 <= k < |r| && r[k].Dir? ensures SortedTree(r[k].children, le) {
      assert r[k] in multiset(m);
      var j :| 0 <= j < |m| && m[j] == r[k];
      SortTreeSorted(nodes[j].children, le);
    }
  }

  /** Sorting keeps each level free of a second directory of one name. */
  lemma {:induction false} SortTreeUnique(nodes: seq<Node>, le: (string, string) -> bool)
    requires UniqueTree(nodes)
    ensures UniqueTree(SortTree(nodes, le))
    decreases nodes
  {
    var m := SortEach(nodes, le);
    var r := SortTree(nodes, le);
    forall name ensures DirCount(r, name) <= 1 {
      SortLevelKeeps(m, le, name);
      SortEachCount(nodes, le, name);
    }
    forall k | 0 <= k < |r| && r[k].Dir? ensures UniqueTree(r[k].children) {
      assert r[k] in multiset(m);
      var j :| 0 <= j < |m| && m[j] == r[k];
      SortTreeUnique(nodes[j].children, le);
    }
  }

  /** Sorting keeps every file at its place. */
  lemma {:induction false} SortTreeHas(nodes: seq<Node>, le: (string, string) -> bool,
                                       ps: seq<string>, p: string)
    requires Has(nodes, ps, p)
    ensures Has(SortTree(nodes, le), ps, p)
    decreases nodes
  {
    var j :| 0 <= j < |nodes| &&
      if |ps| == 1 then nodes[j] == File(ps[0], p)
      else nodes[j].Dir? && nodes[j].name == ps[0] && Has(nodes[j].children, ps[1..], p);
    if |ps| > 1 {
      SortTreeHas(nodes[j].children, le, ps[1..], p);
    }
    EachKeepsHas(nodes, le, ps, p, j);
    LevelKeepsHas(SortEach(nodes, le), le, ps, p);
  }

  /** Sorting the children of each directory keeps a file whose subtree keeps it. */
  lemma EachKeepsHas(nodes: seq<Node>, le: (string, string) -> bool, ps: seq<string>, p: string, j: nat)
    requires j < |nodes| && |ps| >= 1
    requires if |ps| == 1 then nodes[j] == File(ps[0], p)
      else nodes[j].Dir? && nodes[j].name == ps[0] && Has(SortTree(nodes[j].children, le), ps[1..], p)
    ensures Has(SortEach(nodes, le), ps, p)
  {
    HasWitness(SortEach(nodes, le), ps, p, j);
  }

  /** Reordering one level keeps every file at its place. */
  lemma LevelKeepsHas(m: seq<Node>, le: (string, string) -> bool, ps: seq<string>, p: string)
    requires Has(m, ps, p)
    ensures Has(SortLevel(m, le), ps, p)
  {
    var r := SortLevel(m, le);
    var j :| 0 <= j < |m| &&
      if |ps| == 1 then m[j] == File(ps[0], p)
      else m[j].Dir? && m[j].name == ps[0] && Has(m[j].children, ps[1..], p);
    assert m[j] in multiset(r);
    var k :| 0 <= k < |r| && r[k] == m[j];
    HasWitness(r, ps, p, k);
  }

  /** A node at the place's head that holds the rest of the place is a witness. */
  lemma HasWitness(nodes: seq<Node>, parts: seq<string>, path: string, k: nat)
    requires k < |nodes| && |parts| >= 1
    requires if |parts| == 1 then nodes[k] == File(parts[0], path)
      else nodes[k].Dir? && nodes[k].name == parts[0] && Has(nodes[k].children, parts[1..], path)
    ensures Has(nodes, parts, path)
  {
  }

  // ---------------------------------------------------------------------------------
  // buildTreeFromFiles

  /** The paths of the files that are kept. */
  function PlacedPaths(files: seq<Entry>, docPaths: seq<string>): multiset<string> {
    if files == [] then multiset{}
    else
      var last := files[|files| - 1].path;
      PlacedPaths(files[..|files| - 1], docPaths) + (if Kept(last, docPaths) then multiset{last} else multiset{})
  }

  /** The first `n` files under a root are at their places in `tree`. */
  ghost predicate AllPlaced(tree: seq<Node>, files: seq<Entry>, docPaths: seq<string>, n: nat)
    requires n <= |files|
  {
    forall j :: 0 <= j < n && RelParts(files[j].path, docPaths).Some? ==>
      Has(tree, RelParts(files[j].path, docPaths).value, files[j].path)
  }

  /** One iteration of the outer loop keeps what the loop promises of the files so far. */
  lemma PlaceStep(built: seq<Node>, files: seq<Entry>, docPaths: seq<string>, i: nat)
    requires i < |files|
    requires FilePaths(built) == PlacedPaths(files[..i], docPaths)
    requires UniqueTree(built) && AllPlaced(built, files, docPaths, i)
    ensures FilePaths(Place(built, files[i].path, docPaths)) == PlacedPaths(files[..i + 1], docPaths)
    ensures UniqueTree(Place(built, files[i].path, docPaths))
    ensures AllPlaced(Place(built, files[i].path, docPaths), files, docPaths, i + 1)
  {
    var path := files[i].path;
    assert files[..i + 1][..i] == files[..i];
    match RelParts(path, docPaths)
    case None =>
    case Some(parts) =>
      var next := Insert(built, parts, path);
      InsertPaths(built, parts, path);
      InsertUnique(built, parts, path);
      InsertPlaces(built, parts, path);
      forall j | 0 <= j < i + 1 && RelParts(files[j].path, docPaths).Some?
        ensures Has(next, RelParts(files[j].path, docPaths).value, files[j].path)
      {
        if j < i {
          InsertKeeps(built, parts, path, RelParts(files[j].path, docPaths).value, files[j].path);
        }
      }
  }

  /** `buildTreeFromFiles`: every kept file, and no other, lands in the tree at its path
      relative to the first root it lies under; no level holds two directories of one
      name; every level lists directories first, each group ordered by name. */
  method BuildTree(files: seq<Entry>, docPaths: seq<string>, le: (string, string) -> bool)
    returns (tree: seq<Node>)
    requires TotalPreorder(le)
    ensures FilePaths(tree) == PlacedPaths(files, docPaths)
    ensures UniqueTree(tree)
    ensures SortedTree(tree, le)
    ensures forall j :: 0 <= j < |files| && RelParts(files[j].path, docPaths).Some? ==>
      Has(tree, RelParts(files[j].path, docPaths).value, files[j].path)
  {
    var built: seq<Node> := [];
    for i := 0 to |files|
      invariant FilePaths(built) == PlacedPaths(files[..i], docPaths)
      invariant UniqueTree(built)
      invariant AllPlaced(built, files, docPaths, i)
    {
      PlaceStep(built, files, docPaths, i);
      built := Place(built, files[i].path, docPaths);
    }
    assert files[..|files|] == files;
    SortTreePaths(built, le);
    SortTreeUnique(built, le);
    SortTreeSorted(built, le);
    forall j | 0 <= j < |files| && RelParts(files[j].path, docPaths).Some?
      ensures Has(SortTree(built, le), RelParts(files[j].path, docPaths).value, files[j].path)
    {
      SortTreeHas(built, le, RelParts(files[j].path, docPaths).value, files[j].path);
    }
    tree := SortTree(built, le);
  }
}
