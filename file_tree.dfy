/** The sidebar's file tree (components/Sidebar.tsx): the flat git-tree listing becomes
    nested folders and files, and each level is shown folders first, then by name.

    The source walks each path with a cursor into the children array it is filling and
    pushes new entries through that alias. Here a tree is a value and the walk is the
    recursive function `Insert`, which rebuilds the level it changes; the loop over the
    listing is the method `BuildNestedTree`. */
module FileTree {
  import opened Wrappers
  import opened Strings

  datatype TreeNode = Folder(name: string, children: seq<TreeNode>) | File(name: string)

  /** One entry of the git-tree listing: its type ("blob", "tree", ...) and path. */
  datatype FlatItem = FlatItem(kind: string, path: string)

  // ---------------------------------------------------------------------------
  // Lookup and insertion

  /** `current.find((e) => e.name === part)`, as the index of the first match. */
  function FindIndex(level: seq<TreeNode>, name: string): (r: Option<nat>)
    ensures r.Some? ==> r.value < |level| && level[r.value].name == name
    ensures r.Some? ==> forall j :: 0 <= j < r.value ==> level[j].name != name
    ensures r.None? <==> forall j :: 0 <= j < |level| ==> level[j].name != name
  {
    if |level| == 0 then None
    else if level[0].name == name then Some(0)
    else match FindIndex(level[1..], name)
      case None => None
      case Some(k) => Some(k + 1)
  }

  /** The walk over the segments `parts` of one path at a level. `isBlob` says whether the
      item is a blob: only its last segment becomes a file. An existing folder is entered,
      a missing name is appended (a file, or a folder holding the rest of the path), and an
      existing file is passed over with the cursor left at this level. */
  function Insert(level: seq<TreeNode>, parts: seq<string>, isBlob: bool): seq<TreeNode>
    decreases |parts|
  {
    if |parts| == 0 then level
    else
      var part := parts[0];
      var isFile := |parts| == 1 && isBlob;
      match FindIndex(level, part)
      case Some(k) =>
        if level[k].Folder? then level[k := Folder(part, Insert(level[k].children, parts[1..], isBlob))]
        else Insert(level, parts[1..], isBlob)
      case None =>
        if isFile then level + [File(part)]
        else level + [Folder(part, Insert([], parts[1..], isBlob))]
  }

  /** One iteration of the outer `forEach`: only blobs and trees are placed. */
  function AddItem(root: seq<TreeNode>, item: FlatItem): seq<TreeNode>
  {
    if item.kind != "blob" && item.kind != "tree" then root
    else Insert(root, Split(item.path, '/'), item.kind == "blob")
  }

  /** The tree `buildNestedTree` returns for a listing. */
  function BuildTree(flat: seq<FlatItem>): seq<TreeNode>
  {
    if |flat| == 0 then [] else AddItem(BuildTree(flat[..|flat| - 1]), flat[|flat| - 1])
  }

  /** The cursor `current`: the folder indices leading from the root to the children
      list being filled. A path is valid when every step names a folder. */
  predicate ValidPath(root: seq<TreeNode>, path: seq<nat>)
    decreases |path|
  {
    |path| == 0 || (path[0] < |root| && root[path[0]].Folder? && ValidPath(root[path[0]].children, path[1..]))
  }

  /** The children list the cursor points to. */
  function LevelAt(root: seq<TreeNode>, path: seq<nat>): seq<TreeNode>
    requires ValidPath(root, path)
    decreases |path|
  {
    if |path| == 0 then root else LevelAt(root[path[0]].children, path[1..])
  }

  /** The tree after the list the cursor points to has become `level`. */
  function ReplaceAt(root: seq<TreeNode>, path: seq<nat>, level: seq<TreeNode>): seq<TreeNode>
    requires ValidPath(root, path)
    decreases |path|
  {
    if |path| == 0 then level
    else root[path[0] := Folder(root[path[0]].name, ReplaceAt(root[path[0]].children, path[1..], level))]
  }

  /** The walk over one path, as the source does it: `current` moves into existing or new
      folders and new entries are pushed onto the list it points to. */
  method PlacePath(root0: seq<TreeNode>, parts: seq<string>, isBlob: bool) returns (root: seq<TreeNode>)
    ensures root == Insert(root0, parts, isBlob)
  {
    root := root0;
    var current: seq<nat> := [];
    var idx := 0;
    while idx < |parts|
      invariant 0 <= idx <= |parts|
      invariant ValidPath(root, current)
      invariant ReplaceAt(root, current, Insert(LevelAt(root, current), parts[idx..], isBlob)) ==
        Insert(root0, parts, isBlob)
    {
      var level := LevelAt(root, current);
      var part := parts[idx];
      var isFile := idx == |parts| - 1 && isBlob;
      var existing := FindIndex(level, part);
      assert parts[idx..][0] == part && parts[idx..][1..] == parts[idx + 1..];
      if existing.Some? && level[existing.value].Folder? {
        var k := existing.value;
        assert Insert(level, parts[idx..], isBlob) ==
          level[k := Folder(part, Insert(level[k].children, parts[idx + 1..], isBlob))];
        DescendStep(root, current, k, Insert(level[k].children, parts[idx + 1..], isBlob));
        current := current + [k];
      } else if existing.None? {
        if isFile {
          assert parts[idx + 1..] == [];
          assert Insert(level, parts[idx..], isBlob) == level + [File(part)];
          ReplaceAtValid(root, current, level + [File(part)]);
          ReplaceAtTwice(root, current, level + [File(part)], level + [File(part)]);
          root := ReplaceAt(root, current, level + [File(part)]);
        } else {
          var grown := level + [Folder(part, [])];
          var inner := Insert([], parts[idx + 1..], isBlob);
          assert Insert(level, parts[idx..], isBlob) == level + [Folder(part, inner)];
          ReplaceAtValid(root, current, grown);
          ReplaceAtTwice(root, current, grown, grown[|level| := Folder(part, inner)]);
          root := ReplaceAt(root, current, grown);
          DescendStep(root, current, |level|, inner);
          assert grown[|level| := Folder(part, inner)] == level + [Folder(part, inner)];
          current := current + [|level|];
        }
      } else {
        assert Insert(level, parts[idx..], isBlob) == Insert(level, parts[idx + 1..], isBlob);
      }
      idx := idx + 1;
    }
    ReplaceAtSame(root, current);
  }

  /** `current = existing.children`: descending into folder k of the current list. */
  lemma DescendStep(root: seq<TreeNode>, path: seq<nat>, k: nat, inner: seq<TreeNode>)
    requires ValidPath(root, path)
    requires k < |LevelAt(root, path)| && LevelAt(root, path)[k].Folder?
    ensures ValidPath(root, path + [k])
    ensures LevelAt(root, path + [k]) == LevelAt(root, path)[k].children
    ensures ReplaceAt(root, path + [k], inner) ==
      ReplaceAt(root, path, LevelAt(root, path)[k := Folder(LevelAt(root, path)[k].name, inner)])
    decreases |path|
  {
    if |path| == 0 {
      assert [] + [k] == [k];
      assert [k][1..] == [];
    } else {
      assert (path + [k])[0] == path[0];
      assert (path + [k])[1..] == path[1..] + [k];
      DescendStep(root[path[0]].children, path[1..], k, inner);
    }
  }

  lemma {:induction false} ReplaceAtValid(root: seq<TreeNode>, path: seq<nat>, level: seq<TreeNode>)
    requires ValidPath(root, path)
    ensures ValidPath(ReplaceAt(root, path, level), path)
    ensures LevelAt(ReplaceAt(root, path, level), path) == level
    decreases |path|
  {
    if |path| > 0 {
      ReplaceAtValid(root[path[0]].children, path[1..], level);
    }
  }

  lemma {:induction false} ReplaceAtTwice(root: seq<TreeNode>, path: seq<nat>, a: seq<TreeNode>, b: seq<TreeNode>)
    requires ValidPath(root, path)
    ensures ValidPath(ReplaceAt(root, path, a), path)
    ensures ReplaceAt(ReplaceAt(root, path, a), path, b) == ReplaceAt(root, path, b)
    decreases |path|
  {
    ReplaceAtValid(root, path, a);
    if |path| > 0 {
      ReplaceAtTwice(root[path[0]].children, path[1..], a, b);
    }
  }

  lemma {:induction false} ReplaceAtSame(root: seq<TreeNode>, path: seq<nat>)
    requires ValidPath(root, path)
    ensures ReplaceAt(root, path, LevelAt(root, path)) == root
    decreases |path|
  {
    if |path| > 0 {
      ReplaceAtSame(root[path[0]].children, path[1..]);
    }
  }

  /** `buildNestedTree`: the listing is processed in order into an initially empty root. */
  method BuildNestedTree(flat: seq<FlatItem>) returns (root: seq<TreeNode>)
    ensures root == BuildTree(flat)
    ensures Unique(root)
  {
    root := [];
    var i := 0;
    while i < |flat|
      invariant 0 <= i <= |flat|
      invariant root == BuildTree(flat[..i])
      invariant Unique(root)
    {
      var item := flat[i];
      assert flat[..i + 1][..i] == flat[..i];
      AddItemPreservesUnique(root, item);
      if item.kind == "blob" || item.kind == "tree" {
        root := PlacePath(root, Split(item.path, '/'), item.kind == "blob");
      }
      i := i + 1;
    }
    assert flat[..i] == flat;
  }

  // ---------------------------------------------------------------------------
  // Sibling names are unique

  /** At the root and inside every folder, no two siblings share a name. */
  predicate Unique(level: seq<TreeNode>)
  {
    (forall i, j :: 0 <= i < j < |level| ==> level[i].name != level[j].name) &&
    (forall i :: 0 <= i < |level| && level[i].Folder? ==> Unique(level[i].children))
  }

  /** Same names at the same positions: lookups agree. */
  lemma FindIndexSameNames(a: seq<TreeNode>, b: seq<TreeNode>, name: string)
    requires |a| == |b| && forall i :: 0 <= i < |a| ==> a[i].name == b[i].name
    ensures FindIndex(a, name) == FindIndex(b, name)
  {
  }

  lemma {:induction false} InsertPreservesUnique(level: seq<TreeNode>, parts: seq<string>, isBlob: bool)
    requires Unique(level)
    ensures Unique(Insert(level, parts, isBlob))
    decreases |parts|
  {
    if |parts| > 0 {
      var part := parts[0];
      match FindIndex(level, part)
      case Some(k) =>
        if level[k].Folder? {
          InsertPreservesUnique(level[k].children, parts[1..], isBlob);
          var r := level[k := Folder(part, Insert(level[k].children, parts[1..], isBlob))];
          assert forall i :: 0 <= i < |r| ==> r[i].name == level[i].name;
          assert forall i :: 0 <= i < |r| && i != k ==> r[i] == level[i];
        } else {
          InsertPreservesUnique(level, parts[1..], isBlob);
        }
      case None =>
        if !(|parts| == 1 && isBlob) {
          InsertPreservesUnique([], parts[1..], isBlob);
        }
        var r := Insert(level, parts, isBlob);
        assert r[..|level|] == level;
        assert r[|level|].name == part;
    }
  }

  lemma AddItemPreservesUnique(root: seq<TreeNode>, item: FlatItem)
    requires Unique(root)
    ensures Unique(AddItem(root, item))
  {
    if item.kind == "blob" || item.kind == "tree" {
      InsertPreservesUnique(root, Split(item.path, '/'), item.kind == "blob");
    }
  }

  // ---------------------------------------------------------------------------
  // Append-only

  /** `after` keeps every entry of `before` at its position, with the same name and kind,
      and a kept folder's children extend the old ones; new entries only follow. */
  predicate Extends(before: seq<TreeNode>, after: seq<TreeNode>)
  {
    |before| <= |after| &&
    forall i :: 0 <= i < |before| ==>
      after[i].name == before[i].name && after[i].Folder? == before[i].Folder? &&
      (before[i].Folder? ==> Extends(before[i].children, after[i].children))
  }

  lemma {:induction false} ExtendsReflexive(level: seq<TreeNode>)
    ensures Extends(level, level)
    decreases level
  {
    forall i | 0 <= i < |level| && level[i].Folder?
      ensures Extends(level[i].children, level[i].children)
    {
      ExtendsReflexive(level[i].children);
    }
  }

  lemma {:induction false} ExtendsTransitive(a: seq<TreeNode>, b: seq<TreeNode>, c: seq<TreeNode>)
    requires Extends(a, b) && Extends(b, c)
    ensures Extends(a, c)
    decreases a
  {
    forall i | 0 <= i < |a| && a[i].Folder?
      ensures Extends(a[i].children, c[i].children)
    {
      ExtendsTransitive(a[i].children, b[i].children, c[i].children);
    }
  }

  /** A lookup that succeeds keeps succeeding at the same index in an extension. */
  lemma FindIndexExtends(before: seq<TreeNode>, after: seq<TreeNode>, name: string)
    requires Extends(before, after)
    requires FindIndex(before, name).Some?
    ensures FindIndex(after, name) == FindIndex(before, name)
  {
    var k := FindIndex(before, name).value;
    assert k < |before|;
    assert after[k].name == before[k].name;
    PrefixNames(before, after, name, k);
  }

  /** The first match in `after` is the first in `before` when both agree up to it. */
  lemma PrefixNames(before: seq<TreeNode>, after: seq<TreeNode>, name: string, k: nat)
    requires k < |before| <= |after|
    requires forall i :: 0 <= i <= k ==> after[i].name == before[i].name
    requires FindIndex(before, name) == Some(k)
    ensures FindIndex(after, name) == Some(k)
  {
    assert after[k].name == name;
  }

  lemma {:induction false} InsertExtends(level: seq<TreeNode>, parts: seq<string>, isBlob: bool)
    ensures Extends(level, Insert(level, parts, isBlob))
    decreases |parts|
  {
    ExtendsReflexive(level);
    if |parts| > 0 {
      var part := parts[0];
      match FindIndex(level, part)
      case Some(k) =>
        if level[k].Folder? {
          InsertExtends(level[k].children, parts[1..], isBlob);
        } else {
          InsertExtends(level, parts[1..], isBlob);
        }
      case None =>
    }
  }

  lemma BuildTreeAppendOnly(flat: seq<FlatItem>, item: FlatItem)
    ensures Extends(BuildTree(flat), BuildTree(flat + [item]))
  {
    assert (flat + [item])[..|flat|] == flat;
    var root := BuildTree(flat);
    if item.kind == "blob" || item.kind == "tree" {
      InsertExtends(root, Split(item.path, '/'), item.kind == "blob");
    } else {
      ExtendsReflexive(root);
    }
  }

  /** Items that are neither blobs nor trees leave the tree as it was. */
  lemma OtherKindsIgnored(flat: seq<FlatItem>, item: FlatItem)
    requires item.kind != "blob" && item.kind != "tree"
    ensures BuildTree(flat + [item]) == BuildTree(flat)
  {
    assert (flat + [item])[..|flat|] == flat;
  }

  // ---------------------------------------------------------------------------
  // Idempotence

  lemma {:induction false} InsertIdempotent(level: seq<TreeNode>, parts: seq<string>, isBlob: bool)
    ensures Insert(Insert(level, parts, isBlob), parts, isBlob) == Insert(level, parts, isBlob)
    decreases |parts|
  {
    if |parts| > 0 {
      var part, rest := parts[0], parts[1..];
      var once := Insert(level, parts, isBlob);
      match FindIndex(level, part)
      case Some(k) =>
        if level[k].Folder? {
          var inner := Insert(level[k].children, rest, isBlob);
          assert once == level[k := Folder(part, inner)];
          FindIndexSameNames(level, once, part);
          InsertIdempotent(level[k].children, rest, isBlob);
          assert once[k := Folder(part, Insert(inner, rest, isBlob))] == once;
        } else {
          assert once == Insert(level, rest, isBlob);
          InsertExtends(level, rest, isBlob);
          FindIndexExtends(level, once, part);
          InsertIdempotent(level, rest, isBlob);
        }
      case None =>
        assert once[..|level|] == level;
        assert FindIndex(once, part) == Some(|level|) by {
          assert once[|level|].name == part;
        }
        if !(|parts| == 1 && isBlob) {
          var inner := Insert([], rest, isBlob);
          assert once == level + [Folder(part, inner)];
          InsertIdempotent([], rest, isBlob);
          assert once[|level| := Folder(part, Insert(inner, rest, isBlob))] == once;
        }
    }
  }

  /** Listing the same item again changes nothing. */
  lemma AddItemIdempotent(root: seq<TreeNode>, item: FlatItem)
    ensures AddItem(AddItem(root, item), item) == AddItem(root, item)
  {
    if item.kind == "blob" || item.kind == "tree" {
      InsertIdempotent(root, Split(item.path, '/'), item.kind == "blob");
    }
  }

  // ---------------------------------------------------------------------------
  // What a walk adds

  /** Every name in a level, at any depth. */
  function Names(level: seq<TreeNode>): set<string>
    decreases level
  {
    if |level| == 0 then {} else NodeNames(level[0]) + Names(level[1..])
  }

  function NodeNames(node: TreeNode): set<string>
    decreases node
  {
    match node
    case File(name) => {name}
    case Folder(name, children) => {name} + Names(children)
  }

  /** The number of files in a level, at any depth. */
  function FileCount(level: seq<TreeNode>): nat
    decreases level
  {
    if |level| == 0 then 0 else NodeFileCount(level[0]) + FileCount(level[1..])
  }

  function NodeFileCount(node: TreeNode): nat
    decreases node
  {
    match node
    case File(_) => 1
    case Folder(_, children) => FileCount(children)
  }

  /** The names of the files in a level, at any depth. */
  function FileNames(level: seq<TreeNode>): set<string>
    decreases level
  {
    if |level| == 0 then {} else NodeFileNames(level[0]) + FileNames(level[1..])
  }

  function NodeFileNames(node: TreeNode): set<string>
    decreases node
  {
    match node
    case File(name) => {name}
    case Folder(_, children) => FileNames(children)
  }

  lemma {:induction false} NamesAppend(a: seq<TreeNode>, b: seq<TreeNode>)
    ensures Names(a + b) == Names(a) + Names(b)
    ensures FileCount(a + b) == FileCount(a) + FileCount(b)
    ensures FileNames(a + b) == FileNames(a) + FileNames(b)
  {
    if |a| == 0 {
      assert a + b == b;
    } else {
      assert (a + b)[0] == a[0];
      assert (a + b)[1..] == a[1..] + b;
      NamesAppend(a[1..], b);
    }
  }

  /** A level seen as the entries around position k. */
  lemma NamesAround(level: seq<TreeNode>, k: nat)
    requires k < |level|
    ensures Names(level) == Names(level[..k]) + NodeNames(level[k]) + Names(level[k + 1..])
    ensures FileCount(level) == FileCount(level[..k]) + NodeFileCount(level[k]) + FileCount(level[k + 1..])
    ensures FileNames(level) == FileNames(level[..k]) + NodeFileNames(level[k]) + FileNames(level[k + 1..])
  {
    var before, after := level[..k], level[k + 1..];
    var tail := [level[k]] + after;
    assert level == before + tail;
    NamesAppend(before, tail);
    NamesCons(level[k], after);
  }

  lemma NamesCons(node: TreeNode, rest: seq<TreeNode>)
    ensures Names([node] + rest) == NodeNames(node) + Names(rest)
    ensures FileCount([node] + rest) == NodeFileCount(node) + FileCount(rest)
    ensures FileNames([node] + rest) == NodeFileNames(node) + FileNames(rest)
  {
    var l := [node] + rest;
    assert l[0] == node && l[1..] == rest;
  }

  lemma NamesSingle(node: TreeNode)
    ensures Names([node]) == NodeNames(node)
    ensures FileCount([node]) == NodeFileCount(node)
    ensures FileNames([node]) == NodeFileNames(node)
  {
    assert [node][1..] == [];
  }

  function PartSet(parts: seq<string>): set<string>
  {
    set p | p in parts
  }

  /** The walk adds exactly the segments of the path as names, nothing else. */
  lemma {:induction false} InsertNames(level: seq<TreeNode>, parts: seq<string>, isBlob: bool)
    ensures Names(Insert(level, parts, isBlob)) == Names(level) + PartSet(parts)
    decreases |parts|
  {
    if |parts| > 0 {
      var part, rest := parts[0], parts[1..];
      assert PartSet(parts) == {part} + PartSet(rest) by {
        assert parts == [part] + rest;
      }
      match FindIndex(level, part)
      case Some(k) =>
        NamesAround(level, k);
        assert part in NodeNames(level[k]);
        if level[k].Folder? {
          var node := Folder(part, Insert(level[k].children, rest, isBlob));
          var r := level[k := node];
          NamesAround(r, k);
          assert r[..k] == level[..k] && r[k + 1..] == level[k + 1..];
          InsertNames(level[k].children, rest, isBlob);
        } else {
          InsertNames(level, rest, isBlob);
        }
      case None =>
        var node := if |parts| == 1 && isBlob then File(part) else Folder(part, Insert([], rest, isBlob));
        NamesAppend(level, [node]);
        NamesSingle(node);
        if |parts| == 1 && isBlob {
          assert rest == [];
        } else {
          InsertNames([], rest, isBlob);
        }
    }
  }

  /** A tree item adds no file; a blob adds at most one. */
  lemma {:induction false} InsertFileCount(level: seq<TreeNode>, parts: seq<string>, isBlob: bool)
    ensures !isBlob ==> FileCount(Insert(level, parts, isBlob)) == FileCount(level)
    ensures isBlob ==> FileCount(level) <= FileCount(Insert(level, parts, isBlob)) <= FileCount(level) + 1
    decreases |parts|
  {
    if |parts| > 0 {
      var part, rest := parts[0], parts[1..];
      match FindIndex(level, part)
      case Some(k) =>
        if level[k].Folder? {
          var node := Folder(part, Insert(level[k].children, rest, isBlob));
          var r := level[k := node];
          NamesAround(level, k);
          NamesAround(r, k);
          assert r[..k] == level[..k] && r[k + 1..] == level[k + 1..];
          InsertFileCount(level[k].children, rest, isBlob);
        } else {
          InsertFileCount(level, rest, isBlob);
        }
      case None =>
        var node := if |parts| == 1 && isBlob then File(part) else Folder(part, Insert([], rest, isBlob));
        NamesAppend(level, [node]);
        NamesSingle(node);
        if !(|parts| == 1 && isBlob) {
          InsertFileCount([], rest, isBlob);
          assert FileCount([]) == 0;
        }
    }
  }

  /** After a blob's path is placed, its last segment names an entry of the tree. */
  lemma BlobNamePresent(root: seq<TreeNode>, item: FlatItem)
    requires item.kind == "blob"
    ensures Split(item.path, '/')[|Split(item.path, '/')| - 1] in Names(AddItem(root, item))
  {
    InsertNames(root, Split(item.path, '/'), true);
  }

  /** Only the last segment of a blob becomes a file: the walk adds no other file name. */
  lemma {:induction false} InsertFileNames(level: seq<TreeNode>, parts: seq<string>, isBlob: bool)
    ensures FileNames(Insert(level, parts, isBlob)) <=
      FileNames(level) + (if isBlob && |parts| > 0 then {parts[|parts| - 1]} else {})
    decreases |parts|
  {
    if |parts| > 0 {
      var part, rest := parts[0], parts[1..];
      assert |rest| > 0 ==> rest[|rest| - 1] == parts[|parts| - 1];
      match FindIndex(level, part)
      case Some(k) =>
        if level[k].Folder? {
          var node := Folder(part, Insert(level[k].children, rest, isBlob));
          var r := level[k := node];
          NamesAround(level, k);
          NamesAround(r, k);
          assert r[..k] == level[..k] && r[k + 1..] == level[k + 1..];
          InsertFileNames(level[k].children, rest, isBlob);
        } else {
          InsertFileNames(level, rest, isBlob);
        }
      case None =>
        var node := if |parts| == 1 && isBlob then File(part) else Folder(part, Insert([], rest, isBlob));
        NamesAppend(level, [node]);
        NamesSingle(node);
        if !(|parts| == 1 && isBlob) {
          InsertFileNames([], rest, isBlob);
          assert FileNames([]) == {};
        }
    }
  }

  /** A file already at this level does not stop the walk: the rest of the path is placed
      at this same level, beside the file. */
  lemma FileBlocksDescent(level: seq<TreeNode>, a: string, rest: seq<string>, isBlob: bool)
    requires FindIndex(level, a).Some? && level[FindIndex(level, a).value].File?
    ensures Insert(level, [a] + rest, isBlob) == Insert(level, rest, isBlob)
  {
    assert ([a] + rest)[0] == a && ([a] + rest)[1..] == rest;
  }

  /** An intermediate segment that is new becomes a folder holding the rest of the path. */
  lemma NewFolderForPath(level: seq<TreeNode>, a: string, rest: seq<string>, isBlob: bool)
    requires FindIndex(level, a).None? && |rest| >= 1
    ensures Insert(level, [a] + rest, isBlob) == level + [Folder(a, Insert([], rest, isBlob))]
  {
    assert ([a] + rest)[0] == a && ([a] + rest)[1..] == rest;
  }

  // ---------------------------------------------------------------------------
  // Display order

  /** The name order: `localeCompare` taken as lexicographic order on character codes. */
  predicate LexLe(a: string, b: string)
    decreases |a|
  {
    |a| == 0 || (|b| > 0 && (a[0] < b[0] || (a[0] == b[0] && LexLe(a[1..], b[1..]))))
  }

  lemma {:induction false} LexLeTotal(a: string, b: string)
    ensures LexLe(a, b) || LexLe(b, a)
    decreases |a|
  {
    if |a| > 0 && |b| > 0 && a[0] == b[0] {
      LexLeTotal(a[1..], b[1..]);
    }
  }

  lemma {:induction false} LexLeAntisymmetric(a: string, b: string)
    requires LexLe(a, b) && LexLe(b, a)
    ensures a == b
    decreases |a|
  {
    if |a| > 0 {
      LexLeAntisymmetric(a[1..], b[1..]);
      assert a == [a[0]] + a[1..] && b == [b[0]] + b[1..];
    }
  }

  lemma {:induction false} LexLeTransitive(a: string, b: string, c: string)
    requires LexLe(a, b) && LexLe(b, c)
    ensures LexLe(a, c)
    decreases |a|
  {
    if |a| > 0 && a[0] == b[0] && b[0] == c[0] {
      LexLeTransitive(a[1..], b[1..], c[1..]);
    }
  }

  /** `a.localeCompare(b)`: negative, zero or positive. */
  function LocaleCompare(a: string, b: string): int
  {
    if a == b then 0 else if LexLe(a, b) then -1 else 1
  }

  /** The sidebar's comparator: entries of the same type by name, otherwise folders first. */
  function Compare(x: TreeNode, y: TreeNode): int
  {
    if x.Folder? == y.Folder? then LocaleCompare(x.name, y.name)
    else if x.Folder? then -1 else 1
  }

  /** The comparator is consistent: swapping the arguments flips the sign, and zero means
      same type and same name. */
  lemma CompareAntisymmetric(x: TreeNode, y: TreeNode)
    ensures Compare(x, y) == -Compare(y, x)
    ensures Compare(x, y) == 0 <==> x.Folder? == y.Folder? && x.name == y.name
  {
    if x.Folder? == y.Folder? && x.name != y.name {
      LexLeTotal(x.name, y.name);
      if LexLe(x.name, y.name) && LexLe(y.name, x.name) {
        LexLeAntisymmetric(x.name, y.name);
      }
    }
  }

  lemma CompareTotal(x: TreeNode, y: TreeNode)
    ensures Compare(x, y) <= 0 || Compare(y, x) <= 0
  {
    CompareAntisymmetric(x, y);
  }

  lemma CompareTransitive(x: TreeNode, y: TreeNode, z: TreeNode)
    requires Compare(x, y) <= 0 && Compare(y, z) <= 0
    ensures Compare(x, z) <= 0
  {
    if x.Folder? == y.Folder? == z.Folder? {
      assert LexLe(x.name, y.name) by {
        if x.name == y.name { LexLeReflexive(x.name); }
      }
      assert LexLe(y.name, z.name) by {
        if y.name == z.name { LexLeReflexive(y.name); }
      }
      LexLeTransitive(x.name, y.name, z.name);
    }
  }

  lemma {:induction false} LexLeReflexive(a: string)
    ensures LexLe(a, a)
    decreases |a|
  {
    if |a| > 0 {
      LexLeReflexive(a[1..]);
    }
  }

  predicate Sorted(level: seq<TreeNode>)
  {
    forall i, j :: 0 <= i < j < |level| ==> Compare(level[i], level[j]) <= 0
  }

  /** One step of sorting: `x` goes before the first entry it does not follow. */
  function InsertSorted(x: TreeNode, level: seq<TreeNode>): seq<TreeNode>
  {
    if |level| == 0 then [x]
    else if Compare(x, level[0]) <= 0 then [x] + level
    else [level[0]] + InsertSorted(x, level[1..])
  }

  /** `level.slice().sort(comparator)`: a sorted copy; the level itself is not changed. */
  function SortForDisplay(level: seq<TreeNode>): seq<TreeNode>
  {
    if |level| == 0 then [] else InsertSorted(level[0], SortForDisplay(level[1..]))
  }

  /** `x` comes before every entry of `level`. */
  predicate Precedes(x: TreeNode, level: seq<TreeNode>)
  {
    forall j :: 0 <= j < |level| ==> Compare(x, level[j]) <= 0
  }

  lemma SortedCons(x: TreeNode, level: seq<TreeNode>)
    requires Precedes(x, level) && Sorted(level)
    ensures Sorted([x] + level)
  {
    var r := [x] + level;
    forall i, j | 0 <= i < j < |r|
      ensures Compare(r[i], r[j]) <= 0
    {
      assert r[j] == level[j - 1];
      if i > 0 {
        assert r[i] == level[i - 1];
      }
    }
  }

  /** Whatever is in the multiset of `level` is preceded by what precedes `level`. */
  lemma PrecedesMembers(x: TreeNode, level: seq<TreeNode>, y: TreeNode)
    requires Precedes(x, level) && y in multiset(level)
    ensures Compare(x, y) <= 0
  {
    var m :| 0 <= m < |level| && level[m] == y;
  }

  lemma {:induction false} InsertSortedPermutes(x: TreeNode, level: seq<TreeNode>)
    ensures multiset(InsertSorted(x, level)) == multiset(level) + multiset{x}
  {
    if |level| > 0 {
      assert level == [level[0]] + level[1..];
      if Compare(x, level[0]) > 0 {
        InsertSortedPermutes(x, level[1..]);
      }
    }
  }

  lemma {:induction false} InsertSortedSorted(x: TreeNode, level: seq<TreeNode>)
    requires Sorted(level)
    ensures Sorted(InsertSorted(x, level))
  {
    if |level| == 0 {
    } else if Compare(x, level[0]) <= 0 {
      forall j | 0 <= j < |level|
        ensures Compare(x, level[j]) <= 0
      {
        if j > 0 { CompareTransitive(x, level[0], level[j]); }
      }
      SortedCons(x, level);
    } else {
      var head, tail := level[0], level[1..];
      assert Sorted(tail) by {
        forall i, j | 0 <= i < j < |tail|
          ensures Compare(tail[i], tail[j]) <= 0
        {
          assert tail[i] == level[i + 1] && tail[j] == level[j + 1];
        }
      }
      assert Precedes(head, tail) by {
        forall j | 0 <= j < |tail|
          ensures Compare(head, tail[j]) <= 0
        {
          assert tail[j] == level[j + 1];
        }
      }
      InsertSortedSorted(x, tail);
      InsertSortedPermutes(x, tail);
      var rest := InsertSorted(x, tail);
      CompareTotal(x, head);
      forall j | 0 <= j < |rest|
        ensures Compare(head, rest[j]) <= 0
      {
        assert rest[j] in multiset(rest);
        if rest[j] != x {
          PrecedesMembers(head, tail, rest[j]);
        }
      }
      SortedCons(head, rest);
    }
  }

  /** The display order is a permutation of the level, sorted by the comparator. */
  lemma {:induction false} SortForDisplayCorrect(level: seq<TreeNode>)
    ensures multiset(SortForDisplay(level)) == multiset(level)
    ensures Sorted(SortForDisplay(level))
  {
    if |level| > 0 {
      SortForDisplayCorrect(level[1..]);
      InsertSortedPermutes(level[0], SortForDisplay(level[1..]));
      InsertSortedSorted(level[0], SortForDisplay(level[1..]));
      assert level == [level[0]] + level[1..];
    }
  }

  /** What the display order means: every folder comes before every file, and entries of
      the same type appear in name order. */
  lemma DisplayOrder(level: seq<TreeNode>)
    ensures var shown := SortForDisplay(level);
      (forall i, j :: 0 <= i < j < |shown| && shown[j].Folder? ==> shown[i].Folder?) &&
      (forall i, j :: 0 <= i < j < |shown| && shown[i].Folder? == shown[j].Folder? ==>
        LexLe(shown[i].name, shown[j].name))
  {
    SortForDisplayCorrect(level);
    var shown := SortForDisplay(level);
    forall i, j | 0 <= i < j < |shown| && shown[i].Folder? == shown[j].Folder?
      ensures LexLe(shown[i].name, shown[j].name)
    {
      assert Compare(shown[i], shown[j]) <= 0;
      if shown[i].name == shown[j].name {
        LexLeReflexive(shown[i].name);
      }
    }
  }
}
