/** The dependency-graph builder of lib/analyzeRepo.ts: which files of a repository's
    `src/` folder become nodes, how a relative import specifier is resolved to one of
    them, and which edges the import declarations contribute.

    Fetching the listing and the file contents and running Babel are outside the model:
    the listing is a parameter, and so is `parse`, which says for each file path what
    Babel made of that file's text (None: `parse` threw; Some(specs): the sources of
    its import declarations, in file order). Node positions are random and are not
    modelled. */
module RepoGraph {
  import opened Wrappers
  import opened Strings
  import opened Errors

  /** The largest number of eligible source files a repository may have. */
  const MaxFiles: nat := 55

  /** One entry of the recursive git-tree listing; `kind` is "blob" for a file and
      "tree" for a directory. */
  datatype TreeEntry = TreeEntry(kind: string, path: string)

  datatype Node = Node(id: string, labelText: string)

  datatype Edge = Edge(id: string, source: string, target: string)

  datatype Graph = Graph(nodes: seq<Node>, edges: seq<Edge>)

  /** What Babel made of one file. */
  type ParseOutcome = Option<seq<string>>

  // ---------------------------------------------------------------------------
  // Eligible source files and nodes

  /** The extension test `/\.(js|jsx|ts|tsx)$/`. */
  predicate HasSourceExtension(path: string)
  {
    EndsWith(path, ".js") || EndsWith(path, ".jsx") || EndsWith(path, ".ts") || EndsWith(path, ".tsx")
  }

  predicate IsSourceFile(e: TreeEntry)
  {
    e.kind == "blob" && HasSourceExtension(e.path) && StartsWith(e.path, "src/")
  }

  /** The listing filtered down to the eligible source files. */
  function SourceFiles(listing: seq<TreeEntry>): (files: seq<TreeEntry>)
    ensures forall i :: 0 <= i < |files| ==> IsSourceFile(files[i])
    ensures forall e :: e in files <==> e in listing && IsSourceFile(e)
    ensures |files| <= |listing|
  {
    if |listing| == 0 then []
    else (if IsSourceFile(listing[0]) then [listing[0]] else []) + SourceFiles(listing[1..])
  }

  /** The filter keeps listing order: filtering a concatenation concatenates the
      filtered parts (with the singleton case, this determines the filter). */
  lemma {:induction false} SourceFilesAppend(a: seq<TreeEntry>, b: seq<TreeEntry>)
    ensures SourceFiles(a + b) == SourceFiles(a) + SourceFiles(b)
  {
    if |a| > 0 {
      assert (a + b)[0] == a[0];
      assert (a + b)[1..] == a[1..] + b;
      SourceFilesAppend(a[1..], b);
      var head := if IsSourceFile(a[0]) then [a[0]] else [];
      assert SourceFiles(a + b) == head + SourceFiles(a[1..] + b);
      assert SourceFiles(a) == head + SourceFiles(a[1..]);
    } else {
      assert a + b == b;
    }
  }

  /** `path.split("/").pop() || path`. */
  function Label(path: string): string
  {
    var parts := Split(path, '/');
    var last := parts[|parts| - 1];
    if last == "" then path else last
  }

  /** A node's label is the file name after the path's last `/`; a path that is empty or
      ends in `/` is its own label. */
  lemma LabelIsBaseName(path: string)
    ensures |path| == 0 || path[|path| - 1] == '/' ==> Label(path) == path
    ensures |path| > 0 && path[|path| - 1] != '/' ==>
      var l := Label(path);
      l != "" && '/' !in l && EndsWith(path, l) &&
      (|l| == |path| || path[|path| - |l| - 1] == '/')
  {
    SplitLast(path, '/');
    var parts := Split(path, '/');
    var last := parts[|parts| - 1];
    assert '/' !in last;
    if |path| > 0 && path[|path| - 1] == '/' && last != "" {
      assert false;
    }
  }

  function MakeNode(file: TreeEntry): Node
  {
    Node(file.path, Label(file.path))
  }

  /** One node per eligible file, in the same order. */
  function Nodes(files: seq<TreeEntry>): (nodes: seq<Node>)
    ensures |nodes| == |files|
    ensures forall i :: 0 <= i < |files| ==> nodes[i] == MakeNode(files[i])
  {
    if |files| == 0 then [] else [MakeNode(files[0])] + Nodes(files[1..])
  }

  /** `new Set(nodes.map((n) => n.id))`. */
  function NodeIds(nodes: seq<Node>): (ids: set<string>)
    ensures forall n :: n in nodes ==> n.id in ids
    ensures forall id :: id in ids ==> exists n :: n in nodes && n.id == id
  {
    set n | n in nodes :: n.id
  }

  /** The node ids are exactly the eligible paths. */
  lemma NodeIdsArePaths(files: seq<TreeEntry>)
    ensures forall p :: p in NodeIds(Nodes(files)) <==> exists f :: f in files && f.path == p
  {
    var nodes := Nodes(files);
    forall p | p in NodeIds(nodes) ensures exists f :: f in files && f.path == p {
      var n :| n in nodes && n.id == p;
      var i :| 0 <= i < |nodes| && nodes[i] == n;
      assert files[i] in files && files[i].path == p;
    }
    forall p | exists f :: f in files && f.path == p ensures p in NodeIds(nodes) {
      var f :| f in files && f.path == p;
      var i :| 0 <= i < |files| && files[i] == f;
      assert nodes[i] in nodes;
    }
  }

  // ---------------------------------------------------------------------------
  // Import-path resolution

  /** `fromPath.split("/").slice(0, -1)`: the directory of the referencing file. */
  function DirectoryParts(fromPath: string): seq<string>
  {
    var parts := Split(fromPath, '/');
    parts[..|parts| - 1]
  }

  /** One turn of the segment loop: `.` is skipped, `..` pops (nothing to pop leaves the
      stack as it is, like `pop` on an empty array), anything else, "" included, is pushed. */
  function Step(stack: seq<string>, part: string): seq<string>
  {
    if part == "." then stack
    else if part == ".." then (if |stack| == 0 then [] else stack[..|stack| - 1])
    else stack + [part]
  }

  /** The whole segment loop. */
  function Walk(stack: seq<string>, parts: seq<string>): seq<string>
    decreases |parts|
  {
    if |parts| == 0 then stack else Walk(Step(stack, parts[0]), parts[1..])
  }

  /** Walking two lists of segments in turn is walking their concatenation. */
  lemma {:induction false} WalkAppend(stack: seq<string>, p: seq<string>, q: seq<string>)
    ensures Walk(stack, p + q) == Walk(Walk(stack, p), q)
    decreases |p|
  {
    if |p| > 0 {
      assert (p + q)[0] == p[0];
      assert (p + q)[1..] == p[1..] + q;
      WalkAppend(Step(stack, p[0]), p[1..], q);
      assert Walk(stack, p + q) == Walk(Step(stack, p[0]), p[1..] + q);
    } else {
      assert p + q == q;
    }
  }

  /** Segments that are neither `.` nor `..` are pushed as they are. */
  lemma {:induction false} WalkPlainSegments(stack: seq<string>, parts: seq<string>)
    requires forall i :: 0 <= i < |parts| ==> parts[i] != "." && parts[i] != ".."
    ensures Walk(stack, parts) == stack + parts
    decreases |parts|
  {
    if |parts| > 0 {
      WalkPlainSegments(stack + [parts[0]], parts[1..]);
      assert stack + [parts[0]] + parts[1..] == stack + parts;
    }
  }

  /** A `..` with nothing left to pop is skipped. */
  lemma ParentOfEmptyStack(parts: seq<string>)
    ensures Walk([], [".."] + parts) == Walk([], parts)
  {
    assert ([".."] + parts)[1..] == parts;
  }

  /** `stack.join("/")` after the segment loop. */
  function BasePath(fromPath: string, importPath: string): string
  {
    Join(Walk(DirectoryParts(fromPath), Split(importPath, '/')), "/")
  }

  /** The candidate paths, in the order they are tried. */
  function Candidates(base: string): seq<string>
  {
    [base, base + ".js", base + ".jsx", base + ".ts", base + ".tsx"]
  }

  /** `files.find((f) => f.path === p)` finds something. */
  predicate Listed(files: seq<TreeEntry>, p: string)
  {
    exists i :: 0 <= i < |files| && files[i].path == p
  }

  /** The first candidate that is listed, if any. */
  function FirstListed(candidates: seq<string>, files: seq<TreeEntry>): (r: Option<string>)
    ensures r.Some? ==>
      exists k :: 0 <= k < |candidates| && candidates[k] == r.value && Listed(files, r.value) &&
        forall j :: 0 <= j < k ==> !Listed(files, candidates[j])
    ensures r.None? <==> forall k :: 0 <= k < |candidates| ==> !Listed(files, candidates[k])
  {
    if |candidates| == 0 then None
    else if Listed(files, candidates[0]) then Some(candidates[0])
    else
      var r := FirstListed(candidates[1..], files);
      assert forall k :: 1 <= k < |candidates| ==> candidates[k] == candidates[1..][k - 1];
      r
  }

  /** A listed candidate with no listed candidate before it is the one found. */
  lemma {:induction false} FirstListedAt(candidates: seq<string>, files: seq<TreeEntry>, k: nat)
    requires k < |candidates| && Listed(files, candidates[k])
    requires forall j :: 0 <= j < k ==> !Listed(files, candidates[j])
    ensures FirstListed(candidates, files) == Some(candidates[k])
  {
    if k > 0 {
      assert forall j :: 0 <= j < k - 1 ==> candidates[1..][j] == candidates[j + 1];
      FirstListedAt(candidates[1..], files, k - 1);
    }
  }

  /** What `resolveImportPath(fromPath, importPath, files)` returns (None for null). */
  function Resolve(fromPath: string, importPath: string, files: seq<TreeEntry>): Option<string>
  {
    FirstListed(Candidates(BasePath(fromPath, importPath)), files)
  }

  /** `files.find(...)` as the linear scan it is. */
  method FindPath(files: seq<TreeEntry>, p: string) returns (found: bool)
    ensures found <==> Listed(files, p)
  {
    var i := 0;
    while i < |files|
      invariant 0 <= i <= |files|
      invariant forall j :: 0 <= j < i ==> files[j].path != p
    {
      if files[i].path == p {
        return true;
      }
      i := i + 1;
    }
    return false;
  }

  /** `resolveImportPath`: a segment stack seeded with the referencing file's directory,
      then the candidates tried in order, with an early return on the first listed one. */
  method ResolveImportPath(fromPath: string, importPath: string, files: seq<TreeEntry>)
    returns (resolved: Option<string>)
    ensures resolved == Resolve(fromPath, importPath, files)
  {
    var fromParts := DirectoryParts(fromPath);
    var importParts := Split(importPath, '/');
    var stack := fromParts;
    assert importParts[0..] == importParts;
    for i := 0 to |importParts|
      invariant Walk(stack, importParts[i..]) == Walk(fromParts, importParts)
    {
      assert importParts[i..][1..] == importParts[i + 1..];
      var part := importParts[i];
      if part == "." {
        continue;
      } else if part == ".." {
        if |stack| > 0 {
          stack := stack[..|stack| - 1];
        }
      } else {
        stack := stack + [part];
      }
    }
    var base := Join(stack, "/");
    var candidates := [base, base + ".js", base + ".jsx", base + ".ts", base + ".tsx"];
    assert candidates == Candidates(BasePath(fromPath, importPath));
    for k := 0 to |candidates|
      invariant forall j :: 0 <= j < k ==> !Listed(files, candidates[j])
    {
      var found := FindPath(files, candidates[k]);
      if found {
        FirstListedAt(candidates, files, k);
        return Some(candidates[k]);
      }
    }
    return None;
  }

  /** The base path decides the candidates; the first listed one is the result. */
  lemma ResolveFirstAt(fromPath: string, importPath: string, files: seq<TreeEntry>, base: string, k: nat)
    requires BasePath(fromPath, importPath) == base
    requires k < 5 && Listed(files, Candidates(base)[k])
    requires forall j :: 0 <= j < k ==> !Listed(files, Candidates(base)[j])
    ensures Resolve(fromPath, importPath, files) == Some(Candidates(base)[k])
  {
    FirstListedAt(Candidates(base), files, k);
  }

  /** When both the `.js` and the `.ts` candidate exist (and the bare base does not),
      the `.js` one wins. */
  lemma JsBeforeTs(fromPath: string, importPath: string, files: seq<TreeEntry>)
    requires var base := BasePath(fromPath, importPath);
      !Listed(files, base) && Listed(files, base + ".js") && Listed(files, base + ".ts")
    ensures Resolve(fromPath, importPath, files) == Some(BasePath(fromPath, importPath) + ".js")
  {
    FirstListedAt(Candidates(BasePath(fromPath, importPath)), files, 1);
  }

  /** A name segment: no `/`, and neither `.` nor `..`. */
  predicate PlainSegment(x: string)
  {
    '/' !in x && x != "." && x != ".."
  }

  /** `../sub/name` from a file two directories deep climbs one directory, then descends. */
  lemma ParentTraversal(root: string, dir: string, file: string, sub: string, name: string)
    requires '/' !in root && '/' !in dir && '/' !in file
    requires PlainSegment(sub) && PlainSegment(name)
    ensures BasePath(root + "/" + dir + "/" + file, ".." + "/" + sub + "/" + name)
         == root + "/" + sub + "/" + name
  {
    assert DirectoryParts(root + "/" + dir + "/" + file) == [root, dir] by {
      SplitThree(root, '/', dir, file);
    }
    assert Split(".." + "/" + sub + "/" + name, '/') == ["..", sub, name] by {
      SplitThree("..", '/', sub, name);
    }
    assert Walk([root, dir], ["..", sub, name]) == [root, sub, name] by {
      assert Step([root, dir], "..") == [root];
      assert ["..", sub, name][1..] == [sub, name];
      WalkPlainSegments([root], [sub, name]);
    }
    JoinThree(root, sub, name, "/");
  }

  /** The same, resolved: the `.ts` file is found when no earlier candidate is listed. */
  lemma ParentTraversalExample(files: seq<TreeEntry>)
    requires var base := "src/utils/helper";
      !Listed(files, base) && !Listed(files, base + ".js") && !Listed(files, base + ".jsx") &&
      Listed(files, base + ".ts")
    ensures Resolve("src/components/App.tsx", "../utils/helper", files) == Some("src/utils/helper" + ".ts")
  {
    ParentTraversalExampleBase();
    ResolveToTs("src/components/App.tsx", "../utils/helper", files, "src/utils/helper");
  }

  /** The `.ts` candidate is taken when the bare, `.js` and `.jsx` ones are not listed. */
  lemma ResolveToTs(fromPath: string, importPath: string, files: seq<TreeEntry>, base: string)
    requires BasePath(fromPath, importPath) == base
    requires !Listed(files, base) && !Listed(files, base + ".js") && !Listed(files, base + ".jsx")
    requires Listed(files, base + ".ts")
    ensures Resolve(fromPath, importPath, files) == Some(base + ".ts")
  {
    FirstListedAt(Candidates(base), files, 3);
  }

  lemma ParentTraversalExampleBase()
    ensures BasePath("src/components/App.tsx", "../utils/helper") == "src/utils/helper"
  {
    assert "src/components/App.tsx" == "src" + "/" + "components" + "/" + "App.tsx";
    assert "../utils/helper" == ".." + "/" + "utils" + "/" + "helper";
    assert "src/utils/helper" == "src" + "/" + "utils" + "/" + "helper";
    ParentTraversal("src", "components", "App.tsx", "utils", "helper");
  }

  /** A leading `/` does not reset to the repository root: its empty first segment is
      pushed like any other name, so the base keeps the referencing file's directory. */
  lemma LeadingSlashIsPushed(dir: string, file: string, a: string, b: string)
    requires '/' !in dir && '/' !in file && PlainSegment(a) && PlainSegment(b)
    ensures BasePath(dir + "/" + file, "/" + a + "/" + b) == dir + "/" + "/" + a + "/" + b
  {
    assert DirectoryParts(dir + "/" + file) == [dir] by {
      SplitTwo(dir, '/', file);
    }
    assert Split("/" + a + "/" + b, '/') == ["", a, b] by {
      assert "/" + a + "/" + b == "" + "/" + a + "/" + b;
      SplitThree("", '/', a, b);
    }
    assert Walk([dir], ["", a, b]) == [dir, "", a, b] by {
      WalkPlainSegments([dir], ["", a, b]);
    }
    JoinFour(dir, "", a, b, "/");
    assert dir + "/" + "" + "/" + a + "/" + b == dir + "/" + "/" + a + "/" + b;
  }

  // ---------------------------------------------------------------------------
  // Edges

  /** `sourceValue.startsWith(".") || sourceValue.startsWith("/")`. */
  predicate IsLocalSpecifier(spec: string)
  {
    StartsWith(spec, ".") || StartsWith(spec, "/")
  }

  function MakeEdge(source: string, target: string): Edge
  {
    Edge(source + "-" + target, source, target)
  }

  /** What the ImportDeclaration visitor pushes for one specifier: an edge when the
      specifier is local and resolves to a non-empty (truthy) path that is a node id. */
  function ImportEdge(path: string, spec: string, files: seq<TreeEntry>, ids: set<string>): seq<Edge>
  {
    if IsLocalSpecifier(spec) then
      match Resolve(path, spec, files)
      case Some(target) => if target != "" && target in ids then [MakeEdge(path, target)] else []
      case None => []
    else []
  }

  /** The edges of one parsed file, in import order, duplicates kept. */
  function ImportEdges(path: string, specs: seq<string>, files: seq<TreeEntry>, ids: set<string>)
    : (edges: seq<Edge>)
    ensures forall e :: e in edges ==>
      e.source == path && e.target in ids && e.id == e.source + "-" + e.target
  {
    if |specs| == 0 then []
    else ImportEdge(path, specs[0], files, ids) + ImportEdges(path, specs[1..], files, ids)
  }

  /** A file whose parse threw contributes nothing. */
  function FileEdges(file: TreeEntry, parse: string -> ParseOutcome, files: seq<TreeEntry>, ids: set<string>)
    : seq<Edge>
  {
    match parse(file.path)
    case None => []
    case Some(specs) => ImportEdges(file.path, specs, files, ids)
  }

  /** The edges of `todo`, file after file. */
  function EdgesOf(todo: seq<TreeEntry>, parse: string -> ParseOutcome, files: seq<TreeEntry>, ids: set<string>)
    : (edges: seq<Edge>)
    ensures forall e :: e in edges ==>
      (exists f :: f in todo && f.path == e.source) && e.target in ids && e.id == e.source + "-" + e.target
  {
    if |todo| == 0 then []
    else
      var first := FileEdges(todo[0], parse, files, ids);
      assert forall e :: e in first ==> e.source == todo[0].path;
      first + EdgesOf(todo[1..], parse, files, ids)
  }

  /** The error raised when there are too many eligible files. */
  function TooManyFiles(count: nat): AppError
  {
    AppError(
      "Too many Files",
      TooManyFilesPrefix + NatToString(count) +
      "). Max allowed: " + NatToString(MaxFiles) + ".",
      None)
  }

  const TooManyFilesPrefix: string := "This repository has too many source files in src/ folder ("

  /** The error reports the number of eligible files in decimal: after the fixed opening
      come the digits of the count, and they read back as the count. */
  lemma TooManyFilesReportsCount(listing: seq<TreeEntry>, parse: string -> ParseOutcome)
    requires Analyze(listing, parse).Err?
    ensures var count := |SourceFiles(listing)|; var digits := NatToString(count);
      var d := Analyze(listing, parse).error.description;
      count > MaxFiles && StartsWith(d, TooManyFilesPrefix + digits) && DecimalValue(digits) == count
  {
    var count := |SourceFiles(listing)|;
    var digits := NatToString(count);
    var rest := "). Max allowed: " + NatToString(MaxFiles) + ".";
    var d := TooManyFilesPrefix + digits + rest;
    assert Analyze(listing, parse).error.description == d by {
      assert TooManyFiles(count).description == d;
    }
    assert d[..|TooManyFilesPrefix + digits|] == TooManyFilesPrefix + digits;
    NatToStringValue(count);
  }

  /** No dangling edges, and every edge id is `source + "-" + target`. */
  predicate WellFormed(g: Graph)
  {
    forall e :: e in g.edges ==>
      e.source in NodeIds(g.nodes) && e.target in NodeIds(g.nodes) && e.id == e.source + "-" + e.target
  }

  /** The graph `analyzeRepo` returns for a listing, or the error it throws: more than
      MaxFiles eligible files is a hard stop, exactly MaxFiles is accepted. */
  function Analyze(listing: seq<TreeEntry>, parse: string -> ParseOutcome): (r: Result<Graph, AppError>)
    ensures r.Err? <==> |SourceFiles(listing)| > MaxFiles
    ensures r.Err? ==> r.error.title == "Too many Files" && r.error.items == None
  {
    var files := SourceFiles(listing);
    if |files| > MaxFiles then Err(TooManyFiles(|files|))
    else
      var nodes := Nodes(files);
      Ok(Graph(nodes, EdgesOf(files, parse, files, NodeIds(nodes))))
  }

  /** A successful run has one node per eligible file, in listing order, with the path as
      id and the base name as label, and no dangling edges. */
  lemma AnalyzeGraph(listing: seq<TreeEntry>, parse: string -> ParseOutcome)
    requires Analyze(listing, parse).Ok?
    ensures WellFormed(Analyze(listing, parse).value)
    ensures var g := Analyze(listing, parse).value; var files := SourceFiles(listing);
      |g.nodes| == |files| &&
      forall i :: 0 <= i < |files| ==> g.nodes[i].id == files[i].path && g.nodes[i].labelText == Label(files[i].path)
  {
    var files := SourceFiles(listing);
    var nodes := Nodes(files);
    var ids := NodeIds(nodes);
    var edges := EdgesOf(files, parse, files, ids);
    NodeIdsArePaths(files);
    assert forall e :: e in edges ==> e.source in ids;
  }

  /** The body of the ImportDeclaration visitor for one import source. */
  method VisitImport(path: string, sourceValue: string, files: seq<TreeEntry>, ids: set<string>)
    returns (pushed: seq<Edge>)
    ensures pushed == ImportEdge(path, sourceValue, files, ids)
  {
    pushed := [];
    if IsLocalSpecifier(sourceValue) {
      var resolved := ResolveImportPath(path, sourceValue, files);
      if resolved.Some? && resolved.value != "" && resolved.value in ids {
        pushed := [MakeEdge(path, resolved.value)];
      }
    }
  }

  /** The traversal of one parsed file: the visitor runs on each import declaration in
      turn, pushing onto the shared edge list. */
  method CollectImportEdges(path: string, specs: seq<string>, files: seq<TreeEntry>, ids: set<string>)
    returns (edges: seq<Edge>)
    ensures edges == ImportEdges(path, specs, files, ids)
  {
    edges := [];
    assert specs[0..] == specs;
    for j := 0 to |specs|
      invariant edges + ImportEdges(path, specs[j..], files, ids) == ImportEdges(path, specs, files, ids)
    {
      assert specs[j..][1..] == specs[j + 1..];
      var pushed := VisitImport(path, specs[j], files, ids);
      assert ImportEdges(path, specs[j..], files, ids) == pushed + ImportEdges(path, specs[j + 1..], files, ids);
      edges := edges + pushed;
    }
  }

  /** The `try` around parsing one file: a parse that throws is caught and the loop
      goes on to the next file with nothing pushed. */
  method AnalyzeFile(file: TreeEntry, parse: string -> ParseOutcome, files: seq<TreeEntry>, ids: set<string>)
    returns (pushed: seq<Edge>)
    ensures pushed == FileEdges(file, parse, files, ids)
  {
    match parse(file.path) {
      case None =>
        pushed := [];
      case Some(specs) =>
        pushed := CollectImportEdges(file.path, specs, files, ids);
    }
  }

  /** The `for (const file of sourceFiles)` loop: each file's edges are pushed onto the
      shared edge list in turn. */
  method CollectEdges(sourceFiles: seq<TreeEntry>, parse: string -> ParseOutcome, validNodeIds: set<string>)
    returns (edges: seq<Edge>)
    ensures edges == EdgesOf(sourceFiles, parse, sourceFiles, validNodeIds)
  {
    edges := [];
    assert sourceFiles[0..] == sourceFiles;
    for i := 0 to |sourceFiles|
      invariant edges + EdgesOf(sourceFiles[i..], parse, sourceFiles, validNodeIds)
             == EdgesOf(sourceFiles, parse, sourceFiles, validNodeIds)
    {
      assert sourceFiles[i..][1..] == sourceFiles[i + 1..];
      var pushed := AnalyzeFile(sourceFiles[i], parse, sourceFiles, validNodeIds);
      assert EdgesOf(sourceFiles[i..], parse, sourceFiles, validNodeIds)
          == pushed + EdgesOf(sourceFiles[i + 1..], parse, sourceFiles, validNodeIds);
      edges := edges + pushed;
    }
    assert sourceFiles[|sourceFiles|..] == [];
  }

  /** `analyzeRepo` after its fetches: the filter, the cap check, the nodes and the set
      of their ids, then the edge loop. */
  method AnalyzeRepo(listing: seq<TreeEntry>, parse: string -> ParseOutcome)
    returns (r: Result<Graph, AppError>)
    ensures r == Analyze(listing, parse)
  {
    var sourceFiles := SourceFiles(listing);
    if |sourceFiles| > MaxFiles {
      return Err(TooManyFiles(|sourceFiles|));
    }
    var nodes := Nodes(sourceFiles);
    var validNodeIds := NodeIds(nodes);
    var edges := CollectEdges(sourceFiles, parse, validNodeIds);
    return Ok(Graph(nodes, edges));
  }

  /** Edges come out in file order: the edges of a concatenation of file lists are the
      edges of the first list followed by those of the second. */
  lemma {:induction false} EdgesOfAppend(a: seq<TreeEntry>, b: seq<TreeEntry>, parse: string -> ParseOutcome,
                                         files: seq<TreeEntry>, ids: set<string>)
    ensures EdgesOf(a + b, parse, files, ids) == EdgesOf(a, parse, files, ids) + EdgesOf(b, parse, files, ids)
  {
    if |a| > 0 {
      assert (a + b)[0] == a[0];
      assert (a + b)[1..] == a[1..] + b;
      EdgesOfAppend(a[1..], b, parse, files, ids);
      var head := FileEdges(a[0], parse, files, ids);
      assert EdgesOf(a + b, parse, files, ids) == head + EdgesOf(a[1..] + b, parse, files, ids);
      assert EdgesOf(a, parse, files, ids) == head + EdgesOf(a[1..], parse, files, ids);
    } else {
      assert a + b == b;
    }
  }

  /** Within a file, edges come out in import order and a repeated import repeats its edge. */
  lemma {:induction false} ImportEdgesAppend(path: string, s: seq<string>, t: seq<string>,
                                             files: seq<TreeEntry>, ids: set<string>)
    ensures ImportEdges(path, s + t, files, ids) == ImportEdges(path, s, files, ids) + ImportEdges(path, t, files, ids)
  {
    if |s| > 0 {
      assert (s + t)[0] == s[0];
      assert (s + t)[1..] == s[1..] + t;
      ImportEdgesAppend(path, s[1..], t, files, ids);
      var head := ImportEdge(path, s[0], files, ids);
      assert ImportEdges(path, s + t, files, ids) == head + ImportEdges(path, s[1..] + t, files, ids);
      assert ImportEdges(path, s, files, ids) == head + ImportEdges(path, s[1..], files, ids);
    } else {
      assert s + t == t;
    }
  }

  /** A bare (package) specifier never yields an edge. */
  lemma BareSpecifierIgnored(path: string, spec: string, files: seq<TreeEntry>, ids: set<string>)
    requires !IsLocalSpecifier(spec)
    ensures ImportEdges(path, [spec], files, ids) == []
  {
  }

  /** The edges whose source is not `p`, in order. */
  function WithoutSource(edges: seq<Edge>, p: string): (r: seq<Edge>)
    ensures forall e :: e in r <==> e in edges && e.source != p
  {
    if |edges| == 0 then []
    else (if edges[0].source != p then [edges[0]] else []) + WithoutSource(edges[1..], p)
  }

  lemma {:induction false} WithoutSourceAppend(a: seq<Edge>, b: seq<Edge>, p: string)
    ensures WithoutSource(a + b, p) == WithoutSource(a, p) + WithoutSource(b, p)
  {
    if |a| == 0 {
      assert a + b == b;
    } else {
      var head := if a[0].source != p then [a[0]] else [];
      assert WithoutSource(a + b, p) == head + WithoutSource(a[1..] + b, p) by {
        assert (a + b)[0] == a[0];
        assert (a + b)[1..] == a[1..] + b;
      }
      WithoutSourceAppend(a[1..], b, p);
      assert head + (WithoutSource(a[1..], p) + WithoutSource(b, p)) ==
        (head + WithoutSource(a[1..], p)) + WithoutSource(b, p);
    }
  }

  lemma {:induction false} WithoutSourceAllFrom(edges: seq<Edge>, p: string, q: string)
    requires forall e :: e in edges ==> e.source == q
    ensures WithoutSource(edges, p) == if p == q then [] else edges
  {
    if |edges| > 0 {
      assert edges[0] in edges;
      assert forall e :: e in edges[1..] ==> e in edges;
      WithoutSourceAllFrom(edges[1..], p, q);
      assert edges == [edges[0]] + edges[1..];
    }
  }

  /** `parse` with the file at `p` failing. */
  function FailAt(parse: string -> ParseOutcome, p: string): string -> ParseOutcome
  {
    q => if q == p then None else parse(q)
  }

  /** Per-file failure isolation: if the file at `p` fails to parse, exactly the edges
      whose source is `p` disappear; every other edge stays, in the same order. */
  lemma {:induction false} ParseFailureIsolated(todo: seq<TreeEntry>, parse: string -> ParseOutcome, p: string,
                                                files: seq<TreeEntry>, ids: set<string>)
    ensures EdgesOf(todo, FailAt(parse, p), files, ids) == WithoutSource(EdgesOf(todo, parse, files, ids), p)
  {
    if |todo| > 0 {
      var f := todo[0];
      var mine := FileEdges(f, parse, files, ids);
      assert forall e :: e in mine ==> e.source == f.path;
      WithoutSourceAllFrom(mine, p, f.path);
      WithoutSourceAppend(mine, EdgesOf(todo[1..], parse, files, ids), p);
      ParseFailureIsolated(todo[1..], parse, p, files, ids);
      assert FileEdges(f, FailAt(parse, p), files, ids) == (if f.path == p then [] else mine);
    }
  }

  /** Parse results do not affect the nodes: a file that fails to parse keeps its node. */
  lemma NodesIgnoreParse(listing: seq<TreeEntry>, parse: string -> ParseOutcome, other: string -> ParseOutcome)
    ensures Analyze(listing, parse).Ok? == Analyze(listing, other).Ok?
    ensures Analyze(listing, parse).Ok? ==> Analyze(listing, parse).value.nodes == Analyze(listing, other).value.nodes
  {
  }

  /** `./sub/name` from a file in `root` descends from `root`. */
  lemma SiblingTraversal(root: string, file: string, sub: string, name: string)
    requires '/' !in root && '/' !in file && PlainSegment(sub) && PlainSegment(name)
    ensures BasePath(root + "/" + file, "." + "/" + sub + "/" + name) == root + "/" + sub + "/" + name
  {
    assert DirectoryParts(root + "/" + file) == [root] by {
      SplitTwo(root, '/', file);
    }
    assert Split("." + "/" + sub + "/" + name, '/') == [".", sub, name] by {
      SplitThree(".", '/', sub, name);
    }
    assert Walk([root], [".", sub, name]) == [root, sub, name] by {
      assert [".", sub, name][1..] == [sub, name];
      WalkPlainSegments([root], [sub, name]);
    }
    JoinThree(root, sub, name, "/");
  }

  /** The smallest end-to-end run: `src/<app>` importing `./<dir>/<name>`, with
      `src/<dir>/<name>.ts` beside it, gives two nodes and exactly one edge. */
  lemma TwoFileExample(app: string, dir: string, name: string, parse: string -> ParseOutcome)
    requires '/' !in app && EndsWith(app, ".tsx") && PlainSegment(dir) && PlainSegment(name)
    requires parse("src/" + app) == Some(["./" + dir + "/" + name])
    requires parse("src/" + dir + "/" + name + ".ts") == Some([])
    ensures
      var appPath := "src/" + app;
      var libPath := "src/" + dir + "/" + name + ".ts";
      Analyze([TreeEntry("blob", appPath), TreeEntry("blob", libPath)], parse) ==
        Ok(Graph([Node(appPath, app), Node(libPath, name + ".ts")],
                 [Edge(appPath + "-" + libPath, appPath, libPath)]))
  {
    var appPath := "src/" + app;
    var libPath := "src/" + dir + "/" + name + ".ts";
    var listing := [TreeEntry("blob", appPath), TreeEntry("blob", libPath)];
    TwoFileNodes(app, dir, name);
    var nodes := Nodes(listing);
    var ids := NodeIds(nodes);
    assert libPath in ids by { assert nodes[1] in nodes; }
    TwoFileEdges(app, dir, name, parse, ids);
    assert Analyze(listing, parse) == Ok(Graph(nodes, EdgesOf(listing, parse, listing, ids)));
  }

  /** In that run both files are eligible and become nodes labelled with their names. */
  lemma TwoFileNodes(app: string, dir: string, name: string)
    requires '/' !in app && EndsWith(app, ".tsx") && PlainSegment(dir) && PlainSegment(name)
    ensures
      var appPath := "src/" + app;
      var libPath := "src/" + dir + "/" + name + ".ts";
      var listing := [TreeEntry("blob", appPath), TreeEntry("blob", libPath)];
      SourceFiles(listing) == listing &&
      Nodes(listing) == [Node(appPath, app), Node(libPath, name + ".ts")]
  {
    TwoFileEligible(app, dir, name);
    TwoFileLabels(app, dir, name);
  }

  lemma TwoFileEligible(app: string, dir: string, name: string)
    requires EndsWith(app, ".tsx")
    ensures
      var listing := [TreeEntry("blob", "src/" + app), TreeEntry("blob", "src/" + dir + "/" + name + ".ts")];
      SourceFiles(listing) == listing
  {
    var appPath := "src/" + app;
    var base := "src/" + dir + "/" + name;
    var libPath := base + ".ts";
    var listing := [TreeEntry("blob", appPath), TreeEntry("blob", libPath)];
    assert IsSourceFile(listing[0]) by {
      assert StartsWith(appPath, "src/") by { assert appPath[..4] == "src/"; }
      EndsWithExtended("src/", app, ".tsx");
    }
    assert IsSourceFile(listing[1]) by {
      assert StartsWith(libPath, "src/") by { assert libPath[..4] == "src/"; }
      EndsWithConcat(base, ".ts");
    }
    assert listing[1..][1..] == [];
  }

  lemma TwoFileLabels(app: string, dir: string, name: string)
    requires app != "" && '/' !in app && PlainSegment(dir) && PlainSegment(name)
    ensures Label("src/" + app) == app
    ensures Label("src/" + dir + "/" + name + ".ts") == name + ".ts"
  {
    assert Label("src/" + app) == app by {
      assert "src/" + app == "src" + "/" + app;
      SplitTwo("src", '/', app);
    }
    assert Label("src/" + dir + "/" + name + ".ts") == name + ".ts" by {
      assert '/' !in name + ".ts" by {
        assert forall k :: 0 <= k < |name| ==> (name + ".ts")[k] == name[k];
        assert (name + ".ts")[|name|..] == ".ts";
      }
      assert "src/" + dir + "/" + name + ".ts" == "src" + "/" + dir + "/" + (name + ".ts");
      SplitThree("src", '/', dir, name + ".ts");
    }
  }

  /** In that run the only edge is the App's import of the `.ts` file. */
  lemma TwoFileEdges(app: string, dir: string, name: string, parse: string -> ParseOutcome, ids: set<string>)
    requires '/' !in app && PlainSegment(dir) && PlainSegment(name)
    requires parse("src/" + app) == Some(["./" + dir + "/" + name])
    requires parse("src/" + dir + "/" + name + ".ts") == Some([])
    requires "src/" + dir + "/" + name + ".ts" in ids
    ensures
      var appPath := "src/" + app;
      var libPath := "src/" + dir + "/" + name + ".ts";
      var listing := [TreeEntry("blob", appPath), TreeEntry("blob", libPath)];
      EdgesOf(listing, parse, listing, ids) == [Edge(appPath + "-" + libPath, appPath, libPath)]
  {
    var appPath := "src/" + app;
    var libPath := "src/" + dir + "/" + name + ".ts";
    var spec := "./" + dir + "/" + name;
    var listing := [TreeEntry("blob", appPath), TreeEntry("blob", libPath)];
    TwoFileResolution(app, dir, name);
    assert ImportEdges(appPath, [spec], listing, ids) == [MakeEdge(appPath, libPath)] by {
      assert StartsWith(spec, ".");
    }
    assert FileEdges(listing[0], parse, listing, ids) == [MakeEdge(appPath, libPath)];
    assert FileEdges(listing[1], parse, listing, ids) == [];
    assert listing[1..][1..] == [];
    assert EdgesOf(listing[1..], parse, listing, ids) == [];
  }

  /** In that run the import resolves to the `.ts` file. */
  lemma TwoFileResolution(app: string, dir: string, name: string)
    requires '/' !in app && PlainSegment(dir) && PlainSegment(name)
    ensures
      var base := "src/" + dir + "/" + name;
      var listing := [TreeEntry("blob", "src/" + app), TreeEntry("blob", base + ".ts")];
      Resolve("src/" + app, "./" + dir + "/" + name, listing) == Some(base + ".ts")
  {
    var appPath := "src/" + app;
    var base := "src/" + dir + "/" + name;
    var spec := "./" + dir + "/" + name;
    var listing := [TreeEntry("blob", appPath), TreeEntry("blob", base + ".ts")];
    assert "src/" == "src" + "/" && "./" == "." + "/";
    assert appPath == "src" + "/" + app;
    assert base == "src" + "/" + dir + "/" + name;
    assert spec == "." + "/" + dir + "/" + name;
    assert BasePath(appPath, spec) == base by {
      SiblingTraversal("src", app, dir, name);
    }
    UnlistedCandidates(app, dir, name);
    assert listing[1].path == Candidates(base)[3];
    ResolveFirstAt(appPath, spec, listing, base, 3);
  }

  /** In that run no candidate before `.ts` names a listed file. */
  lemma UnlistedCandidates(app: string, dir: string, name: string)
    requires '/' !in app && PlainSegment(dir)
    ensures
      var base := "src/" + dir + "/" + name;
      var listing := [TreeEntry("blob", "src/" + app), TreeEntry("blob", base + ".ts")];
      forall j :: 0 <= j < 3 ==> !Listed(listing, Candidates(base)[j])
  {
    var base := "src/" + dir + "/" + name;
    var listing := [TreeEntry("blob", "src/" + app), TreeEntry("blob", base + ".ts")];
    var candidates := Candidates(base);
    forall j | 0 <= j < 3 ensures !Listed(listing, candidates[j]) {
      var c := candidates[j];
      assert StartsWith(c, base) by { assert c[..|base|] == base; }
      assert c[4 + |dir|] == '/' by { assert c[4 + |dir|] == base[4 + |dir|]; }
      if c == "src/" + app {
        assert false;
      }
      if c == base + ".ts" {
        assert false;
      }
    }
  }
}
