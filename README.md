# neuromap core in Dafny

neuromap draws a GitHub repository's React source files as a dependency map. This
project models three parts of it and proves properties of the model:

- **The repository analyser** (`lib/analyzeRepo.ts`). It keeps the source files under
  `src/` and rejects a repository with more than 55 of them. Each file becomes a node. A
  file's relative imports, resolved against the listing, become edges. A file that does
  not parse contributes no edges.
- **The sidebar file tree** (`components/Sidebar.tsx`). `buildNestedTree` turns the flat
  git-tree listing into nested folders and files. The display comparator shows each level
  folders first, then by name.
- **The validators** (`lib/validators.ts`). `validateRepoUrl` extracts owner and
  repository from a GitHub URL. `validateIsVanillaReact` accepts only plain React
  manifests.

Files:

- `wrappers.dfy`: `Option`, `Result` and `Outcome`.
- `errors.dfy`: `AppError`, with title, description and optional items (`lib/errors.ts`).
- `strings.dfy`: the JavaScript string operations the core uses.
  - `split` on one character, `join`, `startsWith` and `endsWith`.
  - Decimal rendering of a count in a template literal.
- `repo_graph.dfy`: `analyzeRepo` and `resolveImportPath`.
- `file_tree.dfy`: `buildNestedTree` and the display order.
- `validators.dfy`: both validators and the constants from `lib/constants.ts`.

Placeholders for what the model receives instead of computing:

- **Babel.** Its outcome for each file is the input `parse: string -> Option<seq<string>>`,
  keyed by path. It is `None` when `parse` throws, and otherwise the import specifiers in
  source order.
- **The git-tree listing and file contents.** These are inputs.
- **`new URL(...)`.** Its outcome is an `Option<ParsedUrl>` of hostname and pathname.

The loops the source runs become methods with loop invariants, each proved equal to a
specification function:

- `RepoGraph.AnalyzeRepo` and its helpers;
- `RepoGraph.ResolveImportPath`;
- `FileTree.BuildNestedTree`;
- `FileTree.PlacePath`, whose cursor `current` is the index path from the root to the
  children list being filled.

The properties are lemmas about those functions.

## Model

| member | source | states |
|---|---|---|
| RepoGraph.SourceFiles | lib/analyzeRepo.ts:43-48 | every kept entry is a blob whose path ends in .js/.jsx/.ts/.tsx and starts with `src/`; an entry is kept iff it is in the listing and eligible; never more than the listing |
| RepoGraph.SourceFilesAppend | lib/analyzeRepo.ts:43-48 | the filter keeps listing order: filtering a concatenation is concatenating the filtered parts |
| RepoGraph.Analyze | lib/analyzeRepo.ts:50-55 | the analysis fails iff more than 55 source files are eligible; the failure is "Too many Files" with no items |
| RepoGraph.TooManyFilesReportsCount | lib/analyzeRepo.ts:51-54 | the failure's description opens with the fixed sentence and the decimal digits of the eligible-file count, and those digits read back as the count |
| RepoGraph.LabelIsBaseName | lib/analyzeRepo.ts:60 | a node's label is the non-empty, slash-free suffix after the path's last `/` (or the whole path); a path that is empty or ends in `/` is its own label |
| RepoGraph.Nodes | lib/analyzeRepo.ts:58-65 | one node per eligible file, same order, id the path and label the base name |
| RepoGraph.NodeIds | lib/analyzeRepo.ts:68 | the id set holds exactly the ids of the nodes |
| RepoGraph.NodeIdsArePaths | lib/analyzeRepo.ts:58-68 | a string is a valid node id iff it is the path of an eligible file |
| RepoGraph.AnalyzeGraph | lib/analyzeRepo.ts:58-110 | a successful analysis has one node per eligible file in order; every edge has a listed source, a target that is a node, and id `source-target` |
| RepoGraph.WalkAppend | lib/analyzeRepo.ts:121-127 | the segment walk composes: walking `p + q` is walking `p`, then `q` |
| RepoGraph.WalkPlainSegments | lib/analyzeRepo.ts:121-127 | segments other than `.` and `..` (the empty one included) are pushed in order |
| RepoGraph.ParentOfEmptyStack | lib/analyzeRepo.ts:125 | `..` on an empty stack does nothing |
| RepoGraph.FirstListed | lib/analyzeRepo.ts:139-145 | the result is a listed candidate with no listed candidate before it; none is found iff no candidate is listed |
| RepoGraph.FirstListedAt | lib/analyzeRepo.ts:139-145 | the first listed candidate is the one found |
| RepoGraph.FindPath | lib/analyzeRepo.ts:140 | the `files.find` loop succeeds iff some entry has the path |
| RepoGraph.ResolveImportPath | lib/analyzeRepo.ts:113-146 | the stack loop, the join and the candidate loop with early return compute `Resolve`: the first of base, .js, .jsx, .ts, .tsx that is listed, or none |
| RepoGraph.ResolveFirstAt | lib/analyzeRepo.ts:131-145 | candidate k is the result when it is listed and no earlier one is |
| RepoGraph.JsBeforeTs | lib/analyzeRepo.ts:131-137 | when both `.js` and `.ts` exist and the bare base does not, `.js` wins |
| RepoGraph.ResolveToTs | lib/analyzeRepo.ts:131-145 | the `.ts` candidate is taken when the bare, `.js` and `.jsx` candidates are not listed |
| RepoGraph.ParentTraversal | lib/analyzeRepo.ts:118-129 | `../sub/name` from `root/dir/file` resolves to the base `root/sub/name` |
| RepoGraph.ParentTraversalExampleBase | lib/analyzeRepo.ts:118-129 | `../utils/helper` imported from `src/components/App.tsx` has the base `src/utils/helper` |
| RepoGraph.ParentTraversalExample | lib/analyzeRepo.ts:113-146 | that import resolves to `src/utils/helper.ts` when no earlier candidate is listed |
| RepoGraph.SiblingTraversal | lib/analyzeRepo.ts:118-129 | `./sub/name` from `root/file` has the base `root/sub/name` |
| RepoGraph.LeadingSlashIsPushed | lib/analyzeRepo.ts:119-126 | a specifier starting with `/` is not taken from the repository root: its empty first segment is pushed, so the base is `dir//a/b` |
| RepoGraph.ImportEdges | lib/analyzeRepo.ts:85-103 | every edge of a parsed file has that file as source, a node as target and the id `source-target` |
| RepoGraph.ImportEdgesAppend | lib/analyzeRepo.ts:85-103 | edges follow import order: imports `s + t` give the edges of `s`, then those of `t` |
| RepoGraph.BareSpecifierIgnored | lib/analyzeRepo.ts:88 | a specifier not starting with `.` or `/`, the empty one included, yields no edge |
| RepoGraph.EdgesOf | lib/analyzeRepo.ts:73-108 | every collected edge comes from a processed file, ends at a node and has the id `source-target` |
| RepoGraph.EdgesOfAppend | lib/analyzeRepo.ts:73-108 | the files are processed in order: edges of `a + b` are the edges of `a`, then of `b` |
| RepoGraph.WithoutSource | lib/analyzeRepo.ts:104-107 | the edges kept are exactly those whose source is not the given file |
| RepoGraph.WithoutSourceAppend | lib/analyzeRepo.ts:104-107 | removing a source's edges commutes with concatenation |
| RepoGraph.WithoutSourceAllFrom | lib/analyzeRepo.ts:104-107 | removing the source of edges that all come from it leaves none, and removing another leaves them all |
| RepoGraph.ParseFailureIsolated | lib/analyzeRepo.ts:79-107 | when one file fails to parse, the edges are the original edges minus exactly that file's |
| RepoGraph.NodesIgnoreParse | lib/analyzeRepo.ts:50-68 | success and the node list do not depend on the parse results |
| RepoGraph.VisitImport | lib/analyzeRepo.ts:86-102 | the visitor pushes an edge iff the specifier is local and resolves to a node |
| RepoGraph.CollectImportEdges | lib/analyzeRepo.ts:85-103 | the traversal pushes the edges of `ImportEdges` |
| RepoGraph.AnalyzeFile | lib/analyzeRepo.ts:79-107 | one iteration of the file loop pushes the file's edges, or none when parsing threw |
| RepoGraph.CollectEdges | lib/analyzeRepo.ts:70-108 | the file loop accumulates `EdgesOf` the source files |
| RepoGraph.AnalyzeRepo | lib/analyzeRepo.ts:29-111 | the analysis returns `Analyze`: the error when over the cap, otherwise nodes and edges |
| RepoGraph.TwoFileExample | lib/analyzeRepo.ts:43-110 | `src/app.tsx` importing `./dir/name`, beside `src/dir/name.ts`, gives exactly two nodes and one edge |
| RepoGraph.TwoFileNodes | lib/analyzeRepo.ts:43-65 | in that run both files are eligible and labelled by their file names |
| RepoGraph.TwoFileEligible | lib/analyzeRepo.ts:43-48 | both files of that run pass the filter |
| RepoGraph.TwoFileLabels | lib/analyzeRepo.ts:60 | the labels of that run are `app` and `name.ts` |
| RepoGraph.TwoFileEdges | lib/analyzeRepo.ts:73-108 | the only edge of that run is the import of the `.ts` file |
| RepoGraph.TwoFileResolution | lib/analyzeRepo.ts:113-146 | the import of that run resolves to the `.ts` file |
| RepoGraph.UnlistedCandidates | lib/analyzeRepo.ts:131-137 | in that run the bare, `.js` and `.jsx` candidates are not listed |
| FileTree.FindIndex | components/Sidebar.tsx:226 | `find` gives the first entry with the name, or nothing iff no entry has it |
| FileTree.PlacePath | components/Sidebar.tsx:221-243 | the cursor walk over one path's segments yields the tree `Insert` describes |
| FileTree.DescendStep | components/Sidebar.tsx:228-229 | moving the cursor into folder k points it at that folder's children, and filling them there rebuilds the tree around it |
| FileTree.ReplaceAtValid | components/Sidebar.tsx:230-241 | after a push through the cursor, the cursor still points to the list, which now holds the pushed entry |
| FileTree.ReplaceAtTwice | components/Sidebar.tsx:230-241 | two updates through the same cursor amount to the last |
| FileTree.ReplaceAtSame | components/Sidebar.tsx:218-244 | writing back what the cursor points to changes nothing |
| FileTree.BuildNestedTree | components/Sidebar.tsx:215-247 | the loop over the listing returns `BuildTree`, and the result has unique sibling names |
| FileTree.InsertPreservesUnique | components/Sidebar.tsx:226-241 | placing a path keeps sibling names pairwise distinct at every level |
| FileTree.AddItemPreservesUnique | components/Sidebar.tsx:218-244 | placing an item keeps sibling names distinct |
| FileTree.FindIndexSameNames | components/Sidebar.tsx:226 | lookups agree on levels with the same names at the same positions |
| FileTree.ExtendsReflexive | components/Sidebar.tsx:218-244 | a tree extends itself |
| FileTree.ExtendsTransitive | components/Sidebar.tsx:218-244 | extension composes over successive items |
| FileTree.FindIndexExtends | components/Sidebar.tsx:226 | a name found keeps being found at the same index once entries are appended |
| FileTree.PrefixNames | components/Sidebar.tsx:226 | the first match stays first when the entries up to it are unchanged |
| FileTree.InsertExtends | components/Sidebar.tsx:221-243 | placing a path only appends: every entry keeps its position, name and kind, recursively |
| FileTree.BuildTreeAppendOnly | components/Sidebar.tsx:218-244 | each further listing item extends the tree built so far |
| FileTree.OtherKindsIgnored | components/Sidebar.tsx:219 | an item that is neither blob nor tree leaves the tree unchanged |
| FileTree.InsertIdempotent | components/Sidebar.tsx:221-243 | placing the same path twice is the same as placing it once |
| FileTree.AddItemIdempotent | components/Sidebar.tsx:218-244 | listing the same item twice adds nothing the second time |
| FileTree.NamesAppend | components/Sidebar.tsx:209-213 | the names, file names and file count of concatenated levels are the unions and sum |
| FileTree.NamesAround | components/Sidebar.tsx:209-213 | names, file names and file count of a level split around one entry |
| FileTree.NamesCons | components/Sidebar.tsx:209-213 | names, file names and file count of a level split after its first entry |
| FileTree.NamesSingle | components/Sidebar.tsx:209-213 | a one-entry level has that entry's names, file names and files |
| FileTree.InsertNames | components/Sidebar.tsx:221-243 | placing a path adds exactly its segments to the tree's names |
| FileTree.InsertFileCount | components/Sidebar.tsx:225-241 | a tree item creates no file; a blob creates at most one |
| FileTree.BlobNamePresent | components/Sidebar.tsx:221-243 | after a blob is placed, its last segment names an entry |
| FileTree.FileBlocksDescent | components/Sidebar.tsx:226-242 | when the next segment names a file at this level, the rest of the path is placed at this same level |
| FileTree.NewFolderForPath | components/Sidebar.tsx:231-240 | a new intermediate segment becomes a folder, appended at the end, holding the rest of the path placed in an empty level |
| FileTree.InsertFileNames | components/Sidebar.tsx:225-241 | the only file name a walk can add is the last segment of a blob; a tree item adds none |
| FileTree.LexLeTotal | components/Sidebar.tsx:131 | the name order is total |
| FileTree.LexLeAntisymmetric | components/Sidebar.tsx:131 | names ordered both ways are equal |
| FileTree.LexLeTransitive | components/Sidebar.tsx:131 | the name order is transitive |
| FileTree.LexLeReflexive | components/Sidebar.tsx:131 | every name is ordered with itself |
| FileTree.CompareAntisymmetric | components/Sidebar.tsx:130-133 | swapping the comparator's arguments flips the sign; zero means same type and same name |
| FileTree.CompareTotal | components/Sidebar.tsx:130-133 | any two entries are ordered one way or the other |
| FileTree.CompareTransitive | components/Sidebar.tsx:130-133 | the comparator's order is transitive |
| FileTree.SortedCons | components/Sidebar.tsx:128-133 | an entry that precedes a sorted level can head it |
| FileTree.PrecedesMembers | components/Sidebar.tsx:128-133 | what precedes a level precedes each of its entries |
| FileTree.InsertSortedPermutes | components/Sidebar.tsx:128-133 | one sorting step adds exactly the inserted entry |
| FileTree.InsertSortedSorted | components/Sidebar.tsx:128-133 | one sorting step keeps a sorted level sorted |
| FileTree.SortForDisplayCorrect | components/Sidebar.tsx:185-190 | the display order is a permutation of the level, sorted by the comparator |
| FileTree.DisplayOrder | components/Sidebar.tsx:128-133 | in the display order every folder precedes every file, and entries of one type appear in name order |
| Validators.NonEmpty | lib/validators.ts:7 | `filter(Boolean)` keeps exactly the non-empty segments |
| Validators.NonEmptyAppend | lib/validators.ts:7 | the filter keeps segment order |
| Validators.ValidateRepoUrl | lib/validators.ts:4-21 | success iff the URL parsed, the host is `github.com` and the path has exactly two non-empty segments, which are owner and repository; every failure is "Invalid URL format", never the inner error |
| Validators.TrailingSlashIgnored | lib/validators.ts:7 | a trailing `/` does not change the segments |
| Validators.DoubledSlashIgnored | lib/validators.ts:7 | a doubled `/` counts as one |
| Validators.RepositoryUrlRoundTrip | lib/validators.ts:4-21 | the path `/owner/repo`, with or without a trailing slash, on `github.com` gives back owner and repository |
| Validators.OtherHostRejected | lib/validators.ts:8-20 | any other host fails with "Invalid URL format" |
| Validators.MergedDependencies | lib/validators.ts:25-28 | the merge has the names of both maps, and a name in both takes its development version |
| Validators.PresentNames | lib/validators.ts:42 | a name is found iff it is in the list and its dependency entry is truthy |
| Validators.PresentNamesAppend | lib/validators.ts:42 | the filter keeps list order |
| Validators.PresentNamesInOrder | lib/validators.ts:42 | two present names are reported in their list positions |
| Validators.PresentNamesNone | lib/validators.ts:42 | nothing is found when no listed name is present |
| Validators.DetectedInListOrder | lib/constants.ts:3-11 | with only next and blitz present the report is [next, blitz] |
| Validators.CheckDependencies | lib/validators.ts:30-53 | a missing react or react-dom gives "React not found" even if frameworks are present; otherwise any present forbidden name gives "Unsupported framework detected" naming those found; it passes iff React is present and no forbidden name is |
| Validators.ValidateIsVanillaReact | lib/validators.ts:24-54 | the same over the merged dependencies and the framework list of lib/constants.ts |
| Validators.VanillaReactErrors | lib/validators.ts:31-52 | the two errors have different titles and three items each; the framework error's last item is the fixed prefix and the names joined by ", " |
| Validators.ReactCheckFirst | lib/validators.ts:30-43 | a Next.js manifest without react-dom is reported as missing React |
| Validators.PlainReactPasses | lib/validators.ts:24-54 | a manifest with both React packages and no forbidden framework passes |
| Strings.Split | lib/validators.ts:7 | `split` always returns at least one part, and no part contains the separator |
| Strings.JoinSplit | lib/analyzeRepo.ts:118-129 | joining the parts of a split with the same separator gives the string back |
| Strings.SplitJoin | lib/analyzeRepo.ts:118-129 | splitting a join of separator-free parts gives the parts back |
| Strings.SplitAtSep | lib/analyzeRepo.ts:118-119 | the parts of `a/b` are the parts of `a` followed by those of `b` |
| Strings.SplitLast | lib/analyzeRepo.ts:60 | the last part of a split is the string's longest separator-free suffix |
| Strings.NatToString | lib/analyzeRepo.ts:53 | the decimal rendering is non-empty digits without a leading zero |
| Strings.NatToStringValue | lib/analyzeRepo.ts:53 | the rendered digits read back as the number |

## Left out

- Network access is left out. This covers the git-tree fetch, each file's raw-content fetch,
  `process.env.GITHUB_TOKEN` and the API route (`app/api/validate-repo/route.ts`). The
  listing and the per-file parse outcome are inputs.
- The per-file content fetch is left out, and the model takes every fetch to succeed. In
  the source, the fetch and `text()` at lib/analyzeRepo.ts:74-77 sit outside the `try`, so
  a rejected fetch aborts the whole analysis; the model has no such failure, and
  `RepoGraph.Analyze` fails only on the file limit. A not-found response does not reject:
  its body text is parsed like any other content, which the model covers through the
  parse outcome. Files are processed one after another, as in the source.
- Babel parsing and traversal are left out. Their outcome is the `parse` input: a file's
  import specifiers, or `None` when `parse` throws. Traversal is all-or-nothing in the
  model. In the source, a throw in the middle of a traversal would keep the edges already
  pushed for that file.
- Node positions are omitted because they come from `Math.random`. The `url` field of
  `MapTreeNode` is omitted because the core never reads it.
- `new URL` is left out. `Validators.ValidateRepoUrl` receives its hostname and pathname,
  or `None` when it threw. Host normalisation, such as lower-casing, happens in `new URL`.
- `Validators.MergedDependencies`: dependency values are strings, and a value is truthy
  when non-empty. Other JSON values (numbers, objects) are not modelled.
- `FileTree.LexLe`: `localeCompare` is modelled as lexicographic order on character codes,
  not a locale's collation.
- `FileTree.SortForDisplay`: the library `sort` is modelled as a stable insertion sort of a
  copy. It agrees with `Array.prototype.sort` whenever the comparator has no ties, and it
  has none on a level with unique sibling names.
- `FileTree.PlacePath`: the tree is a value, and the cursor is the index path to the
  children list it would alias. Object identity and aliasing are therefore not modelled.
- Layout (`layoutGraph`), rate limiting and every React component are out of scope. The
  `Sidebar` and `FileItem` rendering, effects and collapsible state are part of that.
