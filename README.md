# DeepWiki codemap and wiki tools, modelled in Dafny

This project models two parts of the DeepWiki backend and proves properties of them.

The first part is the **codemap** (`api/tools/codemap.py`). It walks a repository's directory tree into a tree of `FileNode` records. Hidden entries and the usual build and cache directories are dropped. Directories come before files, and each group is ordered by lower-cased name. The second piece renders the directories of that tree as a Mermaid `mindmap`, down to a fixed depth.

The second part is the **wiki tools** (`api/mcp_server.py`):
- `list_available_wikis` turns the names of cached wiki files into summaries of the form `owner/repo (type) - language`.
- `query_wiki` picks the local copy of a repository and hands the question to the retrieval engine, or returns an error message.

Files:

- `text.dfy` (module `Text`): the string operations the source relies on, with Python's semantics. These are:
  - `str.lower` on ASCII, and string `<=` (`LexLe`).
  - `startswith` / `endswith`.
  - `str.replace(pat, "")` (`RemoveAll`), `str.split` and `str.join`.
  - the POSIX `os.path.basename`.
- `codemap_tree.dfy` (module `Codemap`):
  - The filesystem is an input value, `Entry`. A directory snapshot records how its enumeration goes (`Listing`: it succeeds, it raises at once, or it raises while the k-th sorted entry is handled). A file records whether `stat` succeeds.
  - `DirNode` is the tree `build_directory_tree` returns.
  - `BuildNode` is the builder itself: a loop that appends children one by one and recurses into directories. It is proved to produce `DirNode`.
- `codemap_tree_facts.dfy` (module `CodemapTreeFacts`): what every built tree satisfies.
  - Each child list is in the sort order.
  - No hidden or excluded name appears anywhere.
  - Files are leaves.
  - Every path is the parent's path joined with the child's name.
  - A readable directory keeps exactly its admissible entries.
  - A failed scan keeps a prefix of them.
- `codemap_mindmap.dfy` (module `Mindmap`):
  - `AddNodes` is `_add_nodes`, and `GenerateMermaidCodemap` is `generate_mermaid_codemap`.
  - The output is also characterised independently. It is the header, then every directory reached through directories, in preorder, at depth 1 to 4, indented four spaces per level.
- `wiki_server.dfy` (module `WikiServer`):
  - The cache file name parser, with its round trip and its two ways of going wrong.
  - The listing loop, proved equal to a per-file summary function.
  - The repository path choice and the replies of `query_wiki`.

The recursion cut-off is `level > 3` on the level of the parent. That makes the deepest directory that is drawn sit at depth 4 below the root, not 3. The model follows the code (`Mindmap.MaxDepth`).

## Model

| member | source | states |
|---|---|---|
| Codemap.SortEntries | api/tools/codemap.py:37-38 | the entries in key order (directories first, then case-insensitive name), as a permutation of the scan |
| Codemap.BuildNode | api/tools/codemap.py:29-71 | the node built for a directory, by appending one child per admissible sorted entry and stopping at the first exception, is exactly `DirNode` |
| Codemap.ScanChildren | api/tools/codemap.py:36-71 | the loop over the sorted entries skips hidden and excluded names, appends one node per remaining entry, and ends at the entry whose handling raises; the result is exactly `Children` of the entries reached |
| Codemap.RootName | api/tools/codemap.py:21-27 | the root is shown by its basename, never empty and slash-free, or as "root" when the basename is empty |
| Codemap.BuildDirectoryTree | api/tools/codemap.py:17-71 | the tree for `path` is `DirNode` of its root name at relative path ".", a directory |
| Codemap.GenerateCodemapData | api/tools/codemap.py:106-111 | the codemap data is the directory tree of the repository path |
| Codemap.Handled | api/tools/codemap.py:36-40 | the entries the loop reaches are sorted and come from the directory's own listing |
| Codemap.RelPathChild | api/tools/codemap.py:31 | a child's relative path is its parent's joined with its name, with "." for the root dropped |
| CodemapTreeFacts.EntryNodeShape | api/tools/codemap.py:49-64 | an entry's node keeps its name, is a directory exactly for a directory entry, and a file node is a leaf sized by `stat`, or 0 when `stat` raises |
| CodemapTreeFacts.DirNodeInvariants | api/tools/codemap.py:17-71 | every built subtree is sorted at every level, free of hidden and excluded names, has files as leaves, and has consistent paths |
| CodemapTreeFacts.ChildrenInvariants | api/tools/codemap.py:40-64 | the children appended for sorted entries are in order and each is admissible and itself well formed |
| CodemapTreeFacts.EntryNodeInvariants | api/tools/codemap.py:49-64 | an admissible entry's node has the parent's path plus its name and is well formed throughout |
| CodemapTreeFacts.BuiltTreeInvariants | api/tools/codemap.py:17-71 | the whole tree is rooted at "." under the root name and satisfies every invariant above |
| CodemapTreeFacts.ChildrenOrigin | api/tools/codemap.py:40-64 | every child comes from an admissible entry of the scan |
| CodemapTreeFacts.ChildrenComplete | api/tools/codemap.py:40-64 | every admissible entry handled gives a child |
| CodemapTreeFacts.ChildrenCount | api/tools/codemap.py:40-64 | the number of children is the number of admissible entries handled |
| CodemapTreeFacts.ChildrenPermutation | api/tools/codemap.py:38-64 | the children of a reordered scan are the same multiset |
| CodemapTreeFacts.ReadableDirectoryChildren | api/tools/codemap.py:36-64 | for a directory that can be read, the children are one node per admissible entry, no more and no fewer |
| CodemapTreeFacts.FailedScanKeepsPrefix | api/tools/codemap.py:66-71 | after an exception the node is still a directory whose children are a prefix of the full result, none when the scan itself fails |
| CodemapTreeFacts.NonDirectoryRoot | api/tools/codemap.py:36-71 | a root that is not a directory gives a childless directory node |
| Mindmap.AddNodes | api/tools/codemap.py:85-101 | `_add_nodes` appends to the content exactly the lines `Lines` describes, and nothing when the level exceeds 3 |
| Mindmap.GenerateMermaidCodemap | api/tools/codemap.py:73-104 | the diagram is the header, then the depth-at-most-4 directories in preorder, one indented line each |
| Mindmap.LinesArePreorder | api/tools/codemap.py:85-103 | what `_add_nodes` appends equals the rendering of the bounded preorder of directories |
| Mindmap.DiagramDepths | api/tools/codemap.py:86-97 | a directory is drawn exactly when it is reached through directories at depth 1 to 4; a shallow tree is drawn whole |
| Mindmap.PreorderDepths | api/tools/codemap.py:89-97 | labels below a node are never shallower than its children |
| WikiServer.WikiSummary | api/mcp_server.py:35-42 | a summary is produced exactly for names with both markers that split into at least four parts |
| WikiServer.CachePartsOf | api/mcp_server.py:35-36 | a constructed cache name passes the filter and splits into type, owner, the repository's own pieces and language |
| WikiServer.CacheNameRoundTrip | api/mcp_server.py:35-42 | a cache name built from type, owner, repository and language parses back to "owner/repo (type) - language", even for a repository name containing `_` |
| WikiServer.SuffixInsideRepoIsRemoved | api/mcp_server.py:36 | ".json" inside a repository name is removed by the replace, so the listed name loses it |
| WikiServer.MarkerAcrossTokensDropsEntry | api/mcp_server.py:36-37 | type "deepwiki" and owner "cache" spell the prefix marker again, and the file is left out of the listing |
| Text.JoinSplit | api/mcp_server.py:36-40 | joining the parts of `str.split` with the separator gives the string back, so the repository name is restored |
| Text.RemoveAllAbsent | api/mcp_server.py:36 | `str.replace(pat, "")` leaves a string without `pat` unchanged |
| Mindmap.BoundedMembers | api/tools/codemap.py:86-87 | the depth filter keeps exactly the labels at depth at most 4, and invents none |
| WikiServer.ListAvailableWikis | api/mcp_server.py:24-43 | no cache directory gives [], a listing that raises lets the exception escape, otherwise one summary per accepted name in listing order |
| WikiServer.SummariesAppend | api/mcp_server.py:33-43 | the summaries of two listings placed together are the two lists placed together |
| WikiServer.SummariesMembers | api/mcp_server.py:33-43 | every accepted name's summary is listed and every listed summary comes from a name |
| WikiServer.SummariesCount | api/mcp_server.py:33-43 | the list has one entry per accepted name and never more than the directory has files |
| WikiServer.ResolveRepoPath | api/mcp_server.py:66-75 | `{owner}_{repo}` is used whenever it exists, `{repo}` only otherwise, and a path is found exactly when one of them exists |
| WikiServer.QueryWiki | api/mcp_server.py:46-93 | no local copy gives the not-found message without consulting the engine, otherwise the engine's answer or "Error processing query: " and its message |

## Left out

- Real filesystem calls (`os.scandir`, `DirEntry.is_dir`, `stat`, `os.path.exists`, `os.listdir`). They are inputs: an `Entry` snapshot, or a `pathExists` / `listdir` function. A symlink cycle cannot be written as a finite `Entry`, so non-termination of the real walk is not modelled.
- `os.path.relpath`, `basename` and `join` are modelled for POSIX only. A nested path is built as segments joined by `/`.
- `str.lower` is modelled for ASCII letters only. The Unicode case mappings are not.
- Codemap.SortEntries: it is proved sorted and a permutation. That Python's sort keeps equal keys in scan order is not stated, though the model's insertion sort is stable.
- The explicit `root_path` argument of `build_directory_tree` appears only in its recursive calls. The model passes the path from the root as segments instead.
- The logging calls on exceptions, and the logging set-up of the server, are left out: they only write to a log.
- The FastMCP host, the `@mcp.tool()` registration, `async` and `mcp.run()` are left out: they are the protocol around the two tools.
- The retrieval engine (`RAG`, `prepare_retriever`, `call`) is one parameter returning an answer or an exception's message. `str(e)` is that message as given.
- `get_adalflow_default_root_path()` is a parameter `root`. An exception raised while computing it, or inside `os.path.exists`, would also end in "Error processing query: …". That case is not modelled.
- WikiServer.CacheNameRoundTrip: it requires type, owner and language without `_`, and a body containing neither marker. Without these the parse may differ, as the two neighbouring lemmas show.
- `get_adalflow_default_root_path()` in `list_available_wikis` is the parameter `root`. An exception raised while computing it, or inside `os.path.exists`, escapes the tool. That case is not modelled; a failing `os.listdir` is.
- `query_wiki`'s default `repo_type="github"`: Dafny has no default arguments, so `QueryWiki` always takes the type, and a caller that omits it in the source corresponds to passing `WikiServer.DefaultRepoType`. The type only reaches the retrieval engine; the path choice and the replies do not depend on it.
- `generate_mermaid_codemap`'s unused `indent` parameter is not modelled.
