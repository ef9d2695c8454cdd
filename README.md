# Kythe file tree, modelled in Dafny

This project models the in-memory file tree of Kythe's `filetree` service:
the type `Map`, which indexes file nodes by corpus, root and directory path.
`Populate` scans a graph store for nodes whose `/kythe/node/kind` fact is
`file` and passes each one to `AddFile`. `AddFile` cleans the file's path
with `filepath.Join("/", path)`, creates the file's directory and every
missing ancestor up to "/" (`ensureDir`, via `ensureCorpusRoot`), links each
new directory into its parent's subdirectory list, and adds the file's
ticket to its directory's file list. Both lists are duplicate-free
(`addToSet`). `Dir` returns the record stored under a (corpus, root, path)
key or nothing. `CorporaRoots` lists every corpus with its roots.

The project has four modules:

- `Paths` (Paths.dfy) is the Unix `path/filepath` behaviour the tree relies
  on. A cleaned rooted path is a sequence of segments, `Render` gives its
  string, `Rooted` is `filepath.Join("/", s)` and `DirOf` is
  `filepath.Dir(filepath.Join("/", s))`.
- `KytheUri` (KytheUri.dfy) holds VNames and tickets.
- `Directories` (Directories.dfy) is one (corpus, root) directory map: the
  functions `AddToSet`, `EnsureDirs` and `LinkToParent`, and the invariant
  `Coherent` these keep. Under `Coherent`:
  - every key is a cleaned path;
  - both lists are duplicate-free;
  - every subdirectory entry names a stored child;
  - every file ticket names a file directly inside the directory;
  - every directory except "/" is listed by its parent.
- `FileTree` (FileTree.dfy) is the whole tree (`Tree`), the functions that
  give the meaning of `AddFile`, `Populate` and `Dir` on it, and the class
  `Map`. The class's methods update its field `M` in place as the Go code
  does. Each method is proved to leave exactly the map its function
  describes. The constructor, `AddFile`, `Populate` and `EnsureDir` are
  also proved to keep the invariant `ValidTree`. `EnsureCorpusRoot` does
  not keep it: it is an internal step that may store an empty directory map
  for a new (corpus, root), which the Go code also has at that point
  (filetree.go:122-125) until `ensureDir` fills it.

The Go `*FileDirectory` records are values stored in the nested map, and a
write through a pointer is an update of the map at that record's key. This
is exact because each record is stored under exactly one key.

`AddFile` cleans the file's path with `filepath.Join("/", …)`
(filetree.go:80), but `Map.Dir` looks its path up verbatim
(filetree.go:111). So `Dir` never finds a path that cleaning would change,
such as "a/b", "/a/b/" or "/a/./b", even when "/a/b" is stored.
`FileTree.DirUncleanMissing` states this.

## Model

| member | source | states |
|---|---|---|
| Paths.Rooted | kythe/go/services/filetree/filetree.go:80 | `filepath.Join("/", path)` always yields a well-formed cleaned rooted path |
| Paths.Parent | kythe/go/services/filetree/filetree.go:137 | `filepath.Dir` of a cleaned rooted path other than "/" is exactly one segment shorter, so the recursion of `ensureDir` reaches "/" |
| Paths.DirOf | kythe/go/services/filetree/filetree.go:81 | `filepath.Dir(filepath.Join("/", path))` is a rooted string that is already clean, so it is a valid directory key |
| Paths.RootedRender | kythe/go/services/filetree/filetree.go:80 | cleaning the string of a cleaned path gives that path back, so such strings are fixed points of cleaning |
| Paths.RootedIdempotent | kythe/go/services/filetree/filetree.go:80 | joining to "/" is idempotent: its result is already clean and cleans to itself |
| Paths.RenderInjective | kythe/go/services/filetree/filetree.go:131 | two cleaned paths with the same string are the same path, so string keys identify directories |
| Paths.DirOfRender | kythe/go/services/filetree/filetree.go:136-137 | `filepath.Dir` of a cleaned path's string is its parent's string, and for every path but "/" that string differs from the path's own, so the recursion moves to a different key |
| KytheUri.FromVName | kythe/go/services/filetree/filetree.go:79 | `kytheuri.ToString(file)` carries all five VName fields unchanged, so distinct files have distinct tickets |
| KytheUri.DirUri | kythe/go/services/filetree/filetree.go:138-142 | a directory's ticket sets only corpus, root and path; signature and language are empty |
| Directories.AddToSet | kythe/go/services/filetree/filetree.go:149-156 | the list is returned unchanged when it holds the string, otherwise the string is appended; the result always holds the string and keeps the old list as a prefix; a duplicate-free list stays duplicate-free |
| Directories.EnsureDirs | kythe/go/services/filetree/filetree.go:129-147 | after ensuring a directory its key is present and no key is lost |
| Directories.LinkToParent | kythe/go/services/filetree/filetree.go:138-143 | linking adds no key, and afterwards the parent's subdirectory list holds the directory's ticket |
| Directories.LinkToParentOnly | kythe/go/services/filetree/filetree.go:143 | linking keeps the parent's files, only grows its subdirectories, and leaves every other record as it was |
| Directories.EnsureDirsOnlyAdds | kythe/go/services/filetree/filetree.go:129-147 | existing records keep their file lists and only grow their subdirectory lists; every new record is an ancestor of the path and has no files |
| Directories.EnsureDirsKeys | kythe/go/services/filetree/filetree.go:129-147 | under the invariant, the keys afterwards are exactly the old keys plus the path and all its ancestors up to "/" |
| Directories.EnsureDirsCoherent | kythe/go/services/filetree/filetree.go:129-147 | ensuring a directory keeps the directory-map invariant: cleaned keys, no duplicates, children stored, every non-root directory linked from its parent |
| Directories.EnsureDirsFrame | kythe/go/services/filetree/filetree.go:129-147 | a record under a key that is not among the path's ancestors is neither read nor changed by ensuring the path |
| Directories.EnsureDirsUnfold | kythe/go/services/filetree/filetree.go:133-143 | inserting a missing directory, ensuring its parent and then linking it equals ensuring the parent first; the parent key differs from the directory's own |
| Directories.LinkChildCoherent | kythe/go/services/filetree/filetree.go:133-143 | storing a new empty directory and adding its ticket to its existing parent keeps the invariant |
| Directories.AncestorsLinked | kythe/go/services/filetree/filetree.go:136-143 | under the invariant, every prefix of a stored directory is stored, and each is listed among its parent's subdirectories |
| Directories.RootPresent | kythe/go/services/filetree/filetree.go:136 | a non-empty directory map holds "/" |
| Directories.RootNeverLinked | kythe/go/services/filetree/filetree.go:136 | "/" is never listed as anybody's subdirectory |
| Directories.SubdirectoryExact | kythe/go/services/filetree/filetree.go:138-143 | a directory's subdirectory list holds a child's ticket exactly when the child is stored, is not "/" and has this directory as parent |
| Directories.AddTicketCoherent | kythe/go/services/filetree/filetree.go:82 | adding a file's ticket to the record of its own directory keeps the invariant |
| FileTree.Dir | kythe/go/services/filetree/filetree.go:102-112 | not found exactly when the corpus, the root or the verbatim path key is unknown; otherwise the stored record |
| FileTree.DirUncleanMissing | kythe/go/services/filetree/filetree.go:111 | on a tree built by `AddFile`, a path that cleaning would change is never found |
| FileTree.WithDirsFacts | kythe/go/services/filetree/filetree.go:114-127 | after `ensureCorpusRoot` and a write through the map it returns, that (corpus, root) holds the written map, every other pair is unchanged, and the pair is known |
| FileTree.WithFile | kythe/go/services/filetree/filetree.go:78-83 | adding a file to a directory map keeps every key, and afterwards the file's cleaned directory exists and lists the file's ticket |
| FileTree.AddedFile | kythe/go/services/filetree/filetree.go:78-83 | `AddFile` adds exactly the file's corpus to the corpora, creates its root, and leaves the file's directory present with the file's ticket listed |
| FileTree.WithDirsValid | kythe/go/services/filetree/filetree.go:114-127 | storing a non-empty coherent directory map for a (corpus, root) keeps the tree invariant |
| FileTree.EnsureDirValid | kythe/go/services/filetree/filetree.go:129-147 | `ensureDir` on a valid tree leaves a valid tree |
| FileTree.WithFileCoherent | kythe/go/services/filetree/filetree.go:78-83 | adding a file to a directory map keeps the invariant and leaves the map non-empty |
| FileTree.WithFileIdempotent | kythe/go/services/filetree/filetree.go:78-83 | adding a file to a directory map twice is the same as adding it once |
| FileTree.WithFileTickets | kythe/go/services/filetree/filetree.go:82 | adding a file to a directory map introduces no file ticket other than the file's own |
| FileTree.AddFileIndexes | kythe/go/services/filetree/filetree.go:78-83 | after `AddFile`, `Dir` finds the file's cleaned directory and its file list holds the file's ticket |
| FileTree.AddFileAncestors | kythe/go/services/filetree/filetree.go:78-83 | after `AddFile`, "/" and every ancestor of the file's directory exist, and each non-root one is listed in its parent's subdirectories |
| FileTree.AddFileValid | kythe/go/services/filetree/filetree.go:78-83 | `AddFile` keeps the tree invariant |
| FileTree.AddFileKeys | kythe/go/services/filetree/filetree.go:78-83 | the directories of the file's (corpus, root) after `AddFile` are exactly those before plus the file's directory and all its ancestors up to "/" |
| FileTree.AddFileIdempotent | kythe/go/services/filetree/filetree.go:78-83 | adding the same file twice leaves the same tree as adding it once |
| FileTree.AddFileOnlyGrows | kythe/go/services/filetree/filetree.go:78-83 | `AddFile` only adds records and grows lists; every other (corpus, root) is untouched; the known pairs grow by exactly the file's pair |
| FileTree.AddFileTickets | kythe/go/services/filetree/filetree.go:82 | every file ticket after `AddFile` was already there, or is the new file's |
| FileTree.EmptyValid | kythe/go/services/filetree/filetree.go:54-56 | the empty tree satisfies the invariant and knows no pairs |
| FileTree.DocsScenario | kythe/go/services/filetree/filetree.go:78-83 | after adding "/docs/readme" and "/docs/api/index", "/docs" lists the first file and "/docs/api", and "/docs/api" lists the second file |
| FileTree.DiscoveryScenario | kythe/go/services/filetree/filetree.go:114-127 | after adding two files to an empty tree, the known pairs are exactly their two (corpus, root) pairs |
| FileTree.ExtendsTreeTrans | kythe/go/services/filetree/filetree.go:78-83 | "only grows" composes over successive insertions |
| FileTree.IsFileNode | kythe/go/services/filetree/filetree.go:65 | the callback's test: the fact name is the node-kind fact and the value is "file" |
| FileTree.Populated | kythe/go/services/filetree/filetree.go:63-68 | the callback run over the scanned entries in order, calling `AddFile` on the file nodes only; no corpus is lost, and every file entry's corpus is present afterwards |
| FileTree.PopulateValid | kythe/go/services/filetree/filetree.go:59-75 | `Populate` keeps the tree invariant |
| FileTree.PopulateOnlyGrows | kythe/go/services/filetree/filetree.go:59-75 | `Populate` never removes a record or shortens a list |
| FileTree.PopulateIndexesFiles | kythe/go/services/filetree/filetree.go:63-68 | every file entry the scan delivered is found by `Dir` under its cleaned directory, with its ticket listed |
| FileTree.PopulateTicketsFromFiles | kythe/go/services/filetree/filetree.go:65-66 | starting from an empty tree, every listed file ticket is the ticket of a file entry of the scan; other entries add nothing |
| FileTree.PopulateDirsFromFiles | kythe/go/services/filetree/filetree.go:63-68 | starting from an empty tree, every stored directory is the directory of a file entry of the scan, or one of its ancestors, under that entry's corpus and root |
| FileTree.FilePairsSnoc | kythe/go/services/filetree/filetree.go:63-68 | the file pairs of a sequence of entries are those of its prefix plus that of its last entry when that entry is a file node |
| FileTree.PopulatePairs | kythe/go/services/filetree/filetree.go:65-66 | `Populate` adds exactly the (corpus, root) pairs of the file entries |
| FileTree.Map.constructor | kythe/go/services/filetree/filetree.go:54-56 | `NewMap` yields an empty tree that satisfies the invariant |
| FileTree.Map.Populate | kythe/go/services/filetree/filetree.go:59-75 | calls `AddFile` for exactly the entries whose fact is the node kind with value "file", in scan order; it fails, with the wrapped message, exactly when the scan fails; it keeps the invariant |
| FileTree.Map.AddFile | kythe/go/services/filetree/filetree.go:78-83 | the new map is `AddedFile` of the old one, and the invariant is kept |
| FileTree.Map.CorporaRoots | kythe/go/services/filetree/filetree.go:86-99 | reports every corpus of the tree exactly once, each with exactly its roots, none twice |
| FileTree.Map.RootsOf | kythe/go/services/filetree/filetree.go:89-92 | collects exactly the roots of a corpus, each once |
| FileTree.Map.EnsureCorpusRoot | kythe/go/services/filetree/filetree.go:114-127 | afterwards the corpus and root maps exist, and the returned map is the one stored, unchanged when it existed and empty otherwise |
| FileTree.Map.EnsureDir | kythe/go/services/filetree/filetree.go:129-147 | the tree becomes exactly `EnsureDirs` of the old directory map at that (corpus, root); the returned record is the one stored under the path's key; a valid tree stays valid |

## Left out

- `webClient`, `WebClient` and `corpusPath` are not modelled. They forward the same queries over the network.
- `RegisterHTTPHandlers` is not modelled. It is HTTP serving and encoding.
- The `Service` interface is not modelled as a type. `Map`'s two query operations are modelled directly, and their `error` results, which are always nil for `Map`, are dropped.
- Logging, timing and the `total` counter in `Populate` are left out. They are for observability only.
- The graph store scan is a parameter. It is the sequence of entries delivered to the callback plus an optional error. The store-side `FactPrefix` filter is not modelled, because the callback re-checks the fact name.
- Entries carry only the source VName, fact name and fact value. Other entry fields are not read by the core.
- Tickets (`kytheuri.ToString`, `URI.String`) are held as the structured URI value rather than as its string encoding. This assumes the encoding is one-to-one, so comparing tickets compares URIs.
- Only Unix `path/filepath` semantics are modelled. Windows volume names and separators are not.
- FileTree.Map.EnsureDir: takes the cleaned path as a segment sequence rather than as a string. Every call passes a path that `filepath.Join` or `filepath.Dir` has already cleaned.
- Records are values in the map rather than shared pointers. The record `ensureDir` returns is the one stored when it returns; later writes go through the map.
- Concurrent use is not modelled. The map has no synchronisation, and population is meant to finish before queries start.
- The order of Go's map iteration in `CorporaRoots` is left unspecified: the method picks keys nondeterministically.
