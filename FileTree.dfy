/**
  The in-memory file tree `filetree.Map`: corpus -> root -> directory path ->
  `FileDirectory`, filled from a graph store scan and queried with `Dir`
  and `CorporaRoots`.

  The pure functions below give the meaning of each operation on the nested
  map (`Tree`); the class `Map` holds the map in a field and its methods
  update it in place the way the Go code does, each proved to produce the
  map its function describes.
 */
module FileTree {
  import opened Paths
  import opened KytheUri
  import opened Directories

  datatype Option<T> = None | Some(value: T)

  /** The `error` result of `Populate`: nil or an error message. */
  datatype Outcome = Pass | Fail(error: string)

  /** corpus -> root -> directory path -> record (`Map.M`). */
  type Tree = map<string, map<string, Dirs>>

  /** The directory map of (corpus, root); empty when either is unknown. */
  function DirsOf(m: Tree, corpus: string, root: string): Dirs {
    if corpus in m && root in m[corpus] then m[corpus][root] else map[]
  }

  /**
    `m` with the directory map of (corpus, root) replaced by `d`, creating
    the per-corpus and per-root maps when they are missing (`ensureCorpusRoot`
    followed by writes through the map it returns).
   */
  function WithDirs(m: Tree, corpus: string, root: string, d: Dirs): Tree {
    m[corpus := (if corpus in m then m[corpus] else map[])[root := d]]
  }

  /**
    `Map.Dir`: the record stored under exactly the string `path`. It never
    fails; an unknown corpus, an unknown root and an absent path all give
    "not found". The path is looked up as given, without the cleaning that
    `AddFile` applies.
   */
  function Dir(m: Tree, corpus: string, root: string, path: string): (r: Option<FileDirectory>)
    ensures r.None? <==> corpus !in m || root !in m[corpus] || path !in m[corpus][root]
    ensures r.Some? ==> r.value == DirsOf(m, corpus, root)[path]
  {
    if corpus !in m then None
    else if root !in m[corpus] then None
    else if path !in m[corpus][root] then None
    else Some(m[corpus][root][path])
  }

  /** The (corpus, root) pairs the tree knows. */
  ghost function Pairs(m: Tree): set<(string, string)> {
    set c, r | c in m && r in m[c] :: (c, r)
  }

  /**
    The invariant of a tree built by `AddFile`: no corpus without roots, no
    root without directories, and every directory map coherent.
   */
  ghost predicate ValidTree(m: Tree) {
    && (forall c :: c in m ==> m[c] != map[])
    && (forall c, r :: c in m && r in m[c] ==> m[c][r] != map[] && Coherent(c, r, m[c][r]))
  }

  /** Every record of `m` is still in `n`, with its lists kept as prefixes. */
  ghost predicate ExtendsTree(m: Tree, n: Tree) {
    forall c, r :: Extends(DirsOf(m, c, r), DirsOf(n, c, r))
  }

  /** Reading back the map written by `WithDirs`, and the pairs it knows. */
  lemma {:induction false} WithDirsFacts(m: Tree, corpus: string, root: string, d: Dirs)
    ensures DirsOf(WithDirs(m, corpus, root, d), corpus, root) == d
    ensures forall c, r :: (c, r) != (corpus, root) ==> DirsOf(WithDirs(m, corpus, root, d), c, r) == DirsOf(m, c, r)
    ensures Pairs(WithDirs(m, corpus, root, d)) == Pairs(m) + {(corpus, root)}
  {
  }

  /** Writing the directory map of the same (corpus, root) twice keeps the second. */
  lemma {:induction false} WithDirsTwice(m: Tree, corpus: string, root: string, a: Dirs, b: Dirs)
    ensures WithDirs(WithDirs(m, corpus, root, a), corpus, root, b) == WithDirs(m, corpus, root, b)
  {
    assert WithDirs(m, corpus, root, a)[corpus][root := b] == (if corpus in m then m[corpus] else map[])[root := b];
  }

  /** Writing back the directory map already stored changes nothing. */
  lemma {:induction false} WithDirsSame(m: Tree, corpus: string, root: string)
    requires corpus in m && root in m[corpus]
    ensures WithDirs(m, corpus, root, DirsOf(m, corpus, root)) == m
  {
    assert m[corpus][root := m[corpus][root]] == m[corpus];
  }

  /**
    `AddFile` on one directory map: ensure the file's directory
    `filepath.Dir(filepath.Join("/", path))` and its ancestors exist, then add
    the file's ticket to that directory.
   */
  function WithFile(d: Dirs, file: VName): (r: Dirs)
    ensures d.Keys <= r.Keys
    ensures DirOf(file.path) in r && FromVName(file) in r[DirOf(file.path)].fileTicket
  {
    var dir := Parent(Rooted(file.path));
    var e := EnsureDirs(d, file.corpus, file.root, dir);
    var key := Render(dir);
    e[key := e[key].(fileTicket := AddToSet(e[key].fileTicket, FromVName(file)))]
  }

  /** `Map.AddFile`: the file's (corpus, root) gets `WithFile` of its directory map. */
  function AddedFile(m: Tree, file: VName): (n: Tree)
    ensures n.Keys == m.Keys + {file.corpus} && file.root in n[file.corpus]
    ensures DirOf(file.path) in n[file.corpus][file.root]
    ensures FromVName(file) in n[file.corpus][file.root][DirOf(file.path)].fileTicket
  {
    WithDirs(m, file.corpus, file.root, WithFile(DirsOf(m, file.corpus, file.root), file))
  }

  /** `WithFile` keeps the invariant and leaves the map non-empty. */
  lemma {:induction false} WithFileCoherent(d: Dirs, file: VName)
    requires Coherent(file.corpus, file.root, d)
    ensures Coherent(file.corpus, file.root, WithFile(d, file)) && WithFile(d, file) != map[]
  {
    var dir := Parent(Rooted(file.path));
    EnsureDirsCoherent(d, file.corpus, file.root, dir);
    AddTicketCoherent(EnsureDirs(d, file.corpus, file.root, dir), file.corpus, file.root, file);
    assert DirOf(file.path) in WithFile(d, file);
  }

  /** `WithFile` is idempotent. */
  lemma {:induction false} WithFileIdempotent(d: Dirs, file: VName)
    ensures WithFile(WithFile(d, file), file) == WithFile(d, file)
  {
  }

  /** `WithFile` only adds records and grows lists. */
  lemma {:induction false} WithFileGrows(d: Dirs, file: VName)
    ensures Extends(d, WithFile(d, file))
  {
    EnsureDirsOnlyAdds(d, file.corpus, file.root, Parent(Rooted(file.path)));
  }

  /** `WithFile` adds no file ticket but the file's own. */
  lemma {:induction false} WithFileTickets(d: Dirs, file: VName, k: string, u: URI)
    requires k in WithFile(d, file) && u in WithFile(d, file)[k].fileTicket
    ensures u == FromVName(file) || (k in d && u in d[k].fileTicket)
  {
    EnsureDirsOnlyAdds(d, file.corpus, file.root, Parent(Rooted(file.path)));
  }

  lemma {:induction false} ValidTreeDirs(m: Tree, corpus: string, root: string)
    requires ValidTree(m)
    ensures Coherent(corpus, root, DirsOf(m, corpus, root))
  {
  }

  /** After `AddFile`, the file's directory is found by `Dir` and lists the file's ticket. */
  lemma {:induction false} AddFileIndexes(m: Tree, file: VName)
    ensures var r := Dir(AddedFile(m, file), file.corpus, file.root, DirOf(file.path));
            r.Some? && FromVName(file) in r.value.fileTicket
  {
  }

  /** Storing a non-empty coherent directory map keeps the tree invariant. */
  lemma {:induction false} WithDirsValid(m: Tree, corpus: string, root: string, d: Dirs)
    requires ValidTree(m) && d != map[] && Coherent(corpus, root, d)
    ensures ValidTree(WithDirs(m, corpus, root, d))
  {
    var n := WithDirs(m, corpus, root, d);
    forall c, r | c in n && r in n[c] ensures n[c][r] != map[] && Coherent(c, r, n[c][r]) {
      if c != corpus || r != root {
        assert n[c][r] == m[c][r];
      }
    }
    forall c | c in n ensures n[c] != map[] {
      if c == corpus {
        assert root in n[c];
      }
    }
  }

  /** `ensureDir` on a valid tree leaves a valid tree. */
  lemma {:induction false} EnsureDirValid(m: Tree, corpus: string, root: string, p: Path)
    requires ValidTree(m) && WellFormed(p)
    ensures ValidTree(WithDirs(m, corpus, root, EnsureDirs(DirsOf(m, corpus, root), corpus, root, p)))
  {
    ValidTreeDirs(m, corpus, root);
    EnsureDirsCoherent(DirsOf(m, corpus, root), corpus, root, p);
    WithDirsValid(m, corpus, root, EnsureDirs(DirsOf(m, corpus, root), corpus, root, p));
  }

  /** `AddFile` keeps the invariant. */
  lemma {:induction false} AddFileValid(m: Tree, file: VName)
    requires ValidTree(m)
    ensures ValidTree(AddedFile(m, file))
  {
    ValidTreeDirs(m, file.corpus, file.root);
    WithFileCoherent(DirsOf(m, file.corpus, file.root), file);
    WithDirsValid(m, file.corpus, file.root, WithFile(DirsOf(m, file.corpus, file.root), file));
  }

  /**
    Record completeness, the "only if" half: the directories of the file's
    (corpus, root) after `AddFile` are exactly those before plus the file's
    directory and all its ancestors up to "/".
   */
  lemma {:induction false} AddFileKeys(m: Tree, file: VName)
    requires ValidTree(m)
    ensures DirsOf(AddedFile(m, file), file.corpus, file.root).Keys
            == DirsOf(m, file.corpus, file.root).Keys + AncestorKeys(Parent(Rooted(file.path)))
  {
    ValidTreeDirs(m, file.corpus, file.root);
    EnsureDirsKeys(DirsOf(m, file.corpus, file.root), file.corpus, file.root, Parent(Rooted(file.path)));
    WithDirsFacts(m, file.corpus, file.root, WithFile(DirsOf(m, file.corpus, file.root), file));
  }

  /**
    Ancestor completeness: after `AddFile`, "/" and every ancestor of the
    file's directory exist under (corpus, root), and each non-root one is
    listed among its parent's subdirectories.
   */
  lemma {:induction false} AddFileAncestors(m: Tree, file: VName)
    requires ValidTree(m)
    ensures var dir := Parent(Rooted(file.path));
            var d := DirsOf(AddedFile(m, file), file.corpus, file.root);
            && "/" in d
            && (forall i :: 0 <= i <= |dir| ==> Render(dir[..i]) in d)
            && (forall i :: 0 < i <= |dir| ==> DirUri(file.corpus, file.root, Render(dir[..i])) in d[Render(dir[..i - 1])].subdirectory)
  {
    var dir := Parent(Rooted(file.path));
    ValidTreeDirs(m, file.corpus, file.root);
    var d := WithFile(DirsOf(m, file.corpus, file.root), file);
    WithFileCoherent(DirsOf(m, file.corpus, file.root), file);
    WithDirsFacts(m, file.corpus, file.root, d);
    AncestorsLinked(d, file.corpus, file.root, dir);
    assert dir[..0] == [];
  }

  /** `AddFile` is idempotent: adding the same file again changes nothing. */
  lemma {:induction false} AddFileIdempotent(m: Tree, file: VName)
    ensures AddedFile(AddedFile(m, file), file) == AddedFile(m, file)
  {
    var c, r := file.corpus, file.root;
    var e := WithFile(DirsOf(m, c, r), file);
    WithDirsFacts(m, c, r, e);
    WithFileIdempotent(DirsOf(m, c, r), file);
    WithDirsTwice(m, c, r, e, e);
  }

  /**
    Nothing else changes: `AddFile` only adds records and grows lists under
    the file's (corpus, root), leaves every other (corpus, root) alone, and
    adds exactly that pair to the known pairs.
   */
  lemma {:induction false} AddFileOnlyGrows(m: Tree, file: VName)
    ensures ExtendsTree(m, AddedFile(m, file))
    ensures forall c, r :: (c, r) != (file.corpus, file.root) ==> DirsOf(AddedFile(m, file), c, r) == DirsOf(m, c, r)
    ensures Pairs(AddedFile(m, file)) == Pairs(m) + {(file.corpus, file.root)}
  {
    var n := AddedFile(m, file);
    WithDirsFacts(m, file.corpus, file.root, WithFile(DirsOf(m, file.corpus, file.root), file));
    WithFileGrows(DirsOf(m, file.corpus, file.root), file);
    forall c, r ensures Extends(DirsOf(m, c, r), DirsOf(n, c, r)) {
      if (c, r) != (file.corpus, file.root) {
        assert DirsOf(n, c, r) == DirsOf(m, c, r);
      }
    }
  }

  /**
    `AddFile` adds no ticket but the file's own: every file ticket after the
    call was already in that record, or is the new file's.
   */
  lemma {:induction false} AddFileTickets(m: Tree, file: VName, c: string, r: string, k: string, u: URI)
    requires k in DirsOf(AddedFile(m, file), c, r) && u in DirsOf(AddedFile(m, file), c, r)[k].fileTicket
    ensures u == FromVName(file) || (k in DirsOf(m, c, r) && u in DirsOf(m, c, r)[k].fileTicket)
  {
    WithDirsFacts(m, file.corpus, file.root, WithFile(DirsOf(m, file.corpus, file.root), file));
    if (c, r) == (file.corpus, file.root) {
      WithFileTickets(DirsOf(m, c, r), file, k, u);
    }
  }

  /**
    `Dir` looks paths up verbatim: every key of a tree built by `AddFile` is
    a cleaned rooted path, so a path that cleaning would change (relative,
    with a trailing slash, with "." or ".." segments or doubled slashes) is
    never found, even when its cleaned form is.
   */
  lemma {:induction false} DirUncleanMissing(m: Tree, corpus: string, root: string, path: string)
    requires ValidTree(m) && !IsClean(path)
    ensures Dir(m, corpus, root, path).None?
  {
    if corpus in m && root in m[corpus] {
      var d := m[corpus][root];
      forall k | k in d ensures IsClean(k) {
        assert KeyOk(corpus, root, d, k);
      }
    }
  }

  /** The empty tree of `NewMap` satisfies the invariant. */
  lemma {:induction false} EmptyValid()
    ensures ValidTree(map[]) && Pairs(map[]) == {}
  {
  }

  /**
    End to end: after adding the files "/docs/readme" and "/docs/api/index"
    (any segment names) to one corpus and root, the directory "/docs" lists
    the first file and the subdirectory "/docs/api", and "/docs/api" lists
    the second file.
   */
  lemma {:induction false} DocsScenario(corpus: string, root: string, docs: string, api: string, readme: string, index: string)
    requires ValidSegment(docs) && ValidSegment(api) && ValidSegment(readme) && ValidSegment(index)
    ensures var f1 := VName("", corpus, root, Render([docs, readme]), "");
            var f2 := VName("", corpus, root, Render([docs, api, index]), "");
            var m := AddedFile(AddedFile(map[], f1), f2);
            var docsDir := Dir(m, corpus, root, Render([docs]));
            var apiDir := Dir(m, corpus, root, Render([docs, api]));
            && docsDir.Some? && FromVName(f1) in docsDir.value.fileTicket
            && DirUri(corpus, root, Render([docs, api])) in docsDir.value.subdirectory
            && apiDir.Some? && FromVName(f2) in apiDir.value.fileTicket
  {
    var p1: Path := [docs, readme];
    var p2: Path := [docs, api, index];
    var dir: Path := [docs, api];
    var f1 := VName("", corpus, root, Render(p1), "");
    var f2 := VName("", corpus, root, Render(p2), "");
    assert WellFormed(p1) && WellFormed(p2);
    RootedRender(p1);
    RootedRender(p2);
    assert Parent(p1) == [docs] && Parent(p2) == dir;
    assert dir[..1] == [docs] && dir[..2] == dir;
    var m1 := AddedFile(map[], f1);
    var m2 := AddedFile(m1, f2);
    AddFileIndexes(map[], f1);
    AddFileIndexes(m1, f2);
    AddFileOnlyGrows(m1, f2);
    assert Extends(DirsOf(m1, corpus, root), DirsOf(m2, corpus, root));
    EmptyValid();
    AddFileValid(map[], f1);
    AddFileAncestors(m1, f2);
  }

  /**
    Corpus and root discovery: after adding two files to an empty tree, the
    tree knows exactly their two (corpus, root) pairs.
   */
  lemma {:induction false} DiscoveryScenario(f1: VName, f2: VName)
    ensures Pairs(AddedFile(AddedFile(map[], f1), f2)) == {(f1.corpus, f1.root), (f2.corpus, f2.root)}
  {
    EmptyValid();
    AddFileOnlyGrows(map[], f1);
    AddFileOnlyGrows(AddedFile(map[], f1), f2);
  }

  lemma {:induction false} ExtendsTreeTrans(m: Tree, n: Tree, o: Tree)
    requires ExtendsTree(m, n) && ExtendsTree(n, o)
    ensures ExtendsTree(m, o)
  {
  }

  // ---------------------------------------------------------------------
  // Populate

  /** `schema.NodeKindFact`. */
  const NodeKindFact := "/kythe/node/kind"

  /** The bytes of `schema.FileKind`, "file". */
  const FileKind: seq<bv8> := [0x66, 0x69, 0x6c, 0x65]

  /** A graph store entry, as far as `Populate` reads it. */
  datatype Entry = Entry(source: VName, factName: string, factValue: seq<bv8>)

  /**
    What the graph store scan did: the entries it passed to the callback, in
    order, and the error it returned, if any.
   */
  datatype ScanResult = ScanResult(entries: seq<Entry>, failure: Option<string>)

  /** The prefix `Populate` puts before the scan's own error message. */
  const ScanErrorPrefix := "failed to Scan GraphStore for directory structure: "

  /** The callback's test: a node-kind fact whose value is "file". */
  predicate IsFileNode(e: Entry) {
    e.factName == NodeKindFact && e.factValue == FileKind
  }

  /** The tree after the callback of `Populate` has seen `entries`, in order. */
  function Populated(m: Tree, entries: seq<Entry>): (n: Tree)
    ensures m.Keys <= n.Keys
    ensures forall e :: e in entries && IsFileNode(e) ==> e.source.corpus in n
    decreases |entries|
  {
    if entries == [] then m
    else
      var init := entries[..|entries| - 1];
      var n := Populated(m, init);
      var last := entries[|entries| - 1];
      assert entries == init + [last];
      if IsFileNode(last) then AddedFile(n, last.source) else n
  }

  /** The (corpus, root) pairs of the file entries among `entries`. */
  ghost function FilePairs(entries: seq<Entry>): set<(string, string)> {
    set i | 0 <= i < |entries| && IsFileNode(entries[i]) :: (entries[i].source.corpus, entries[i].source.root)
  }

  /** `Populate` keeps the invariant. */
  lemma {:induction false} PopulateValid(m: Tree, entries: seq<Entry>)
    requires ValidTree(m)
    ensures ValidTree(Populated(m, entries))
    decreases |entries|
  {
    if entries != [] {
      var init := entries[..|entries| - 1];
      PopulateValid(m, init);
      if IsFileNode(entries[|entries| - 1]) {
        AddFileValid(Populated(m, init), entries[|entries| - 1].source);
      }
    }
  }

  /** `Populate` only grows the tree. */
  lemma {:induction false} PopulateOnlyGrows(m: Tree, entries: seq<Entry>)
    ensures ExtendsTree(m, Populated(m, entries))
    decreases |entries|
  {
    if entries == [] {
      forall c, r ensures Extends(DirsOf(m, c, r), DirsOf(m, c, r)) {
      }
    } else {
      var init := entries[..|entries| - 1];
      var n := Populated(m, init);
      PopulateOnlyGrows(m, init);
      if IsFileNode(entries[|entries| - 1]) {
        AddFileOnlyGrows(n, entries[|entries| - 1].source);
        ExtendsTreeTrans(m, n, Populated(m, entries));
      }
    }
  }

  /**
    Every file entry the scan delivered is indexed: its directory is found
    by `Dir` and lists its ticket.
   */
  lemma {:induction false} PopulateIndexesFiles(m: Tree, entries: seq<Entry>, i: nat)
    requires i < |entries| && IsFileNode(entries[i])
    ensures var f := entries[i].source;
            var r := Dir(Populated(m, entries), f.corpus, f.root, DirOf(f.path));
            r.Some? && FromVName(f) in r.value.fileTicket
    decreases |entries|
  {
    var f := entries[i].source;
    var init := entries[..|entries| - 1];
    var n := Populated(m, init);
    if i == |entries| - 1 {
      AddFileIndexes(n, f);
    } else {
      assert init[i] == entries[i];
      PopulateIndexesFiles(m, init, i);
      if IsFileNode(entries[|entries| - 1]) {
        AddFileOnlyGrows(n, entries[|entries| - 1].source);
        assert Extends(DirsOf(n, f.corpus, f.root), DirsOf(Populated(m, entries), f.corpus, f.root));
      }
    }
  }

  /**
    Starting from an empty tree, every file ticket in the tree belongs to a
    file entry of the scan: non-file entries add nothing.
   */
  lemma {:induction false} PopulateTicketsFromFiles(entries: seq<Entry>, c: string, r: string, k: string, u: URI)
    requires k in DirsOf(Populated(map[], entries), c, r) && u in DirsOf(Populated(map[], entries), c, r)[k].fileTicket
    ensures exists i :: 0 <= i < |entries| && IsFileNode(entries[i]) && u == FromVName(entries[i].source)
    decreases |entries|
  {
    var init := entries[..|entries| - 1];
    var last := entries[|entries| - 1];
    if IsFileNode(last) && u == FromVName(last.source) {
    } else {
      if IsFileNode(last) {
        AddFileTickets(Populated(map[], init), last.source, c, r, k, u);
      }
      PopulateTicketsFromFiles(init, c, r, k, u);
      var i :| 0 <= i < |init| && IsFileNode(init[i]) && u == FromVName(init[i].source);
      assert entries[i] == init[i];
    }
  }

  /**
    Starting from an empty tree, every stored directory is the directory of
    a file entry of the scan, or one of its ancestors, under that entry's
    corpus and root.
   */
  lemma {:induction false} PopulateDirsFromFiles(entries: seq<Entry>, c: string, r: string, k: string)
    requires k in DirsOf(Populated(map[], entries), c, r)
    ensures exists i :: 0 <= i < |entries| && IsFileNode(entries[i])
                        && entries[i].source.corpus == c && entries[i].source.root == r
                        && k in AncestorKeys(Parent(Rooted(entries[i].source.path)))
    decreases |entries|
  {
    var init := entries[..|entries| - 1];
    var last := entries[|entries| - 1];
    var n0 := Populated(map[], init);
    if IsFileNode(last) && (c, r) == (last.source.corpus, last.source.root) && k !in DirsOf(n0, c, r) {
      EmptyValid();
      PopulateValid(map[], init);
      AddFileKeys(n0, last.source);
    } else {
      if IsFileNode(last) {
        AddFileOnlyGrows(n0, last.source);
      }
      PopulateDirsFromFiles(init, c, r, k);
      var i :| 0 <= i < |init| && IsFileNode(init[i]) && init[i].source.corpus == c && init[i].source.root == r
               && k in AncestorKeys(Parent(Rooted(init[i].source.path)));
      assert entries[i] == init[i];
    }
  }

  /** The file pairs of a sequence are those of its prefix plus that of its last entry. */
  lemma {:induction false} FilePairsSnoc(entries: seq<Entry>)
    requires entries != []
    ensures var last := entries[|entries| - 1];
            FilePairs(entries) == FilePairs(entries[..|entries| - 1]) + (if IsFileNode(last) then {(last.source.corpus, last.source.root)} else {})
  {
  }

  /** `Populate` adds exactly the (corpus, root) pairs of the file entries. */
  lemma {:induction false} PopulatePairs(m: Tree, entries: seq<Entry>)
    ensures Pairs(Populated(m, entries)) == Pairs(m) + FilePairs(entries)
    decreases |entries|
  {
    if entries == [] {
      assert FilePairs(entries) == {};
    } else {
      var init := entries[..|entries| - 1];
      var last := entries[|entries| - 1];
      PopulatePairs(m, init);
      FilePairsSnoc(entries);
      if IsFileNode(last) {
        AddFileOnlyGrows(Populated(m, init), last.source);
      }
    }
  }

  // ---------------------------------------------------------------------
  // The map object

  /** `srvpb.CorpusRoots_Corpus`: a corpus and its roots. */
  datatype CorpusRoots = CorpusRoots(corpus: string, root: seq<string>)

  /** `filetree.Map`. */
  class Map {
    /** corpus -> root -> dirPath -> FileDirectory */
    var M: Tree

    ghost predicate Valid()
      reads this
    {
      ValidTree(M)
    }

    /** `NewMap`: an empty file tree. */
    constructor ()
      ensures M == map[] && Valid()
    {
      M := map[];
    }

    /**
      `Populate`: run the callback over every entry the scan delivered,
      adding each file node, and report the scan's failure with the error
      prefix. Files added before a failure stay in the tree.
     */
    method Populate(scan: ScanResult) returns (result: Outcome)
      modifies this
      ensures M == Populated(old(M), scan.entries)
      ensures result == if scan.failure.Some? then Fail(ScanErrorPrefix + scan.failure.value) else Pass
      ensures old(Valid()) ==> Valid()
    {
      ghost var before := M;
      var i := 0;
      while i < |scan.entries|
        invariant 0 <= i <= |scan.entries|
        invariant M == Populated(before, scan.entries[..i])
      {
        var entry := scan.entries[i];
        if entry.factName == NodeKindFact && entry.factValue == FileKind {
          AddFile(entry.source);
        }
        assert scan.entries[..i + 1][..i] == scan.entries[..i];
        i := i + 1;
      }
      assert scan.entries[..i] == scan.entries;
      if ValidTree(before) {
        PopulateValid(before, scan.entries);
      }
      if scan.failure.Some? {
        return Fail(ScanErrorPrefix + scan.failure.value);
      }
      return Pass;
    }

    /** `AddFile`: index one file node. */
    method AddFile(file: VName)
      modifies this
      ensures M == AddedFile(old(M), file)
      ensures old(Valid()) ==> Valid()
    {
      ghost var before := M;
      ghost var d0 := DirsOf(before, file.corpus, file.root);
      var ticket := FromVName(file);
      var path := Rooted(file.path);
      var dir := EnsureDir(file.corpus, file.root, Parent(path));
      ghost var e := EnsureDirs(d0, file.corpus, file.root, Parent(path));
      WithDirsFacts(before, file.corpus, file.root, e);
      assert M[file.corpus][file.root] == e;
      dir := dir.(fileTicket := AddToSet(dir.fileTicket, ticket));
      M := M[file.corpus := M[file.corpus][file.root := M[file.corpus][file.root][Render(Parent(path)) := dir]]];
      WithDirsTwice(before, file.corpus, file.root, e, WithFile(d0, file));
      if ValidTree(before) {
        AddFileValid(before, file);
      }
    }

    /**
      `CorporaRoots`: every corpus of the tree once, each with all its roots
      once. The order is that of Go's map iteration, which is unspecified.
     */
    method CorporaRoots() returns (cr: seq<CorpusRoots>)
      ensures (set i | 0 <= i < |cr| :: cr[i].corpus) == M.Keys
      ensures forall i, j :: 0 <= i < j < |cr| ==> cr[i].corpus != cr[j].corpus
      ensures forall i :: 0 <= i < |cr| ==> cr[i].corpus in M && (set x | x in cr[i].root) == M[cr[i].corpus].Keys
      ensures forall i :: 0 <= i < |cr| ==> NoDups(cr[i].root)
    {
      cr := [];
      var corpora := M.Keys;
      while corpora != {}
        invariant corpora <= M.Keys
        invariant (set i | 0 <= i < |cr| :: cr[i].corpus) == M.Keys - corpora
        invariant forall i, j :: 0 <= i < j < |cr| ==> cr[i].corpus != cr[j].corpus
        invariant forall i :: 0 <= i < |cr| ==> cr[i].corpus in M && (set x | x in cr[i].root) == M[cr[i].corpus].Keys
        invariant forall i :: 0 <= i < |cr| ==> NoDups(cr[i].root)
        decreases corpora
      {
        var corpus :| corpus in corpora;
        var roots := RootsOf(corpus);
        ghost var prev := cr;
        cr := cr + [CorpusRoots(corpus, roots)];
        assert (set i | 0 <= i < |cr| :: cr[i].corpus) == (set i | 0 <= i < |prev| :: prev[i].corpus) + {corpus} by {
          forall i | 0 <= i < |prev| ensures prev[i].corpus in (set i | 0 <= i < |cr| :: cr[i].corpus) {
            assert cr[i] == prev[i];
          }
          assert cr[|cr| - 1].corpus == corpus;
        }
        corpora := corpora - {corpus};
      }
    }

    /** The inner loop of `CorporaRoots`: every root of `corpus` once. */
    method RootsOf(corpus: string) returns (roots: seq<string>)
      requires corpus in M
      ensures (set x | x in roots) == M[corpus].Keys
      ensures NoDups(roots)
    {
      roots := [];
      var rest := M[corpus].Keys;
      while rest != {}
        invariant rest <= M[corpus].Keys
        invariant (set x | x in roots) == M[corpus].Keys - rest
        invariant NoDups(roots)
        decreases rest
      {
        var root :| root in rest;
        assert (set x | x in roots + [root]) == (set x | x in roots) + {root};
        roots := roots + [root];
        rest := rest - {root};
      }
    }

    /** `ensureCorpusRoot`: create the per-corpus and per-root maps when missing. */
    method EnsureCorpusRoot(corpus: string, root: string) returns (dirs: Dirs)
      modifies this
      ensures M == WithDirs(old(M), corpus, root, DirsOf(old(M), corpus, root))
      ensures corpus in M && root in M[corpus] && dirs == M[corpus][root]
    {
      if corpus in M && root in M[corpus] {
        WithDirsSame(M, corpus, root);
      } else if corpus in M {
        M := M[corpus := M[corpus][root := map[]]];
      } else {
        M := M[corpus := map[]];
        M := M[corpus := M[corpus][root := map[]]];
      }
      dirs := M[corpus][root];
    }

    /**
      `ensureDir`: make sure the directory `path` and its ancestors exist
      under (corpus, root), and return the directory's record.
     */
    method EnsureDir(corpus: string, root: string, path: Path) returns (dir: FileDirectory)
      requires WellFormed(path)
      modifies this
      ensures M == WithDirs(old(M), corpus, root, EnsureDirs(DirsOf(old(M), corpus, root), corpus, root, path))
      ensures corpus in M && root in M[corpus] && Render(path) in M[corpus][root]
      ensures dir == M[corpus][root][Render(path)]
      ensures old(Valid()) ==> Valid()
      decreases |path|
    {
      ghost var before := M;
      ghost var d0 := DirsOf(before, corpus, root);
      var dirs := EnsureCorpusRoot(corpus, root);
      WithDirsFacts(before, corpus, root, d0);
      var key := Render(path);
      if key in dirs {
        dir := dirs[key];
      } else {
        dir := EmptyDirectory;
        ghost var d1 := d0[key := EmptyDirectory];
        M := M[corpus := M[corpus][root := dirs[key := dir]]];
        WithDirsTwice(before, corpus, root, d0, d1);
        assert M == WithDirs(before, corpus, root, d1);
        if path != [] {
          var parent := EnsureDir(corpus, root, Parent(path));
          ghost var d2 := EnsureDirs(d1, corpus, root, Parent(path));
          WithDirsFacts(before, corpus, root, d1);
          WithDirsTwice(before, corpus, root, d1, d2);
          assert M == WithDirs(before, corpus, root, d2);
          WithDirsFacts(before, corpus, root, d2);
          DirOfRender(path);
          AncestorKeysShorter(Parent(path), path);
          EnsureDirsFrame(d0, corpus, root, Parent(path), key, EmptyDirectory);
          assert d2[key] == EmptyDirectory;
          parent := parent.(subdirectory := AddToSet(parent.subdirectory, DirUri(corpus, root, key)));
          ghost var d3 := LinkToParent(d2, corpus, root, path);
          M := M[corpus := M[corpus][root := M[corpus][root][Render(Parent(path)) := parent]]];
          assert M == WithDirs(WithDirs(before, corpus, root, d2), corpus, root, d3);
          WithDirsTwice(before, corpus, root, d2, d3);
          assert EnsureDirs(d0, corpus, root, path) == d3;
          assert d3[key] == EmptyDirectory;
        }
      }
      if ValidTree(before) {
        EnsureDirValid(before, corpus, root, path);
      }
    }
  }
}
