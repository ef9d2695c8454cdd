/**
  The directory records of one (corpus, root) pair: a map from cleaned
  directory path strings to `FileDirectory` records, and the recursive
  creation of a directory together with all its missing ancestors
  (`ensureDir`).
 */
module Directories {
  import opened Paths
  import opened KytheUri

  /** `srvpb.FileDirectory`: the tickets of the files and of the subdirectories directly inside a directory. */
  datatype FileDirectory = FileDirectory(fileTicket: seq<URI>, subdirectory: seq<URI>)

  /** The record `&srvpb.FileDirectory{}` that `ensureDir` creates. */
  const EmptyDirectory := FileDirectory([], [])

  /** Directory path string -> record, for one corpus and root. */
  type Dirs = map<string, FileDirectory>

  predicate NoDups<T(==)>(s: seq<T>) {
    forall i, j :: 0 <= i < j < |s| ==> s[i] != s[j]
  }

  /**
    `addToSet`: a linear scan that gives back `strs` itself when `str` is
    already there, and `strs` with `str` appended otherwise.
   */
  function AddToSet<T(==)>(strs: seq<T>, str: T): (r: seq<T>)
    ensures str in strs ==> r == strs
    ensures str !in strs ==> r == strs + [str]
    ensures str in r && strs <= r
    ensures NoDups(strs) ==> NoDups(r)
    decreases |strs|
  {
    if strs == [] then [str]
    else if strs[0] == str then strs
    else [strs[0]] + AddToSet(strs[1..], str)
  }

  /** The strings of `p` and of all its ancestors, down to "/". */
  function AncestorKeys(p: Path): set<string>
    decreases |p|
  {
    if p == [] then {"/"} else AncestorKeys(Parent(p)) + {Render(p)}
  }

  /**
    `ensureDir(corpus, root, path)` on the directory map of (corpus, root).
    A directory already present is left alone. A missing one gets an empty
    record first; if it is not "/", its parent is then ensured in turn and
    its ticket is added to the parent's subdirectories. The recursion ends
    because the parent of a non-root path is one segment shorter.
   */
  function EnsureDirs(d: Dirs, corpus: string, root: string, p: Path): (r: Dirs)
    requires WellFormed(p)
    ensures Render(p) in r && d.Keys <= r.Keys
    decreases |p|
  {
    var key := Render(p);
    if key in d then d
    else if p == [] then d[key := EmptyDirectory]
    else LinkToParent(EnsureDirs(d[key := EmptyDirectory], corpus, root, Parent(p)), corpus, root, p)
  }

  /** The last step of `ensureDir` for a new directory: add its ticket to its parent's subdirectories. */
  function LinkToParent(d: Dirs, corpus: string, root: string, p: Path): (r: Dirs)
    requires Render(Parent(p)) in d
    ensures r.Keys == d.Keys
    ensures DirUri(corpus, root, Render(p)) in r[Render(Parent(p))].subdirectory
  {
    var pk := Render(Parent(p));
    d[pk := d[pk].(subdirectory := AddToSet(d[pk].subdirectory, DirUri(corpus, root, Render(p))))]
  }

  /**
    Linking a directory into its parent keeps the parent's files and grows
    its subdirectories, and changes no other record.
   */
  lemma {:induction false} LinkToParentOnly(d: Dirs, corpus: string, root: string, p: Path, k: string)
    requires Render(Parent(p)) in d && k in d
    ensures k != Render(Parent(p)) ==> LinkToParent(d, corpus, root, p)[k] == d[k]
    ensures k == Render(Parent(p)) ==>
              && LinkToParent(d, corpus, root, p)[k].fileTicket == d[k].fileTicket
              && d[k].subdirectory <= LinkToParent(d, corpus, root, p)[k].subdirectory
  {
  }

  /**
    `ensureDir` only adds: existing records keep their file tickets and keep
    their subdirectories as a prefix, and every new record is an ancestor of
    the path with no file tickets.
   */
  lemma {:induction false} EnsureDirsOnlyAdds(d: Dirs, corpus: string, root: string, p: Path)
    requires WellFormed(p)
    ensures var r := EnsureDirs(d, corpus, root, p);
            && (forall k :: k in d ==> r[k].fileTicket == d[k].fileTicket && d[k].subdirectory <= r[k].subdirectory)
            && (forall k :: k in r && k !in d ==> k in AncestorKeys(p) && r[k].fileTicket == [])
    decreases |p|
  {
    var key := Render(p);
    if key !in d {
      var d1 := d[key := EmptyDirectory];
      if p != [] {
        EnsureDirsOnlyAdds(d1, corpus, root, Parent(p));
      }
    }
  }

  /** `u` is the ticket of a directory stored in `d` whose parent directory is `k`. */
  ghost predicate IsChild(corpus: string, root: string, d: Dirs, k: string, u: URI) {
    && u == DirUri(corpus, root, u.path)
    && u.path in d && u.path != "/" && IsClean(u.path)
    && DirOf(u.path) == k
  }

  /** `u` is the ticket of a file of (corpus, root) that lies directly in directory `k`. */
  ghost predicate IsFileOf(corpus: string, root: string, k: string, u: URI) {
    u.corpus == corpus && u.root == root && DirOf(u.path) == k
  }

  /** Directory `k` is listed among the subdirectories of its parent. */
  ghost predicate Linked(corpus: string, root: string, d: Dirs, k: string) {
    DirOf(k) in d && DirUri(corpus, root, k) in d[DirOf(k)].subdirectory
  }

  /** What the invariant asks of the record stored under key `k`. */
  ghost predicate KeyOk(corpus: string, root: string, d: Dirs, k: string) {
    && k in d
    && IsClean(k)
    && NoDups(d[k].fileTicket) && NoDups(d[k].subdirectory)
    && (forall u :: u in d[k].subdirectory ==> IsChild(corpus, root, d, k, u))
    && (forall u :: u in d[k].fileTicket ==> IsFileOf(corpus, root, k, u))
    && (k != "/" ==> Linked(corpus, root, d, k))
  }

  /**
    The invariant of a directory map built by `ensureDir` and `AddFile`:
    every key is a cleaned rooted path, both lists are duplicate-free, every
    subdirectory entry names a stored child and every file entry a file
    directly inside, and every directory but "/" is linked from its parent.
   */
  ghost predicate Coherent(corpus: string, root: string, d: Dirs) {
    forall k {:trigger KeyOk(corpus, root, d, k)} :: k in d ==> KeyOk(corpus, root, d, k)
  }

  /** Every record of `d` survives in `e` with its lists kept as prefixes. */
  ghost predicate Extends(d: Dirs, e: Dirs) {
    forall k :: k in d ==> k in e && d[k].fileTicket <= e[k].fileTicket && d[k].subdirectory <= e[k].subdirectory
  }

  /** A cleaned path is not among the ancestors of a strictly shorter one. */
  lemma {:induction false} AncestorKeysShorter(q: Path, p: Path)
    requires WellFormed(p) && WellFormed(q) && |q| < |p|
    ensures Render(p) !in AncestorKeys(q)
    decreases |q|
  {
    if Render(p) == Render(q) {
      RenderInjective(p, q);
    }
    if q != [] {
      AncestorKeysShorter(Parent(q), p);
    } else if Render(p) == "/" {
      RenderInjective(p, []);
    }
  }

  /** `ensureDir` neither reads nor writes a key that is not one of the path's ancestors. */
  lemma {:induction false} EnsureDirsFrame(d: Dirs, corpus: string, root: string, p: Path, k: string, v: FileDirectory)
    requires WellFormed(p)
    requires k !in AncestorKeys(p)
    ensures EnsureDirs(d[k := v], corpus, root, p) == EnsureDirs(d, corpus, root, p)[k := v]
    decreases |p|
  {
    var key := Render(p);
    if key in d {
      assert key in d[k := v];
    } else if p == [] {
      assert d[k := v][key := EmptyDirectory] == d[key := EmptyDirectory][k := v];
    } else {
      EnsureDirsFrame(d[key := EmptyDirectory], corpus, root, Parent(p), k, v);
      EnsureDirsFrameStep(d, corpus, root, p, k, v);
    }
  }

  /** The inductive step of `EnsureDirsFrame`, for a path that is missing and not "/". */
  lemma {:induction false} EnsureDirsFrameStep(d: Dirs, corpus: string, root: string, p: Path, k: string, v: FileDirectory)
    requires WellFormed(p) && p != [] && Render(p) !in d
    requires k !in AncestorKeys(p)
    requires var d1 := d[Render(p) := EmptyDirectory];
             EnsureDirs(d1[k := v], corpus, root, Parent(p)) == EnsureDirs(d1, corpus, root, Parent(p))[k := v]
    ensures EnsureDirs(d[k := v], corpus, root, p) == EnsureDirs(d, corpus, root, p)[k := v]
  {
    var key := Render(p);
    var q := Parent(p);
    var d1 := d[key := EmptyDirectory];
    var d2 := EnsureDirs(d1, corpus, root, q);
    assert Render(q) != k by {
      if q != [] {}
    }
    assert d[k := v][key := EmptyDirectory] == d1[k := v];
    LinkToParentFrame(d2, corpus, root, p, k, v);
  }

  /** Linking a directory into its parent leaves every other key as it was. */
  lemma {:induction false} LinkToParentFrame(d: Dirs, corpus: string, root: string, p: Path, k: string, v: FileDirectory)
    requires Render(Parent(p)) in d && Render(Parent(p)) != k
    ensures LinkToParent(d[k := v], corpus, root, p) == LinkToParent(d, corpus, root, p)[k := v]
  {
  }

  /**
    The order of the work in `ensureDir` does not matter: ensuring the parent
    first and then adding the new directory gives the same map.
   */
  lemma {:induction false} EnsureDirsUnfold(d: Dirs, corpus: string, root: string, p: Path)
    requires WellFormed(p) && p != [] && Render(p) !in d
    ensures var d2 := EnsureDirs(d, corpus, root, Parent(p));
            var pk := Render(Parent(p));
            && pk in d2 && Render(p) !in d2 && pk != Render(p)
            && EnsureDirs(d, corpus, root, p) == LinkToParent(d2[Render(p) := EmptyDirectory], corpus, root, p)
  {
    var q := Parent(p);
    var key := Render(p);
    AncestorKeysShorter(q, p);
    EnsureDirsFrame(d, corpus, root, q, key, EmptyDirectory);
    EnsureDirsOnlyAdds(d, corpus, root, q);
    DirOfRender(p);
  }

  /** Adding a new directory under an existing parent and linking it keeps the invariant. */
  lemma {:induction false} LinkChildCoherent(d: Dirs, corpus: string, root: string, p: Path)
    requires Coherent(corpus, root, d)
    requires WellFormed(p) && p != [] && Render(p) !in d && Render(Parent(p)) in d
    ensures Coherent(corpus, root, LinkToParent(d[Render(p) := EmptyDirectory], corpus, root, p))
  {
    var key := Render(p);
    var pk := Render(Parent(p));
    var u := DirUri(corpus, root, key);
    DirOfRender(p);
    RootedRender(p);
    var e := d[key := EmptyDirectory];
    var r := e[pk := e[pk].(subdirectory := AddToSet(e[pk].subdirectory, u))];
    forall k | k in r ensures KeyOk(corpus, root, r, k) {
      if k != key {
        assert KeyOk(corpus, root, d, k);
        forall w | w in r[k].subdirectory ensures IsChild(corpus, root, r, k, w) {
          if w != u {
            assert IsChild(corpus, root, d, k, w);
          }
        }
        if k != "/" {
          assert Linked(corpus, root, d, k);
        }
      }
    }
  }

  /** `ensureDir` keeps the invariant. */
  lemma {:induction false} EnsureDirsCoherent(d: Dirs, corpus: string, root: string, p: Path)
    requires WellFormed(p) && Coherent(corpus, root, d)
    ensures Coherent(corpus, root, EnsureDirs(d, corpus, root, p))
    decreases |p|
  {
    if Render(p) !in d {
      if p == [] {
        RootedRender(p);
        var r := d["/" := EmptyDirectory];
        forall k | k in r ensures KeyOk(corpus, root, r, k) {
          if k != "/" {
            assert KeyOk(corpus, root, d, k);
            forall w | w in r[k].subdirectory ensures IsChild(corpus, root, r, k, w) {
              assert IsChild(corpus, root, d, k, w);
            }
            assert Linked(corpus, root, d, k);
          }
        }
      } else {
        EnsureDirsCoherent(d, corpus, root, Parent(p));
        EnsureDirsUnfold(d, corpus, root, p);
        LinkChildCoherent(EnsureDirs(d, corpus, root, Parent(p)), corpus, root, p);
      }
    }
  }

  /**
    Ancestor completeness: in a coherent map, every ancestor of a stored
    directory is stored, and each non-root ancestor is listed among the
    subdirectories of its own parent.
   */
  lemma {:induction false} AncestorsLinked(d: Dirs, corpus: string, root: string, p: Path)
    requires Coherent(corpus, root, d) && WellFormed(p) && Render(p) in d
    ensures forall i :: 0 <= i <= |p| ==> Render(p[..i]) in d
    ensures forall i :: 0 < i <= |p| ==> DirUri(corpus, root, Render(p[..i])) in d[Render(p[..i - 1])].subdirectory
    decreases |p|
  {
    if p == [] {
      assert p[..0] == p;
    } else {
      var q := Parent(p);
      DirOfRender(p);
      assert KeyOk(corpus, root, d, Render(p));
      AncestorsLinked(d, corpus, root, q);
      forall i | 0 <= i <= |p| ensures Render(p[..i]) in d {
        if i == |p| {
          assert p[..i] == p;
        } else {
          assert q[..i] == p[..i];
        }
      }
      forall i | 0 < i <= |p| ensures DirUri(corpus, root, Render(p[..i])) in d[Render(p[..i - 1])].subdirectory {
        if i == |p| {
          assert p[..i] == p && p[..i - 1] == q;
        } else {
          assert q[..i] == p[..i] && q[..i - 1] == p[..i - 1];
        }
      }
    }
  }

  /** `ensureDir` creates exactly the missing ancestors of the path, and nothing else. */
  lemma {:induction false} EnsureDirsKeys(d: Dirs, corpus: string, root: string, p: Path)
    requires WellFormed(p) && Coherent(corpus, root, d)
    ensures EnsureDirs(d, corpus, root, p).Keys == d.Keys + AncestorKeys(p)
    decreases |p|
  {
    if Render(p) in d {
      if p != [] {
        assert KeyOk(corpus, root, d, Render(p));
        DirOfRender(p);
        EnsureDirsKeys(d, corpus, root, Parent(p));
      }
    } else if p != [] {
      EnsureDirsKeys(d, corpus, root, Parent(p));
      EnsureDirsUnfold(d, corpus, root, p);
    }
  }

  /** A non-empty coherent map holds the root directory "/". */
  lemma {:induction false} RootPresent(d: Dirs, corpus: string, root: string)
    requires Coherent(corpus, root, d) && d != map[]
    ensures "/" in d
  {
    var k :| k in d;
    assert KeyOk(corpus, root, d, k);
    var p := Rooted(k);
    AncestorsLinked(d, corpus, root, p);
    assert p[..0] == [];
  }

  /** The root directory is never listed as anyone's subdirectory. */
  lemma {:induction false} RootNeverLinked(d: Dirs, corpus: string, root: string, k: string)
    requires Coherent(corpus, root, d) && k in d
    ensures DirUri(corpus, root, "/") !in d[k].subdirectory
  {
    assert KeyOk(corpus, root, d, k);
    forall u | u in d[k].subdirectory ensures u.path != "/" {
      assert IsChild(corpus, root, d, k, u);
    }
  }

  /**
    Subdirectory lists are exact: a directory ticket is listed in `k` if and
    only if that directory is stored, is not "/", and has `k` as its parent.
   */
  lemma {:induction false} SubdirectoryExact(d: Dirs, corpus: string, root: string, k: string, child: string)
    requires Coherent(corpus, root, d) && k in d
    ensures DirUri(corpus, root, child) in d[k].subdirectory <==> child in d && child != "/" && DirOf(child) == k
  {
    assert KeyOk(corpus, root, d, k);
    if child in d && child != "/" && DirOf(child) == k {
      assert KeyOk(corpus, root, d, child);
    }
    if DirUri(corpus, root, child) in d[k].subdirectory {
      assert IsChild(corpus, root, d, k, DirUri(corpus, root, child));
    }
  }

  /**
    Adding a file ticket to the record of the file's own directory keeps the
    invariant; this is the last step of `AddFile`.
   */
  lemma {:induction false} AddTicketCoherent(d: Dirs, corpus: string, root: string, file: VName)
    requires Coherent(corpus, root, d) && file.corpus == corpus && file.root == root
    requires DirOf(file.path) in d
    ensures var k := DirOf(file.path);
            Coherent(corpus, root, d[k := d[k].(fileTicket := AddToSet(d[k].fileTicket, FromVName(file)))])
  {
    var k := DirOf(file.path);
    var r := d[k := d[k].(fileTicket := AddToSet(d[k].fileTicket, FromVName(file)))];
    forall j | j in r ensures KeyOk(corpus, root, r, j) {
      assert KeyOk(corpus, root, d, j);
      forall w | w in r[j].subdirectory ensures IsChild(corpus, root, r, j, w) {
        assert IsChild(corpus, root, d, j, w);
      }
      if j != "/" {
        assert Linked(corpus, root, d, j);
      }
    }
  }
}
