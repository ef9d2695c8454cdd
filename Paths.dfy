/**
  Slash-separated paths as the file tree uses them (Unix `path/filepath`).

  A cleaned, rooted path is held as the sequence of its segments: "/" is the
  empty sequence and "/a/b" is ["a", "b"]. `Rooted` is `filepath.Join("/", s)`,
  `Render` gives back the string Go would hold, and `Parent` is `filepath.Dir`
  on a cleaned rooted path.
 */
module Paths {

  type Path = seq<string>

  /** A segment that `filepath.Clean` can leave in a rooted path. */
  predicate ValidSegment(s: string) {
    s != "" && s != "." && s != ".." && '/' !in s
  }

  /** The segments of a cleaned rooted path. */
  predicate WellFormed(p: Path) {
    forall i :: 0 <= i < |p| ==> ValidSegment(p[i])
  }

  /** "/s1/s2/.../sn" without the leading "/" of the empty path. */
  function RenderTail(p: Path): string
    decreases |p|
  {
    if p == [] then "" else "/" + p[0] + RenderTail(p[1..])
  }

  /** The string form of a cleaned rooted path: "/" or "/s1/.../sn". */
  function Render(p: Path): (s: string)
    ensures |s| > 0 && s[0] == '/'
  {
    if p == [] then "/" else RenderTail(p)
  }

  /** `filepath.Dir` of a cleaned rooted path: drop the last segment; "/" is its own parent. */
  function Parent(p: Path): (q: Path)
    ensures p != [] ==> |q| == |p| - 1
  {
    if p == [] then [] else p[..|p| - 1]
  }

  /** The pieces of `s` between separators, empty pieces included. */
  function Split(s: string): (pieces: seq<string>)
    ensures |pieces| >= 1
    ensures forall i :: 0 <= i < |pieces| ==> '/' !in pieces[i]
    decreases |s|
  {
    if s == [] then [""]
    else
      var rest := Split(s[1..]);
      if s[0] == '/' then [""] + rest
      else [[s[0]] + rest[0]] + rest[1..]
  }

  /**
    The lexical processing of `filepath.Clean` for a rooted path: empty and
    "." pieces vanish, ".." removes the segment before it, and a ".." at the
    root stays at the root.
   */
  function Resolve(acc: Path, pieces: seq<string>): (p: Path)
    requires WellFormed(acc)
    requires forall i :: 0 <= i < |pieces| ==> '/' !in pieces[i]
    ensures WellFormed(p)
    decreases |pieces|
  {
    if pieces == [] then acc
    else
      var s := pieces[0];
      var next :=
        if s == "" || s == "." then acc
        else if s == ".." then Parent(acc)
        else acc + [s];
      Resolve(next, pieces[1..])
  }

  /** `filepath.Join("/", s)`: the cleaned path of `s` anchored at "/". */
  function Rooted(s: string): (p: Path)
    ensures WellFormed(p)
  {
    Resolve([], Split(s))
  }

  /** `s` is already a cleaned rooted path string (`filepath.Join("/", s) == s`). */
  predicate IsClean(s: string) {
    Render(Rooted(s)) == s
  }

  /** `filepath.Dir(filepath.Join("/", s))`: the directory holding the file at `s`. */
  function DirOf(s: string): (d: string)
    ensures |d| > 0 && d[0] == '/'
    ensures IsClean(d)
  {
    assert WellFormed(Parent(Rooted(s)));
    RootedRender(Parent(Rooted(s)));
    Render(Parent(Rooted(s)))
  }

  /** Splitting a piece without separators glued to `t` extends the first piece of `t`. */
  lemma {:induction false} SplitGlue(a: string, t: string)
    requires '/' !in a
    ensures Split(a + t) == [a + Split(t)[0]] + Split(t)[1..]
    decreases |a|
  {
    if a != [] {
      assert (a + t)[0] == a[0] && (a + t)[1..] == a[1..] + t;
      SplitGlue(a[1..], t);
      var rest := Split(a[1..] + t);
      assert rest[0] == a[1..] + Split(t)[0] && rest[1..] == Split(t)[1..];
      assert [a[0]] + (a[1..] + Split(t)[0]) == a + Split(t)[0];
    } else {
      assert a + t == t && a + Split(t)[0] == Split(t)[0];
    }
  }

  lemma {:induction false} SplitRenderTail(p: Path)
    requires WellFormed(p) && p != []
    ensures Split(RenderTail(p)) == [""] + p
    decreases |p|
  {
    var t := RenderTail(p[1..]);
    assert RenderTail(p) == "/" + (p[0] + t);
    assert ("/" + (p[0] + t))[0] == '/' && ("/" + (p[0] + t))[1..] == p[0] + t;
    assert Split(RenderTail(p)) == [""] + Split(p[0] + t);
    SplitGlue(p[0], t);
    if p[1..] == [] {
      assert Split(t) == [""];
      assert p[0] + "" == p[0];
      assert p == [p[0]];
    } else {
      SplitRenderTail(p[1..]);
      assert p[0] + "" == p[0];
      assert p == [p[0]] + p[1..];
    }
  }

  /** Cleaning a sequence of valid segments only appends them. */
  lemma {:induction false} ResolveSegments(acc: Path, segs: Path)
    requires WellFormed(acc) && WellFormed(segs)
    ensures Resolve(acc, segs) == acc + segs
    decreases |segs|
  {
    if segs != [] {
      ResolveSegments(acc + [segs[0]], segs[1..]);
      assert acc + [segs[0]] + segs[1..] == acc + segs;
    }
  }

  /** Round trip: cleaning the string of a cleaned path gives the path back. */
  lemma {:induction false} RootedRender(p: Path)
    requires WellFormed(p)
    ensures Rooted(Render(p)) == p
    ensures IsClean(Render(p))
  {
    if p == [] {
      assert Split("/") == ["", ""];
    } else {
      SplitRenderTail(p);
      ResolveSegments([], p);
      assert Resolve([], [""] + p) == Resolve([], p);
    }
  }

  /** Two cleaned paths with the same string form are the same path. */
  lemma {:induction false} RenderInjective(p: Path, q: Path)
    requires WellFormed(p) && WellFormed(q)
    requires Render(p) == Render(q)
    ensures p == q
  {
    RootedRender(p);
    RootedRender(q);
  }

  /** Joining a string to "/" is idempotent: the result is already clean. */
  lemma {:induction false} RootedIdempotent(s: string)
    ensures IsClean(Render(Rooted(s)))
    ensures Rooted(Render(Rooted(s))) == Rooted(s)
  {
    RootedRender(Rooted(s));
  }

  /** `filepath.Dir` on the string of a cleaned path is the string of its parent. */
  lemma {:induction false} DirOfRender(p: Path)
    requires WellFormed(p)
    ensures DirOf(Render(p)) == Render(Parent(p))
    ensures p != [] ==> Render(p) != "/" && Render(Parent(p)) != Render(p)
  {
    RootedRender(p);
    if p != [] {
      assert WellFormed(Parent(p));
      if Render(p) == "/" {
        RenderInjective(p, []);
      }
      if Render(Parent(p)) == Render(p) {
        RenderInjective(p, Parent(p));
      }
    }
  }
}
