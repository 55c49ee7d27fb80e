/** Slash-separated path names, as Go's `path` and `path/filepath` packages
    treat them on a Unix host: splitting, lexical cleaning, joining, and the
    `Dir`/`Base` pair.  A cleaned path is kept as its sequence of segments. */
module Paths {
  import opened Strs

  /** A cleaned absolute path, one element per directory level below "/". */
  type Path = seq<string>

  /** A name that can stand as one level of a cleaned path. */
  predicate IsSegment(x: string)
  {
    x != "" && x != "." && x != ".." && '/' !in x
  }

  predicate IsClean(p: Path)
  {
    forall i :: 0 <= i < |p| ==> IsSegment(p[i])
  }

  predicate SlashFree(segs: seq<string>)
  {
    forall i :: 0 <= i < |segs| ==> '/' !in segs[i]
  }

  /** `b` is `a` or an ancestor of `a`. */
  predicate IsPrefix(b: Path, a: Path)
  {
    |b| <= |a| && a[..|b|] == b
  }

  /** `a` lies strictly below `b`. */
  predicate StrictlyUnder(a: Path, b: Path)
  {
    |b| < |a| && a[..|b|] == b
  }

  // ---------------------------------------------------------------------
  // Splitting

  /** strings.Split(s, "/"): the pieces between slashes, at least one. */
  function Split(s: string): (r: seq<string>)
    ensures |r| >= 1
    decreases |s|
  {
    if s == [] then [""]
    else
      var rest := Split(s[1..]);
      if s[0] == '/' then [""] + rest else [[s[0]] + rest[0]] + rest[1..]
  }

  lemma {:induction false} SplitSlashFree(s: string)
    ensures SlashFree(Split(s))
    decreases |s|
  {
    if s != [] {
      SplitSlashFree(s[1..]);
    }
  }

  /** Splitting distributes over a slash. */
  lemma {:induction false} SplitAppend(a: string, b: string)
    ensures Split(a + "/" + b) == Split(a) + Split(b)
    decreases |a|
  {
    if a == [] {
      assert a + "/" + b == "/" + b;
      assert ("/" + b)[1..] == b;
    } else {
      assert (a + "/" + b)[1..] == a[1..] + "/" + b;
      SplitAppend(a[1..], b);
    }
  }

  lemma {:induction false} SplitSegment(x: string)
    requires '/' !in x
    ensures Split(x) == [x]
    decreases |x|
  {
    if x != [] {
      SplitSegment(x[1..]);
      assert [x[0]] + x[1..] == x;
    }
  }

  // ---------------------------------------------------------------------
  // Lexical cleaning

  /** One step of the normaliser: empty and "." pieces vanish, ".." climbs
      one level (never above the root), any other piece descends. */
  function Step(acc: Path, piece: string): Path
  {
    if piece == "" || piece == "." then acc
    else if piece == ".." then (if acc == [] then [] else acc[..|acc| - 1])
    else acc + [piece]
  }

  function Norm(pieces: seq<string>): Path
    decreases |pieces|
  {
    if pieces == [] then [] else Step(Norm(pieces[..|pieces| - 1]), pieces[|pieces| - 1])
  }

  lemma NormSnoc(pieces: seq<string>, x: string)
    ensures Norm(pieces + [x]) == Step(Norm(pieces), x)
  {
    assert (pieces + [x])[..|pieces|] == pieces;
  }

  lemma {:induction false} NormClean(pieces: seq<string>)
    requires SlashFree(pieces)
    ensures IsClean(Norm(pieces))
    decreases |pieces|
  {
    if pieces != [] {
      NormClean(pieces[..|pieces| - 1]);
    }
  }

  /** The cleaned form of any path name; a relative name is read from "/". */
  function Parse(s: string): (p: Path)
    ensures IsClean(p)
  {
    SplitSlashFree(s);
    NormClean(Split(s));
    Norm(Split(s))
  }

  /** Appending one slash-free piece is one normaliser step. */
  lemma ParseSnoc(s: string, x: string)
    requires '/' !in x
    ensures Parse(s + "/" + x) == Step(Parse(s), x)
  {
    SplitAppend(s, x);
    SplitSegment(x);
    NormSnoc(Split(s), x);
  }

  /** "/a/b" for ["a", "b"]; "" for the root. */
  function Concat(p: Path): string
    decreases |p|
  {
    if p == [] then "" else Concat(p[..|p| - 1]) + "/" + p[|p| - 1]
  }

  /** The text of a cleaned path. */
  function Render(p: Path): string
  {
    if p == [] then "/" else Concat(p)
  }

  /** path.Clean / filepath.Clean of an absolute path. A relative path is
      read from the root, so `..` at its head is dropped where Go keeps it. */
  function Clean(s: string): string
  {
    Render(Parse(s))
  }

  /** path.Join / filepath.Join of two elements. */
  function Join(a: string, b: string): string
  {
    Clean(a + "/" + b)
  }

  lemma {:induction false} ConcatAppend(p: Path, q: Path)
    ensures Concat(p + q) == Concat(p) + Concat(q)
    decreases |q|
  {
    if q == [] {
      assert p + q == p;
    } else {
      var q' := q[..|q| - 1];
      assert (p + q)[..|p + q| - 1] == p + q';
      ConcatAppend(p, q');
    }
  }

  lemma ConcatCons(x: string, xs: Path)
    ensures Concat([x] + xs) == "/" + x + Concat(xs)
  {
    ConcatAppend([x], xs);
    assert [x][..0] == [];
  }

  lemma {:induction false} SplitConcat(p: Path)
    requires SlashFree(p)
    ensures Split(Concat(p)) == [""] + p
    decreases |p|
  {
    if p != [] {
      var q := p[..|p| - 1];
      SplitConcat(q);
      SplitAppend(Concat(q), p[|p| - 1]);
      SplitSegment(p[|p| - 1]);
    }
  }

  lemma {:induction false} ParseConcat(p: Path)
    requires IsClean(p)
    ensures Parse(Concat(p)) == p
    decreases |p|
  {
    if p == [] {
      assert Split("") == [""];
      assert Norm([""]) == Step(Norm([]), "");
    } else {
      var q := p[..|p| - 1];
      ParseConcat(q);
      ParseSnoc(Concat(q), p[|p| - 1]);
    }
  }

  /** Reading back the text of a cleaned path gives the path. */
  lemma ParseRender(p: Path)
    requires IsClean(p)
    ensures Parse(Render(p)) == p
  {
    if p == [] {
      ParseSnoc("", "");
      assert "" + "/" + "" == "/";
      assert Parse("") == [];
    } else {
      ParseConcat(p);
    }
  }

  /** Cleaning is idempotent on meaning. */
  lemma ParseClean(s: string)
    ensures Parse(Clean(s)) == Parse(s)
  {
    ParseRender(Parse(s));
  }

  /** Joining a plain name descends one level. */
  lemma ParseJoin(a: string, x: string)
    requires IsSegment(x)
    ensures Parse(Join(a, x)) == Parse(a) + [x]
  {
    ParseClean(a + "/" + x);
    ParseSnoc(a, x);
  }

  /** Joining a plain name gives the text of the path one level down. */
  lemma JoinRender(a: string, x: string)
    requires IsSegment(x)
    ensures Join(a, x) == Render(Parse(a) + [x])
  {
    ParseSnoc(a, x);
  }

  lemma ParseJoinAny(a: string, x: string)
    ensures IsSegment(x) ==> Parse(Join(a, x)) == Parse(a) + [x]
  {
    if IsSegment(x) {
      ParseJoin(a, x);
    }
  }

  // ---------------------------------------------------------------------
  // The zip-slip test on texts

  /** Root excluded: the text "//" never starts a cleaned path. */
  lemma RootGuardNeverHolds(a: Path)
    requires IsClean(a)
    ensures !HasPrefix(Render(a), Render([]) + "/")
  {
    if a != [] {
      ConcatCons(a[0], a[1..]);
      assert [a[0]] + a[1..] == a;
      assert Render(a)[1] == a[0][0];
    }
  }

  /** A text that passes the test belongs to a path strictly below `b`. */
  lemma GuardSound(a: Path, b: Path)
    requires IsClean(a) && IsClean(b) && b != []
    requires HasPrefix(Render(a), Render(b) + "/")
    ensures StrictlyUnder(a, b)
  {
    var ta, tb := Render(a), Concat(b);
    ConcatCons(b[0], b[1..]);
    assert [b[0]] + b[1..] == b;
    assert |tb| >= 2;
    var rest := ta[|tb| + 1..];
    assert ta == tb + "/" + rest;
    assert a != [];
    SplitConcat(a);
    SplitConcat(b);
    SplitAppend(tb, rest);
    assert [""] + a == [""] + (b + Split(rest));
    assert ([""] + a)[1..] == a;
    assert ([""] + (b + Split(rest)))[1..] == b + Split(rest);
    assert a == b + Split(rest);
    assert a[..|b|] == b;
  }

  /** Every path strictly below a non-root `b` passes the test. */
  lemma GuardComplete(a: Path, b: Path)
    requires IsClean(a) && IsClean(b) && b != []
    requires StrictlyUnder(a, b)
    ensures HasPrefix(Render(a), Render(b) + "/")
  {
    var tb := Concat(b);
    var q := a[|b|..];
    assert a == b + q;
    ConcatAppend(b, q);
    ConcatCons(q[0], q[1..]);
    assert [q[0]] + q[1..] == q;
    assert Render(a) == tb + "/" + q[0] + Concat(q[1..]);
    assert (tb + "/" + q[0] + Concat(q[1..]))[..|tb| + 1] == tb + "/";
  }

  /** A cleaned path's text starts with the text of `b` and a slash exactly
      when the path lies strictly below `b`, which must not be the root. */
  lemma GuardIff(a: Path, b: Path)
    requires IsClean(a) && IsClean(b)
    ensures HasPrefix(Render(a), Render(b) + "/") <==> b != [] && StrictlyUnder(a, b)
  {
    if b == [] {
      RootGuardNeverHolds(a);
    } else {
      if HasPrefix(Render(a), Render(b) + "/") {
        GuardSound(a, b);
      }
      if StrictlyUnder(a, b) {
        GuardComplete(a, b);
      }
    }
  }

  // ---------------------------------------------------------------------
  // Dir and Base

  /** Index of the last slash, or -1. */
  function LastSlash(s: string): (k: int)
    ensures -1 <= k < |s|
    decreases |s|
  {
    if s == [] then -1
    else if s[|s| - 1] == '/' then |s| - 1
    else LastSlash(s[..|s| - 1])
  }

  lemma {:induction false} LastSlashAfter(x: string, y: string)
    requires '/' !in y
    ensures LastSlash(x + "/" + y) == |x|
    decreases |y|
  {
    if y != [] {
      var y' := y[..|y| - 1];
      assert (x + "/" + y)[..|x + "/" + y| - 1] == x + "/" + y';
      LastSlashAfter(x, y');
    }
  }

  /** path.Dir: everything up to the last slash, cleaned. */
  function Dir(s: string): string
  {
    var k := LastSlash(s);
    if k < 0 then "." else Clean(s[..k + 1])
  }

  function TrimSlashes(s: string): string
    decreases |s|
  {
    if s != [] && s[|s| - 1] == '/' then TrimSlashes(s[..|s| - 1]) else s
  }

  /** path.Base: the last element, ignoring trailing slashes. */
  function Base(s: string): string
  {
    if s == [] then "."
    else
      var t := TrimSlashes(s);
      if t == [] then "/" else t[LastSlash(t) + 1..]
  }

  /** The directory of a cleaned path is its parent. */
  lemma DirRender(q: Path, x: string)
    requires IsClean(q) && IsSegment(x)
    ensures Dir(Render(q + [x])) == Render(q)
  {
    var s := Render(q + [x]);
    assert (q + [x])[..|q|] == q;
    assert s == Concat(q) + "/" + x;
    LastSlashAfter(Concat(q), x);
    assert s[..|Concat(q)| + 1] == Concat(q) + "/" + "";
    ParseSnoc(Concat(q), "");
    ParseConcat(q);
    if q == [] {
      assert Render(q) == "/" && Render(Parse(Concat(q))) == "/";
    }
  }

  /** The base of a cleaned non-root path is its last segment. */
  lemma BaseRender(q: Path, x: string)
    requires IsClean(q) && IsSegment(x)
    ensures Base(Render(q + [x])) == x
  {
    var s := Render(q + [x]);
    assert (q + [x])[..|q|] == q;
    assert s == Concat(q) + "/" + x;
    assert TrimSlashes(s) == s;
    LastSlashAfter(Concat(q), x);
  }

  /** The base of the directory of a link target made by joining a segment
      `v` and a leaf below a cleaned path recovers `v`. */
  lemma BaseOfDir(q: Path, v: string, leaf: string)
    requires IsClean(q) && IsSegment(v) && IsSegment(leaf)
    ensures Base(Dir(Render(q + [v] + [leaf]))) == v
  {
    DirRender(q + [v], leaf);
    BaseRender(q, v);
  }

  /** The base of a cleaned path's text is "/" for the root and its last
      segment otherwise. */
  lemma BaseRenderShape(q: Path)
    requires IsClean(q)
    ensures Base(Render(q)) == "/" || IsSegment(Base(Render(q)))
  {
    if q == [] {
      assert TrimSlashes("/") == TrimSlashes("/"[..0]);
    } else {
      var x := q[|q| - 1];
      assert q == q[..|q| - 1] + [x];
      BaseRender(q[..|q| - 1], x);
    }
  }

  /** The base of the directory of any text is ".", "/" or a plain name. */
  lemma BaseDirShape(l: string)
    ensures var b := Base(Dir(l)); b == "." || b == "/" || IsSegment(b)
  {
    if LastSlash(l) >= 0 {
      BaseRenderShape(Parse(l[..LastSlash(l) + 1]));
    } else {
      assert TrimSlashes(".") == ".";
    }
  }
}
