/**
 The part of POSIX path handling that the share node relies on: splitting on
 '/', `join`, `normpath`/`abspath` (purely lexical, as Python's posixpath does
 them) and the node's sandbox check `inside`.
 */
module Paths {

  /** A segment of a normalised path: not empty, not "." or "..", no '/'. */
  predicate IsSegment(s: string) {
    s != "" && s != "." && s != ".." && '/' !in s
  }

  predicate Canonical(segs: seq<string>) {
    forall i :: 0 <= i < |segs| ==> IsSegment(segs[i])
  }

  predicate SlashFree(pieces: seq<string>) {
    forall i :: 0 <= i < |pieces| ==> '/' !in pieces[i]
  }

  /** A normalised absolute path. POSIX lets a path start with exactly two
      slashes and keeps them apart from one; `twoSlashes` records that. */
  datatype Path = Path(twoSlashes: bool, segments: seq<string>)

  const Root := Path(false, [])

  predicate IsAbs(s: string) {
    |s| > 0 && s[0] == '/'
  }

  /** `s.split('/')`: the pieces between the separators, always at least one. */
  function Split(s: string): (pieces: seq<string>)
    ensures |pieces| >= 1 && SlashFree(pieces)
  {
    if s == [] then [""]
    else
      var rest := Split(s[1..]);
      if s[0] == '/' then [""] + rest
      else [[s[0]] + rest[0]] + rest[1..]
  }

  /** `'/'.join(pieces)` for a non-empty list. */
  function JoinWith(pieces: seq<string>): string
    requires |pieces| >= 1
  {
    if |pieces| == 1 then pieces[0] else pieces[0] + "/" + JoinWith(pieces[1..])
  }

  lemma {:induction false} SplitThenJoin(s: string)
    ensures JoinWith(Split(s)) == s
  {
    if s != [] {
      var rest := Split(s[1..]);
      SplitThenJoin(s[1..]);
      if s[0] == '/' {
        assert Split(s) == [""] + rest;
        assert (Split(s))[1..] == rest;
        assert s == [s[0]] + s[1..];
      } else if |rest| == 1 {
        assert Split(s) == [[s[0]] + rest[0]];
        assert s == [s[0]] + s[1..];
      } else {
        assert Split(s) == [[s[0]] + rest[0]] + rest[1..];
        assert JoinWith(rest) == rest[0] + "/" + JoinWith(rest[1..]);
        assert (Split(s))[1..] == rest[1..];
        assert s == [s[0]] + s[1..];
      }
    }
  }

  /** Splitting text that begins with a slash-free piece glues that piece onto
      the first piece of the rest. */
  lemma {:induction false} SplitAfterPiece(x: string, t: string)
    requires '/' !in x
    ensures Split(x + t) == [x + Split(t)[0]] + Split(t)[1..]
  {
    if x != [] {
      var xt := x + t;
      assert x[0] in x;
      assert xt[0] == x[0] && xt[1..] == x[1..] + t;
      SplitAfterPiece(x[1..], t);
      var rest := Split(xt[1..]);
      assert rest == [x[1..] + Split(t)[0]] + Split(t)[1..];
      assert Split(xt) == [[x[0]] + rest[0]] + rest[1..];
      assert rest[0] == x[1..] + Split(t)[0] && rest[1..] == Split(t)[1..];
      assert [x[0]] + rest[0] == x + Split(t)[0] by {
        assert x == [x[0]] + x[1..];
      }
    } else {
      assert x + t == t && x + Split(t)[0] == Split(t)[0];
    }
  }

  lemma SplitAfterSlash(t: string)
    ensures Split("/" + t) == [""] + Split(t)
  {
    assert ("/" + t)[1..] == t;
  }

  lemma {:induction false} JoinThenSplit(pieces: seq<string>)
    requires |pieces| >= 1 && SlashFree(pieces)
    ensures Split(JoinWith(pieces)) == pieces
  {
    if |pieces| == 1 {
      SplitAfterPiece(pieces[0], "");
      assert pieces[0] + "" == pieces[0];
    } else {
      var rest := JoinWith(pieces[1..]);
      JoinThenSplit(pieces[1..]);
      SplitAfterPiece(pieces[0], "/" + rest);
      SplitAfterSlash(rest);
      assert pieces[0] + "/" + rest == pieces[0] + ("/" + rest);
      assert pieces[0] + "" == pieces[0];
      assert pieces == [pieces[0]] + pieces[1..];
    }
  }

  /** posixpath.join(a, b): an absolute `b` replaces `a`; otherwise a separator
      is inserted unless `a` is empty or already ends with one. */
  function Join(a: string, b: string): string {
    if IsAbs(b) then b
    else if a == "" || a[|a| - 1] == '/' then a + b
    else a + "/" + b
  }

  /** The component loop of posixpath.normpath for an absolute path: empty
      pieces and "." are dropped, ".." removes the last kept segment (and is
      dropped at the root), anything else is kept. (normpath also keeps a ".."
      that follows a kept "..", which never happens once the path is absolute.) */
  function Resolve(kept: seq<string>, pieces: seq<string>): (segs: seq<string>)
    requires Canonical(kept) && SlashFree(pieces)
    ensures Canonical(segs)
    decreases |pieces|
  {
    if pieces == [] then kept
    else
      var c := pieces[0];
      var next :=
        if c == "" || c == "." then kept
        else if c != ".." then kept + [c]
        else if kept == [] then kept
        else kept[..|kept| - 1];
      Resolve(next, pieces[1..])
  }

  /** posixpath.normpath of an absolute path. */
  function NormPath(s: string): (p: Path)
    requires IsAbs(s)
    ensures Canonical(p.segments)
  {
    Path(|s| >= 2 && s[1] == '/' && !(|s| >= 3 && s[2] == '/'), Resolve([], Split(s)))
  }

  /** "/" followed by each segment, each preceded by a separator. */
  function Rooted(segs: seq<string>): string {
    if segs == [] then "" else "/" + segs[0] + Rooted(segs[1..])
  }

  /** The text of a normalised path: its leading slashes, then the segments
      joined by '/'. */
  function Text(p: Path): (s: string)
    ensures IsAbs(s)
  {
    (if p.twoSlashes then "/" else "") + (if p.segments == [] then "/" else Rooted(p.segments))
  }

  /** posixpath.abspath, with the process's working directory `cwd` as a
      parameter: a relative path is first joined onto it. */
  function Abspath(cwd: Path, s: string): (p: Path)
    ensures Canonical(p.segments)
  {
    var full := if IsAbs(s) then s else Join(Text(cwd), s);
    assert IsAbs(full) by { assert full[0] == Text(cwd)[0] || IsAbs(s); }
    NormPath(full)
  }

  /** The sandbox check of the share node: the normalised `name` starts with
      the normalised `dir` followed by a separator. */
  function Inside(cwd: Path, dir: string, name: string): bool {
    Join(Text(Abspath(cwd, dir)), "") <= Text(Abspath(cwd, name))
  }

  /** Containment of normalised paths, segment by segment: `n` lies strictly
      below `d`, or `d` is a root (the single-slash root contains everything,
      the double-slash root contains every double-slash path, itself included). */
  predicate Within(d: Path, n: Path) {
    d == Root ||
    (d.twoSlashes == n.twoSlashes &&
     (d.segments == [] ||
      (|d.segments| < |n.segments| && n.segments[..|d.segments|] == d.segments)))
  }

  // ---------------------------------------------------------------------
  // Rendering and splitting normalised paths

  lemma {:induction false} RootedShape(segs: seq<string>)
    requires Canonical(segs) && segs != []
    ensures |Rooted(segs)| >= 2 && Rooted(segs)[0] == '/' && Rooted(segs)[1] == segs[0][0]
    ensures Rooted(segs)[|Rooted(segs)| - 1] != '/'
  {
    var tail := Rooted(segs[1..]);
    assert Rooted(segs) == "/" + segs[0] + tail;
    if segs[1..] != [] {
      RootedShape(segs[1..]);
    } else {
      var last := segs[0][|segs[0]| - 1];
      assert last in segs[0];
    }
  }

  lemma {:induction false} SplitRooted(segs: seq<string>)
    requires SlashFree(segs)
    ensures Split(Rooted(segs)) == [""] + segs
  {
    if segs != [] {
      var tail := Rooted(segs[1..]);
      SplitRooted(segs[1..]);
      assert Rooted(segs) == "/" + (segs[0] + tail);
      SplitAfterSlash(segs[0] + tail);
      SplitAfterPiece(segs[0], tail);
      assert segs[0] + "" == segs[0];
      assert segs == [segs[0]] + segs[1..];
    }
  }

  lemma {:induction false} ResolveKeepsSegments(kept: seq<string>, segs: seq<string>)
    requires Canonical(kept) && Canonical(segs)
    ensures Resolve(kept, segs) == kept + segs
    decreases |segs|
  {
    if segs != [] {
      ResolveKeepsSegments(kept + [segs[0]], segs[1..]);
      assert kept + [segs[0]] + segs[1..] == kept + segs;
    }
  }

  /** The pieces of the text of a normalised path resolve back to its segments. */
  lemma ResolveText(p: Path)
    requires Canonical(p.segments)
    ensures Resolve([], Split(Text(p))) == p.segments
  {
    var body := if p.segments == [] then "/" else Rooted(p.segments);
    SplitRooted(p.segments);
    ResolveKeepsSegments([], p.segments);
    if p.segments == [] {
      assert Split("/") == ["", ""] by { SplitAfterSlash(""); }
    }
    assert Resolve([], Split(body)) == p.segments;
    if p.twoSlashes {
      assert Text(p) == "/" + body;
      SplitAfterSlash(body);
      var pieces := [""] + Split(body);
      assert pieces[0] == "" && pieces[1..] == Split(body);
    } else {
      assert Text(p) == body;
    }
  }

  /** abspath is idempotent: the text of a normalised path normalises back to
      the same path, whatever the working directory. */
  lemma NormalisedIsFixed(cwd: Path, p: Path)
    requires Canonical(p.segments)
    ensures Abspath(cwd, Text(p)) == p
  {
    ResolveText(p);
    TextShape(p);
    if p.segments != [] && p.twoSlashes {
      RootedShape(p.segments);
      assert Text(p)[2] == p.segments[0][0] && p.segments[0][0] in p.segments[0];
    }
  }

  lemma {:induction false} SplitAround(x: string, y: string)
    ensures Split(x + "/" + y) == Split(x) + Split(y)
  {
    if x == [] {
      assert x + "/" + y == "/" + y;
      SplitAfterSlash(y);
    } else {
      var xy := x + "/" + y;
      assert xy[0] == x[0] && xy[1..] == x[1..] + "/" + y;
      SplitAround(x[1..], y);
      var r := Split(xy[1..]);
      if x[0] == '/' {
        assert Split(xy) == [""] + r;
      } else {
        assert Split(xy) == [[x[0]] + r[0]] + r[1..];
        assert r[0] == Split(x[1..])[0] && r[1..] == Split(x[1..])[1..] + Split(y);
      }
    }
  }

  lemma {:induction false} ResolveAppend(kept: seq<string>, xs: seq<string>, ys: seq<string>)
    requires Canonical(kept) && SlashFree(xs) && SlashFree(ys)
    ensures SlashFree(xs + ys) && Resolve(kept, xs + ys) == Resolve(Resolve(kept, xs), ys)
    decreases |xs|
  {
    assert SlashFree(xs + ys) by {
      forall i | 0 <= i < |xs + ys| ensures '/' !in (xs + ys)[i] {
        if i >= |xs| { assert (xs + ys)[i] == ys[i - |xs|]; }
      }
    }
    if xs != [] {
      assert (xs + ys)[0] == xs[0] && (xs + ys)[1..] == xs[1..] + ys;
      var c := xs[0];
      var next :=
        if c == "" || c == "." then kept
        else if c != ".." then kept + [c]
        else if kept == [] then kept
        else kept[..|kept| - 1];
      ResolveAppend(next, xs[1..], ys);
    } else {
      assert xs + ys == ys;
    }
  }

  lemma SplitParentName(name: string)
    requires IsSegment(name)
    ensures Split("../" + name) == ["..", name]
  {
    assert "../" + name == ".." + "/" + name;
    SplitAround("..", name);
    SplitAfterPiece("..", "");
    SplitAfterPiece(name, "");
    assert ".." + "" == ".." && name + "" == name;
  }

  /** Splitting a piece with no separator gives that piece alone. */
  lemma SplitPiece(x: string)
    requires '/' !in x
    ensures Split(x) == [x]
  {
    SplitAfterPiece(x, "");
    assert x + "" == x;
  }

  /** posixpath.join of a non-empty `a` and a relative `b`: a separator goes
      between them unless `a` already ends with one. */
  lemma JoinShape(a: string, b: string)
    requires a != "" && !IsAbs(b)
    ensures Join(a, b) == a + (if a[|a| - 1] == '/' then "" else "/") + b
  {
  }

  /** The leading-slash rule of normpath reads at most three characters, and
      joining a relative name onto an absolute path keeps its answer. */
  lemma JoinKeepsLead(a: string, b: string)
    requires IsAbs(a) && !IsAbs(b)
    ensures IsAbs(Join(a, b)) && NormPath(Join(a, b)).twoSlashes == NormPath(a).twoSlashes
  {
    var s := Join(a, b);
    JoinShape(a, b);
    assert a <= s;
    assert b == "" || b[0] != '/';
    if |a| == 2 && a[1] == '/' {
      assert s == a + b;
    }
    if |a| == 1 {
      assert s == a + b;
    }
  }

  /** The pieces of a path joined onto an absolute `a` resolve after the
      segments of `a`. */
  lemma JoinResolvesAfter(a: string, b: string)
    requires IsAbs(a) && !IsAbs(b)
    ensures IsAbs(Join(a, b))
    ensures NormPath(Join(a, b)).segments == Resolve(NormPath(a).segments, Split(b))
  {
    var s := Join(a, b);
    JoinShape(a, b);
    if a[|a| - 1] == '/' {
      var front := a[..|a| - 1];
      assert a == front + "/" + "" && s == front + "/" + b;
      SplitAround(front, "");
      SplitAround(front, b);
      assert Split("") == [""];
      ResolveAppend([], Split(front), [""]);
      ResolveAppend([], Split(front), Split(b));
    } else {
      assert s == a + "/" + b;
      SplitAround(a, b);
      ResolveAppend([], Split(a), Split(b));
    }
  }

  /** Joining a relative `b` onto an absolute `a` keeps the leading slashes
      of `a` and resolves the pieces of `b` after the segments of `a`. */
  lemma JoinOntoAbsolute(a: string, b: string)
    requires IsAbs(a) && !IsAbs(b)
    ensures IsAbs(Join(a, b))
    ensures NormPath(Join(a, b)) == Path(NormPath(a).twoSlashes, Resolve(NormPath(a).segments, Split(b)))
  {
    JoinKeepsLead(a, b);
    JoinResolvesAfter(a, b);
  }

  /** posixpath.join nests the way string concatenation does when neither
      right-hand side is absolute. */
  lemma JoinNests(t: string, d: string, b: string)
    requires IsAbs(t) && !IsAbs(d) && !IsAbs(b)
    ensures !IsAbs(Join(d, b)) && IsAbs(Join(t, d))
    ensures Join(t, Join(d, b)) == Join(Join(t, d), b)
  {
    JoinShape(t, d);
    if d == "" {
      JoinEmptyNests(t, b);
    } else {
      JoinWordNests(t, d, b);
    }
  }

  lemma JoinEmptyNests(t: string, b: string)
    requires IsAbs(t) && !IsAbs(b)
    ensures Join(t, Join("", b)) == Join(Join(t, ""), b)
  {
    var mid := if t[|t| - 1] == '/' then "" else "/";
    JoinShape(t, "");
    JoinShape(t, b);
    var te := t + mid;
    assert Join(t, "") == te && te[|te| - 1] == '/';
    JoinShape(te, b);
    assert Join("", b) == b;
  }

  lemma JoinWordNests(t: string, d: string, b: string)
    requires IsAbs(t) && d != "" && !IsAbs(d) && !IsAbs(b)
    ensures Join(t, Join(d, b)) == Join(Join(t, d), b)
  {
    var mid := if t[|t| - 1] == '/' then "" else "/";
    var sep := if d[|d| - 1] == '/' then "" else "/";
    JoinShape(t, d);
    JoinShape(d, b);
    var td, db := t + mid + d, d + sep + b;
    assert db[0] == d[0];
    JoinShape(t, db);
    assert td[|td| - 1] == d[|d| - 1];
    JoinShape(td, b);
    assert t + mid + db == td + sep + b;
  }


  /** Joining a relative name onto any directory, absolute or relative,
      normalised or not: the pieces of the name are resolved after the
      segments of the directory's absolute path. */
  lemma JoinResolves(cwd: Path, dir: string, b: string)
    requires !IsAbs(b)
    ensures var d := Abspath(cwd, dir);
      Abspath(cwd, Join(dir, b)) == Path(d.twoSlashes, Resolve(d.segments, Split(b)))
  {
    if IsAbs(dir) {
      JoinOntoAbsolute(dir, b);
      assert IsAbs(Join(dir, b));
    } else {
      var t := Text(cwd);
      JoinNests(t, dir, b);
      JoinOntoAbsolute(Join(t, dir), b);
    }
  }

  /** A name that starts with ".." climbs out of any non-root directory: it
      names a sibling of the directory, which is not within it. Below a root,
      ".." stays at the root and the name is within it. */
  lemma ParentEscapes(cwd: Path, dir: string, name: string)
    requires IsSegment(name)
    ensures var d := Abspath(cwd, dir);
      var up := Path(d.twoSlashes, (if d.segments == [] then [] else d.segments[..|d.segments| - 1]) + [name]);
      Abspath(cwd, Join(dir, "../" + name)) == up && (Within(d, up) <==> d.segments == [])
  {
    var d := Abspath(cwd, dir);
    var parent := if d.segments == [] then [] else d.segments[..|d.segments| - 1];
    JoinResolves(cwd, dir, "../" + name);
    SplitParentName(name);
    assert ["..", name][1..] == [name] && [name][1..] == [];
    assert Resolve(d.segments, ["..", name]) == Resolve(parent, [name]);
    assert Resolve(parent, [name]) == Resolve(parent + [name], []);
  }

  /** Joining a plain file name onto any directory names the path one
      segment below the directory, which is within it. */
  lemma JoinName(cwd: Path, dir: string, name: string)
    requires IsSegment(name)
    ensures var d := Abspath(cwd, dir);
      Abspath(cwd, Join(dir, name)) == Path(d.twoSlashes, d.segments + [name]) &&
      Within(d, Abspath(cwd, Join(dir, name)))
  {
    var d := Abspath(cwd, dir);
    assert name[0] in name;
    JoinResolves(cwd, dir, name);
    SplitPiece(name);
    assert [name][1..] == [];
    assert Resolve(d.segments, [name]) == Resolve(d.segments + [name], []);
    assert (d.segments + [name])[..|d.segments|] == d.segments;
  }

  /** The last piece of `s.split('/')`. */
  function LastPiece(s: string): string {
    var pieces := Split(s);
    pieces[|pieces| - 1]
  }

  /** A name whose last piece is empty, "." or "..": on POSIX it names a
      directory or nothing, never a regular file. */
  predicate NamesDirectory(s: string) {
    LastPiece(s) == "" || LastPiece(s) == "." || LastPiece(s) == ".."
  }

  /** A separator followed by `b` ends with the last piece of `b`. */
  lemma LastPieceAfterSeparator(front: string, b: string)
    ensures LastPiece(front + "/" + b) == LastPiece(b)
  {
    SplitAround(front, b);
    var l, r := Split(front), Split(b);
    assert (l + r)[|l + r| - 1] == r[|r| - 1];
  }

  /** posixpath.join keeps the last piece of its right-hand side. */
  lemma JoinKeepsLastPiece(a: string, b: string)
    ensures LastPiece(Join(a, b)) == LastPiece(b)
  {
    if !IsAbs(b) && a != "" {
      var front := if a[|a| - 1] == '/' then a[..|a| - 1] else a;
      assert Join(a, b) == front + "/" + b by {
        JoinShape(a, b);
        if a[|a| - 1] == '/' { assert a == front + "/"; }
      }
      LastPieceAfterSeparator(front, b);
    } else if !IsAbs(b) {
      assert Join(a, b) == b;
    }
  }



  // ---------------------------------------------------------------------
  // What `inside` means

  lemma SameAt(l: string, r: string, k: int)
    ensures l <= r && 0 <= k < |l| ==> l[k] == r[k]
  {
  }

  lemma NoSlashAt(s: string, k: int)
    ensures '/' !in s && 0 <= k < |s| ==> s[k] != '/'
  {
    if 0 <= k < |s| { assert s[k] in s; }
  }

  /** Two segments followed by a separator (or the end) must be equal when one
      text is a prefix of the other. */
  lemma SameHead(x: string, y: string, u: string, v: string)
    requires IsSegment(x) && IsSegment(y)
    requires |u| > 0 && u[0] == '/'
    requires v == "" || v[0] == '/'
    requires "/" + x + u <= "/" + y + v
    ensures x == y
  {
    var l, r := "/" + x + u, "/" + y + v;
    if |x| < |y| {
      SameAt(l, r, 1 + |x|);
      NoSlashAt(y, |x|);
      assert false;
    }
    if |x| > |y| {
      SameAt(l, r, 1 + |y|);
      NoSlashAt(x, |y|);
      assert false;
    }
    forall i | 0 <= i < |x| ensures x[i] == y[i] {
      assert l[1 + i] == x[i] && r[1 + i] == y[i];
    }
  }

  lemma {:induction false} RootedPrefix(a: seq<string>, b: seq<string>)
    requires Canonical(a) && Canonical(b) && a != []
    ensures Rooted(a) + "/" <= Rooted(b) <==> |a| < |b| && b[..|a|] == a
    decreases |a|, 1
  {
    var l := Rooted(a) + "/";
    var u := Rooted(a[1..]) + "/";
    assert l == "/" + a[0] + u;
    assert |u| > 0 && u[0] == '/' by {
      if a[1..] != [] { RootedShape(a[1..]); }
    }
    if b == [] {
      assert |Rooted(b)| < |l|;
    } else {
      var v := Rooted(b[1..]);
      assert Rooted(b) == "/" + b[0] + v;
      assert v == "" || v[0] == '/' by {
        if b[1..] != [] { RootedShape(b[1..]); }
      }
      if l <= Rooted(b) {
        SameHead(a[0], b[0], u, v);
      }
      if a[0] == b[0] {
        RootedPrefixSameHead(a, b);
      } else {
        assert !(|a| < |b| && b[..|a|] == a) by {
          assert |a| < |b| ==> b[..|a|][0] == b[0];
        }
      }
    }
  }

  /** When the first segments agree, the prefix test moves on to the rest. */
  lemma {:induction false} RootedPrefixSameHead(a: seq<string>, b: seq<string>)
    requires Canonical(a) && Canonical(b) && a != [] && b != [] && a[0] == b[0]
    ensures Rooted(a) + "/" <= Rooted(b) <==> |a| < |b| && b[..|a|] == a
    decreases |a|, 0
  {
    var c, u, v := "/" + a[0], Rooted(a[1..]) + "/", Rooted(b[1..]);
    assert Rooted(a) + "/" == c + u && Rooted(b) == c + v;
    PrefixAfterCommon(c, u, v);
    if a[1..] == [] {
      assert u == "/";
      if b[1..] != [] { RootedShape(b[1..]); }
      assert a == [b[0]];
      assert |b| >= 2 ==> b[..1] == [b[0]];
    } else {
      RootedPrefix(a[1..], b[1..]);
      assert a == [a[0]] + a[1..];
      assert |a| < |b| ==> b[..|a|] == [b[0]] + b[1..][..|a| - 1];
    }
  }


  lemma PrefixAfterCommon(c: string, u: string, v: string)
    ensures c + u <= c + v <==> u <= v
  {
    if c + u <= c + v {
      assert u == (c + u)[|c|..] && v == (c + v)[|c|..];
    }
  }

  /** The first characters of the text of a normalised path. */
  lemma TextShape(p: Path)
    requires Canonical(p.segments)
    ensures !p.twoSlashes && p.segments == [] ==> Text(p) == "/"
    ensures p.twoSlashes && p.segments == [] ==> Text(p) == "//"
    ensures p.twoSlashes ==> |Text(p)| >= 2 && Text(p)[1] == '/'
    ensures !p.twoSlashes && p.segments != [] ==> |Text(p)| >= 2 && Text(p)[1] != '/'
    ensures Join(Text(p), "") == if p.segments == [] then Text(p) else Text(p) + "/"
  {
    if p.segments != [] {
      RootedShape(p.segments);
      assert p.segments[0][0] in p.segments[0];
    }
  }

  /** When both paths have the same leading slashes, containment is a matter
      of the segments. */
  lemma TextPrefixSameLead(d: Path, n: Path)
    requires Canonical(d.segments) && Canonical(n.segments)
    requires d.twoSlashes == n.twoSlashes && d.segments != []
    ensures Join(Text(d), "") <= Text(n) <==> |d.segments| < |n.segments| && n.segments[..|d.segments|] == d.segments
  {
    TextShape(d);
    var lead := if d.twoSlashes then "/" else "";
    var dBody := Rooted(d.segments);
    var nBody := if n.segments == [] then "/" else Rooted(n.segments);
    assert Join(Text(d), "") == lead + (dBody + "/") && Text(n) == lead + nBody;
    PrefixAfterCommon(lead, dBody + "/", nBody);
    if n.segments == [] {
      RootedShape(d.segments);
      assert |nBody| < |dBody + "/"|;
    } else {
      RootedPrefix(d.segments, n.segments);
    }
  }

  /** The separator-terminated text of `d` is a prefix of the text of `n`
      exactly when `n` is within `d`. */
  lemma TextPrefix(d: Path, n: Path)
    requires Canonical(d.segments) && Canonical(n.segments)
    ensures Join(Text(d), "") <= Text(n) <==> Within(d, n)
  {
    TextShape(d);
    TextShape(n);
    var pre, tn := Join(Text(d), ""), Text(n);
    if d.segments != [] && d.twoSlashes == n.twoSlashes {
      TextPrefixSameLead(d, n);
    } else if d.segments != [] {
      assert |pre| >= 2 && pre[1] == Text(d)[1];
      SameAt(pre, tn, 1);
    } else {
      SameAt(pre, tn, 1);
    }
  }

  /** `inside(dir, name)` holds exactly when the normalised `name` is within
      the normalised `dir`. */
  lemma InsideMeansWithin(cwd: Path, dir: string, name: string)
    ensures Inside(cwd, dir, name) <==> Within(Abspath(cwd, dir), Abspath(cwd, name))
  {
    TextPrefix(Abspath(cwd, dir), Abspath(cwd, name));
  }

  /** A directory is inside itself only when it normalises to a root. */
  lemma DirectoryInsideItself(cwd: Path, dir: string)
    ensures Inside(cwd, dir, dir) <==> Abspath(cwd, dir).segments == []
  {
    InsideMeansWithin(cwd, dir, dir);
  }

  /** A sibling whose last segment only extends the directory's last segment
      textually (`root-other` next to `root`) is not inside it, and neither is
      anything below that sibling. */
  lemma SiblingNotInside(cwd: Path, dir: string, name: string, parent: seq<string>, last: string, more: string)
    requires Abspath(cwd, dir).segments == parent + [last]
    requires more != ""
    requires |Abspath(cwd, name).segments| > |parent|
    requires Abspath(cwd, name).segments[..|parent| + 1] == parent + [last + more]
    ensures !Inside(cwd, dir, name)
  {
    InsideMeansWithin(cwd, dir, name);
    assert (parent + [last + more])[|parent|] != (parent + [last])[|parent|];
  }
}
