/**
 The two path operations the dependency resolver uses, as POSIX Python
 defines them for '/'-separated strings: `os.path.dirname(p)` and the
 two-argument `os.path.join(a, b)`.
 */
module Paths {

  /** `p.rfind('/')`: the index of the last separator, or -1 when there is none. */
  function LastSlash(p: string): (r: int)
    ensures -1 <= r < |p|
    ensures r >= 0 ==> p[r] == '/'
    ensures forall k :: r < k < |p| ==> p[k] != '/'
  {
    if |p| == 0 then -1
    else if p[|p| - 1] == '/' then |p| - 1
    else LastSlash(p[..|p| - 1])
  }

  /** `s.rstrip('/')`: drop every trailing separator. */
  function RStripSlash(s: string): (r: string)
    ensures |r| <= |s| && r == s[..|r|]
    ensures r == [] || r[|r| - 1] != '/'
    ensures forall k :: |r| <= k < |s| ==> s[k] == '/'
  {
    if |s| > 0 && s[|s| - 1] == '/' then RStripSlash(s[..|s| - 1]) else s
  }

  predicate OnlySlashes(s: string)
    ensures OnlySlashes(s) <==> AllSlashes(s)
  {
    |s| == 0 || (s[|s| - 1] == '/' && OnlySlashes(s[..|s| - 1]))
  }

  ghost predicate AllSlashes(s: string)
  {
    forall k :: 0 <= k < |s| ==> s[k] == '/'
  }

  /** The shape of every directory name `dirname` returns: empty, not ending
      in a separator, or made of separators only (the root). */
  ghost predicate IsDir(d: string)
  {
    d == [] || d[|d| - 1] != '/' || AllSlashes(d)
  }

  /** `os.path.dirname(p)`: everything up to the last separator, with the
      trailing separators removed unless only separators remain. */
  function Dirname(p: string): (r: string)
    ensures |r| <= |p| && r == p[..|r|]
    ensures IsDir(r)
    ensures LastSlash(p) == -1 ==> r == []
  {
    var head := p[..LastSlash(p) + 1];
    if |head| > 0 && !OnlySlashes(head) then RStripSlash(head)
    else head
  }

  /** `os.path.join(a, b)`: an absolute b replaces a; otherwise b is appended
      to a, with one separator inserted unless a is empty or already ends in one. */
  function Join(a: string, b: string): string
  {
    if |b| > 0 && b[0] == '/' then b
    else if |a| == 0 || a[|a| - 1] == '/' then a + b
    else a + "/" + b
  }

  /** A relative b joined to a directory name without a trailing
      separator gets exactly one separator between them. */
  lemma JoinRelative(a: string, b: string)
    requires |a| > 0 && a[|a| - 1] != '/' && |b| > 0 && b[0] != '/'
    ensures Join(a, b) == a + "/" + b
  {
  }

  /** The directory part of a join: a, with a separator added unless it is
      empty or already ends in one. */
  function WithSep(a: string): string
  {
    if |a| == 0 || a[|a| - 1] == '/' then a else a + "/"
  }

  /** Join by cases: an absolute b, or b after WithSep(a). */
  lemma JoinCases(a: string, b: string)
    ensures Join(a, b) == if |b| > 0 && b[0] == '/' then b else WithSep(a) + b
  {
  }

  lemma WithSepIdempotent(a: string)
    ensures WithSep(WithSep(a)) == WithSep(a)
  {
  }

  lemma WithSepAppend(x: string, b: string)
    requires |b| > 0
    ensures WithSep(x + b) == x + WithSep(b)
  {
    assert (x + b)[|x + b| - 1] == b[|b| - 1];
  }

  /** The two-argument join is associative: joining in two steps gives the
      same path whichever pair is joined first. */
  lemma JoinAssociative(a: string, b: string, c: string)
    ensures Join(Join(a, b), c) == Join(a, Join(b, c))
  {
    JoinCases(a, b);
    JoinCases(b, c);
    JoinCases(Join(a, b), c);
    JoinCases(a, Join(b, c));
    if |c| > 0 && c[0] == '/' {
    } else if |b| > 0 && b[0] == '/' {
      assert (WithSep(b) + c)[0] == '/';
    } else if |b| == 0 {
      WithSepIdempotent(a);
      assert WithSep(b) + c == c;
    } else {
      WithSepAppend(WithSep(a), b);
      assert (WithSep(b) + c)[0] == b[0];
      assert WithSep(a) + WithSep(b) + c == WithSep(a) + (WithSep(b) + c);
    }
  }

  /** The last separator of s + t is the one in s when t holds none. */
  lemma {:induction false} LastSlashAppend(s: string, t: string)
    requires forall k :: 0 <= k < |t| ==> t[k] != '/'
    ensures LastSlash(s + t) == LastSlash(s)
    decreases |t|
  {
    if |t| > 0 {
      var t' := t[..|t| - 1];
      assert (s + t)[..|s + t| - 1] == s + t';
      LastSlashAppend(s, t');
    } else {
      assert s + t == s;
    }
  }

  /** A bare file name joined to a directory lies in that directory: the
      directory of Join(d, name) is d again. This is what makes each tier of
      the resolver resolve against the directory of the manifest that names it. */
  lemma DirnameOfJoin(d: string, name: string)
    requires IsDir(d)
    requires forall k :: 0 <= k < |name| ==> name[k] != '/'
    ensures Dirname(Join(d, name)) == d
  {
    var p := Join(d, name);
    if |d| == 0 {
      assert p == name;
      LastSlashAppend([], name);
      assert [] + name == name;
    } else if d[|d| - 1] == '/' {
      assert p == d + name;
      LastSlashAppend(d, name);
      assert p[..|d|] == d;
    } else {
      var d' := d + "/";
      assert p == d' + name;
      LastSlashAppend(d', name);
      assert LastSlash(p) == |d|;
      assert p[..|d| + 1] == d';
      assert d'[|d| - 1] != '/';
      assert d'[..|d'| - 1] == d;
    }
  }

  /** The directory of a file is the directory it was joined to:
      dir/A/sub.vtu lies in dir/A and dir/coll.pvd in dir. */
  lemma DirnameExample()
    ensures Dirname("dir/A/sub.vtu") == "dir/A" && Dirname("dir/coll.pvd") == "dir"
  {
    assert Join("dir/A", "sub.vtu") == "dir/A/sub.vtu";
    DirnameOfJoin("dir/A", "sub.vtu");
    assert Join("dir", "coll.pvd") == "dir/coll.pvd";
    DirnameOfJoin("dir", "coll.pvd");
  }

  /** A manifest at dir/A/sub.vtu naming the piece p.vtp resolves it to
      dir/A/p.vtp, and a collection at dir/coll.pvd naming A/sub.vtu
      resolves that to dir/A/sub.vtu. */
  lemma TierExample()
    ensures Join(Dirname("dir/A/sub.vtu"), "p.vtp") == "dir/A/p.vtp"
    ensures Join(Dirname("dir/coll.pvd"), "A/sub.vtu") == "dir/A/sub.vtu"
  {
    DirnameExample();
    JoinRelative("dir/A", "p.vtp");
    assert "dir/A" + "/" + "p.vtp" == "dir/A/p.vtp";
    JoinRelative("dir", "A/sub.vtu");
    assert "dir" + "/" + "A/sub.vtu" == "dir/A/sub.vtu";
  }
}
