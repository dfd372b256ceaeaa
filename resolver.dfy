/**
 `get_req_file_list_pvd` (the same code in subsetPVD/cli.py and
 gen_subset_pvd.py): the list of files a collection manifest needs. It
 starts with the manifest itself; then, for each DataSet in order, the
 sub-manifest path joined to the collection's directory, followed by each
 Piece source joined to that sub-manifest's own directory. Documents are
 given as a map from path to parsed content; a path missing from the map is
 a document that cannot be read or parsed, and the first one met aborts.
 */
module Resolver {
  import opened Types
  import Paths

  /** The two `os.path` operations the walk uses. The lemmas below hold for
      any pair; `Posix` is the one the tools run with. */
  datatype PathOps = PathOps(join: (string, string) -> string, dirname: string -> string)

  const Posix := PathOps(Paths.Join, Paths.Dirname)

  /** Path of the sub-manifest an entry names, relative to the collection's directory. */
  function SubPath(ops: PathOps, srcDir: string, e: Entry): string
  {
    ops.join(srcDir, e.file)
  }

  /** The inner loop: each Piece source joined to the sub-manifest's directory. */
  function PiecePaths(ops: PathOps, dir: string, pieces: seq<Piece>): (r: seq<string>)
    ensures |r| == |pieces|
    ensures forall k :: 0 <= k < |pieces| ==> r[k] == ops.join(dir, pieces[k].source)
  {
    if pieces == [] then []
    else PiecePaths(ops, dir, pieces[..|pieces| - 1]) + [ops.join(dir, pieces[|pieces| - 1].source)]
  }

  /** The outer loop over the entries es: sub-manifest path, then its pieces,
      entry by entry; the first unreadable sub-manifest is the error. */
  function EntryPaths(ops: PathOps, fs: map<string, Doc>, srcDir: string, es: seq<Entry>): Result<seq<string>>
    decreases |es|
  {
    if es == [] then Ok([])
    else
      match EntryPaths(ops, fs, srcDir, es[..|es| - 1])
      case Err(e) => Err(e)
      case Ok(prev) =>
        var sub := SubPath(ops, srcDir, es[|es| - 1]);
        if sub in fs then Ok(prev + [sub] + PiecePaths(ops, ops.dirname(sub), fs[sub].pieces))
        else Err(NotFound(sub))
  }

  /** The file list for the collection manifest at `source`. */
  function RequiredFiles(ops: PathOps, fs: map<string, Doc>, source: string): Result<seq<string>>
  {
    if source !in fs then Err(NotFound(source))
    else
      match EntryPaths(ops, fs, ops.dirname(source), fs[source].dataSets)
      case Ok(v) => Ok([source] + v)
      case Err(e) => Err(e)
  }

  /** Once a prefix of the entries fails, the whole walk fails the same way. */
  lemma {:induction false} EntryPathsErrPersists(ops: PathOps, fs: map<string, Doc>, srcDir: string, es: seq<Entry>, k: nat)
    requires k <= |es| && EntryPaths(ops, fs, srcDir, es[..k]).Err?
    ensures EntryPaths(ops, fs, srcDir, es) == EntryPaths(ops, fs, srcDir, es[..k])
    decreases |es| - k
  {
    if k < |es| {
      assert es[..k + 1][..k] == es[..k];
      EntryPathsErrPersists(ops, fs, srcDir, es, k + 1);
    } else {
      assert es[..k] == es;
    }
  }

  /** Pieces named by the readable sub-manifests among es. */
  function PieceCount(ops: PathOps, fs: map<string, Doc>, srcDir: string, es: seq<Entry>): nat
    decreases |es|
  {
    if es == [] then 0
    else
      var sub := SubPath(ops, srcDir, es[|es| - 1]);
      PieceCount(ops, fs, srcDir, es[..|es| - 1]) + (if sub in fs then |fs[sub].pieces| else 0)
  }

  /** Every sub-manifest the entries name can be read. */
  ghost predicate AllReadable(ops: PathOps, fs: map<string, Doc>, srcDir: string, es: seq<Entry>)
  {
    forall k :: 0 <= k < |es| ==> SubPath(ops, srcDir, es[k]) in fs
  }

  /** The walk succeeds exactly when every sub-manifest is readable; it then
      yields one path per entry plus one per piece. Otherwise it fails on
      the first unreadable sub-manifest, naming its path. */
  lemma {:induction false} EntryPathsOutcome(ops: PathOps, fs: map<string, Doc>, srcDir: string, es: seq<Entry>)
    decreases |es|
    ensures EntryPaths(ops, fs, srcDir, es).Ok? <==> AllReadable(ops, fs, srcDir, es)
    ensures EntryPaths(ops, fs, srcDir, es).Ok? ==>
              |EntryPaths(ops, fs, srcDir, es).value| == |es| + PieceCount(ops, fs, srcDir, es)
    ensures EntryPaths(ops, fs, srcDir, es).Err? ==>
              exists k :: 0 <= k < |es| && SubPath(ops, srcDir, es[k]) !in fs
                && AllReadable(ops, fs, srcDir, es[..k])
                && EntryPaths(ops, fs, srcDir, es) == Err(NotFound(SubPath(ops, srcDir, es[k])))
  {
    if es != [] {
      var n := |es| - 1;
      var pre := es[..n];
      var sub := SubPath(ops, srcDir, es[n]);
      EntryPathsOutcome(ops, fs, srcDir, pre);
      assert forall k :: 0 <= k < n ==> pre[k] == es[k];
      if EntryPaths(ops, fs, srcDir, pre).Err? {
        assert EntryPaths(ops, fs, srcDir, es) == EntryPaths(ops, fs, srcDir, pre);
        var k :| 0 <= k < n && SubPath(ops, srcDir, pre[k]) !in fs
                 && AllReadable(ops, fs, srcDir, pre[..k])
                 && EntryPaths(ops, fs, srcDir, pre) == Err(NotFound(SubPath(ops, srcDir, pre[k])));
        assert pre[..k] == es[..k];
        assert !AllReadable(ops, fs, srcDir, es) by {
          assert SubPath(ops, srcDir, es[k]) !in fs;
        }
      } else if sub !in fs {
        assert EntryPaths(ops, fs, srcDir, es) == Err(NotFound(sub));
        assert pre == es[..n];
        assert !AllReadable(ops, fs, srcDir, es) by {
          assert SubPath(ops, srcDir, es[n]) !in fs;
        }
      } else {
        var prev := EntryPaths(ops, fs, srcDir, pre).value;
        assert EntryPaths(ops, fs, srcDir, es) == Ok(prev + [sub] + PiecePaths(ops, ops.dirname(sub), fs[sub].pieces));
        assert AllReadable(ops, fs, srcDir, es) by {
          forall k | 0 <= k < |es|
            ensures SubPath(ops, srcDir, es[k]) in fs
          {
            if k < n {
              assert SubPath(ops, srcDir, pre[k]) in fs;
            }
          }
        }
      }
    }
  }

  /** Where each entry's paths sit: entry k's sub-manifest path comes right
      after the paths of the entries before it, and its j-th piece follows
      at distance 1 + j, joined to the sub-manifest's own directory. */
  lemma {:induction false} EntryPathsAt(ops: PathOps, fs: map<string, Doc>, srcDir: string, es: seq<Entry>, k: nat, j: nat)
    requires EntryPaths(ops, fs, srcDir, es).Ok? && k < |es|
    decreases |es|
    ensures var v := EntryPaths(ops, fs, srcDir, es).value;
            var sub := SubPath(ops, srcDir, es[k]);
            var o := k + PieceCount(ops, fs, srcDir, es[..k]);
            sub in fs && o + |fs[sub].pieces| < |v| && v[o] == sub &&
            (j < |fs[sub].pieces| ==> v[o + 1 + j] == ops.join(ops.dirname(sub), fs[sub].pieces[j].source))
  {
    var n := |es| - 1;
    if k == n {
      EntryPathsAtLast(ops, fs, srcDir, es, j);
    } else {
      var pre := es[..n];
      EntryPathsPrefix(ops, fs, srcDir, es);
      EntryPathsAt(ops, fs, srcDir, pre, k, j);
      assert pre[..k] == es[..k] && pre[k] == es[k];
    }
  }

  /** The walk over es extends the walk over all but its last entry. */
  lemma EntryPathsPrefix(ops: PathOps, fs: map<string, Doc>, srcDir: string, es: seq<Entry>)
    requires EntryPaths(ops, fs, srcDir, es).Ok? && |es| > 0
    ensures var pre := EntryPaths(ops, fs, srcDir, es[..|es| - 1]);
            pre.Ok? && EntryPaths(ops, fs, srcDir, es).value[..|pre.value|] == pre.value
  {
  }

  /** EntryPathsAt for the last entry. */
  lemma EntryPathsAtLast(ops: PathOps, fs: map<string, Doc>, srcDir: string, es: seq<Entry>, j: nat)
    requires EntryPaths(ops, fs, srcDir, es).Ok? && |es| > 0
    ensures var k := |es| - 1;
            var v := EntryPaths(ops, fs, srcDir, es).value;
            var sub := SubPath(ops, srcDir, es[k]);
            var o := k + PieceCount(ops, fs, srcDir, es[..k]);
            sub in fs && o + |fs[sub].pieces| < |v| && v[o] == sub &&
            (j < |fs[sub].pieces| ==> v[o + 1 + j] == ops.join(ops.dirname(sub), fs[sub].pieces[j].source))
  {
    var n := |es| - 1;
    var pre := es[..n];
    assert es[..n + 1] == es;
    EntryPathsSnoc(ops, fs, srcDir, es, n);
    EntryPathsOutcome(ops, fs, srcDir, pre);
    var prev := EntryPaths(ops, fs, srcDir, pre).value;
    var last := SubPath(ops, srcDir, es[n]);
    var tail := PiecePaths(ops, ops.dirname(last), fs[last].pieces);
    var v := EntryPaths(ops, fs, srcDir, es).value;
    assert v == prev + [last] + tail;
    if j < |tail| {
      assert v[|prev| + 1 + j] == tail[j];
    }
  }

  /** One more entry: the walk over es[..i + 1] extends the walk over
      es[..i] by entry i's sub-manifest path and its pieces, or fails on it. */
  lemma EntryPathsSnoc(ops: PathOps, fs: map<string, Doc>, srcDir: string, es: seq<Entry>, i: nat)
    requires i < |es| && EntryPaths(ops, fs, srcDir, es[..i]).Ok?
    ensures var sub := SubPath(ops, srcDir, es[i]);
            var prev := EntryPaths(ops, fs, srcDir, es[..i]).value;
            EntryPaths(ops, fs, srcDir, es[..i + 1])
              == if sub in fs then Ok(prev + [sub] + PiecePaths(ops, ops.dirname(sub), fs[sub].pieces))
                 else Err(NotFound(sub))
  {
    assert es[..i + 1][..i] == es[..i] && es[..i + 1][i] == es[i];
  }

  /** The inner loop of `get_req_file_list_pvd`: each Piece source of one
      sub-manifest, joined to its directory, appended to `flist` in order. */
  method AppendPiecePaths(ops: PathOps, flist: seq<string>, dir: string, pieces: seq<Piece>) returns (out: seq<string>)
    ensures out == flist + PiecePaths(ops, dir, pieces)
  {
    out := flist;
    var j := 0;
    while j < |pieces|
      invariant j <= |pieces|
      invariant out == flist + PiecePaths(ops, dir, pieces[..j])
    {
      assert pieces[..j + 1][..j] == pieces[..j];
      out := out + [ops.join(dir, pieces[j].source)];
      j := j + 1;
    }
    assert pieces[..j] == pieces;
  }

  /** `get_req_file_list_pvd`: `flist` starts with the manifest and grows by
      appending in two nested loops; reading a missing document raises. */
  method GetRequiredFiles(ops: PathOps, fs: map<string, Doc>, source: string) returns (r: Result<seq<string>>)
    ensures r == RequiredFiles(ops, fs, source)
  {
    var flist := [source];
    var srcDir := ops.dirname(source);
    if source !in fs {
      return Err(NotFound(source));
    }
    var elems := fs[source].dataSets;
    ghost var walked: seq<string> := [];
    var i := 0;
    assert elems[..0] == [];
    while i < |elems|
      invariant i <= |elems|
      invariant flist == [source] + walked
      invariant EntryPaths(ops, fs, srcDir, elems[..i]) == Ok(walked)
    {
      var subFullpath := ops.join(srcDir, elems[i].file);
      var subFullDir := ops.dirname(subFullpath);
      EntryPathsSnoc(ops, fs, srcDir, elems, i);
      flist := flist + [subFullpath];
      if subFullpath !in fs {
        EntryPathsErrPersists(ops, fs, srcDir, elems, i + 1);
        assert EntryPaths(ops, fs, srcDir, elems) == Err(NotFound(subFullpath));
        return Err(NotFound(subFullpath));
      }
      var pieces := fs[subFullpath].pieces;
      flist := AppendPiecePaths(ops, flist, subFullDir, pieces);
      walked := walked + [subFullpath] + PiecePaths(ops, subFullDir, pieces);
      i := i + 1;
    }
    assert elems[..i] == elems;
    r := Ok(flist);
  }

  /** The file list, end to end: it fails exactly when the manifest or one
      of its sub-manifests cannot be read (naming the manifest, or the first
      unreadable sub-manifest in entry order); otherwise it starts with the
      manifest path and has 1 + (number of entries) + (total pieces) paths,
      with nothing removed as a duplicate. */
  lemma RequiredFilesOutcome(ops: PathOps, fs: map<string, Doc>, source: string)
    ensures source !in fs ==> RequiredFiles(ops, fs, source) == Err(NotFound(source))
    ensures source in fs ==>
              var es := fs[source].dataSets;
              var dir := ops.dirname(source);
              (RequiredFiles(ops, fs, source).Ok? <==> AllReadable(ops, fs, dir, es)) &&
              (RequiredFiles(ops, fs, source).Ok? ==>
                 var v := RequiredFiles(ops, fs, source).value;
                 |v| == 1 + |es| + PieceCount(ops, fs, dir, es) && v[0] == source) &&
              (RequiredFiles(ops, fs, source).Err? ==>
                 exists k :: 0 <= k < |es| && SubPath(ops, dir, es[k]) !in fs
                   && AllReadable(ops, fs, dir, es[..k])
                   && RequiredFiles(ops, fs, source) == Err(NotFound(SubPath(ops, dir, es[k]))))
  {
    if source in fs {
      EntryPathsOutcome(ops, fs, ops.dirname(source), fs[source].dataSets);
    }
  }

  /** The tiers of the file list: for the entry k of the manifest, position
      1 + k + (pieces of the entries before it) holds its sub-manifest path,
      joined to the manifest's directory, and the next positions hold its
      pieces in order, each joined to the sub-manifest's directory. */
  lemma RequiredFilesTiers(ops: PathOps, fs: map<string, Doc>, source: string, k: nat, j: nat)
    requires RequiredFiles(ops, fs, source).Ok?
    ensures source in fs
    ensures var es := fs[source].dataSets;
            var dir := ops.dirname(source);
            var v := RequiredFiles(ops, fs, source).value;
            k < |es| ==>
              var sub := ops.join(dir, es[k].file);
              var o := 1 + k + PieceCount(ops, fs, dir, es[..k]);
              sub in fs && o + |fs[sub].pieces| < |v| && v[o] == sub &&
              (j < |fs[sub].pieces| ==> v[o + 1 + j] == ops.join(ops.dirname(sub), fs[sub].pieces[j].source))
  {
    var es := fs[source].dataSets;
    if k < |es| {
      EntryPathsAt(ops, fs, ops.dirname(source), es, k, j);
    }
  }

  /** A manifest without DataSet elements needs only itself. */
  lemma RequiredFilesNoEntries(ops: PathOps, fs: map<string, Doc>, source: string)
    requires source in fs && fs[source].dataSets == []
    ensures RequiredFiles(ops, fs, source) == Ok([source])
  {
    assert EntryPaths(ops, fs, ops.dirname(source), []) == Ok([]);
    assert [source] + [] == [source];
  }

  /** A manifest with a single DataSet whose sub-manifest is readable needs
      itself, that sub-manifest and the sub-manifest's pieces. */
  lemma RequiredFilesOneEntry(ops: PathOps, fs: map<string, Doc>, source: string)
    requires source in fs && |fs[source].dataSets| == 1
    requires SubPath(ops, ops.dirname(source), fs[source].dataSets[0]) in fs
    ensures var sub := SubPath(ops, ops.dirname(source), fs[source].dataSets[0]);
            RequiredFiles(ops, fs, source) == Ok([source, sub] + PiecePaths(ops, ops.dirname(sub), fs[sub].pieces))
  {
    var es := fs[source].dataSets;
    assert es[..0] == [];
    EntryPathsSnoc(ops, fs, ops.dirname(source), es, 0);
    assert es[..1] == es;
    var sub := SubPath(ops, ops.dirname(source), es[0]);
    var tail := PiecePaths(ops, ops.dirname(sub), fs[sub].pieces);
    assert EntryPaths(ops, fs, ops.dirname(source), es) == Ok([] + [sub] + tail);
    assert [source] + ([] + [sub] + tail) == [source, sub] + tail;
  }

  /** dir/coll.pvd names A/sub.vtu, which names the piece p.vtp: the list is
      the manifest, dir/A/sub.vtu and dir/A/p.vtp (not dir/p.vtp). */
  lemma RequiredFilesExample()
    ensures var fs := map["dir/coll.pvd" := Doc([Entry(0.0, "A/sub.vtu")], []),
                          "dir/A/sub.vtu" := Doc([], [Piece("p.vtp")])];
            RequiredFiles(Posix, fs, "dir/coll.pvd") == Ok(["dir/coll.pvd", "dir/A/sub.vtu", "dir/A/p.vtp"])
  {
    var fs := map["dir/coll.pvd" := Doc([Entry(0.0, "A/sub.vtu")], []),
                  "dir/A/sub.vtu" := Doc([], [Piece("p.vtp")])];
    Paths.DirnameExample();
    Paths.TierExample();
    assert Posix.dirname("dir/coll.pvd") == "dir";
    assert SubPath(Posix, "dir", Entry(0.0, "A/sub.vtu")) == "dir/A/sub.vtu";
    assert fs["dir/coll.pvd"].dataSets[0] == Entry(0.0, "A/sub.vtu") && "dir/A/sub.vtu" in fs;
    RequiredFilesOneEntry(Posix, fs, "dir/coll.pvd");
    assert Posix.dirname("dir/A/sub.vtu") == "dir/A";
    assert PiecePaths(Posix, "dir/A", [Piece("p.vtp")]) == ["dir/A/p.vtp"];
    assert ["dir/coll.pvd", "dir/A/sub.vtu"] + ["dir/A/p.vtp"] == ["dir/coll.pvd", "dir/A/sub.vtu", "dir/A/p.vtp"];
  }
}
