/**
 The archive naming rule of `archive_files` (the same in subsetPVD/cli.py
 and gen_subset_pvd.py): the tar file is named after the given prefix, with
 ".tar" and, when a compression is chosen, "." and that compression's name;
 the tarfile mode is "w:" followed by the same name. The command line offers
 the compressions "" (none), "gz", "bz2" and "xz".
 */
module Archive {

  /** The compression names the command line can pass. */
  predicate KnownCompression(zip: string)
  {
    zip == "" || zip == "gz" || zip == "bz2" || zip == "xz"
  }

  /** The file name the archive is written to. */
  function ArchiveName(prefix: string, zip: string): (r: string)
    ensures |r| > |prefix| + 3 && r[..|prefix|] == prefix
    ensures r[|prefix|..|prefix| + 4] == ".tar"
    ensures zip == "" <==> |r| == |prefix| + 4
  {
    if zip != "" then prefix + ".tar." + zip else prefix + ".tar"
  }

  /** The mode string handed to tarfile: write, with the chosen compression. */
  function WriteMode(zip: string): (r: string)
    ensures |r| == 2 + |zip| && r[..2] == "w:" && r[2..] == zip
  {
    "w:" + zip
  }

  /** Recover the prefix and the compression from an archive name, trying
      the compressed suffixes first. */
  function SplitArchiveName(name: string): (r: (string, string))
    ensures |r.0| <= |name| && r.0 == name[..|r.0|]
  {
    if HasSuffix(name, ".tar.gz") then (name[..|name| - 7], "gz")
    else if HasSuffix(name, ".tar.xz") then (name[..|name| - 7], "xz")
    else if HasSuffix(name, ".tar.bz2") then (name[..|name| - 8], "bz2")
    else if HasSuffix(name, ".tar") then (name[..|name| - 4], "")
    else (name, "")
  }

  predicate HasSuffix(s: string, t: string)
  {
    |t| <= |s| && s[|s| - |t|..] == t
  }

  /** Each of the command line's compressions gives an archive name from
      which both the prefix and the compression can be read back. */
  lemma SplitArchiveNameInverse(prefix: string, zip: string)
    requires KnownCompression(zip)
    ensures SplitArchiveName(ArchiveName(prefix, zip)) == (prefix, zip)
  {
    var name := ArchiveName(prefix, zip);
    var n := |name|;
    if zip == "gz" {
      assert name[n - 7..] == ".tar.gz";
      assert name[..n - 7] == prefix;
    } else if zip == "xz" {
      assert name[n - 7..] == ".tar.xz";
      assert !HasSuffix(name, ".tar.gz") by { assert name[n - 2] == 'x'; }
      assert name[..n - 7] == prefix;
    } else if zip == "bz2" {
      assert name[n - 8..] == ".tar.bz2";
      assert !HasSuffix(name, ".tar.gz") && !HasSuffix(name, ".tar.xz") by { assert name[n - 1] == '2'; }
      assert name[..n - 8] == prefix;
    } else {
      assert name[n - 4..] == ".tar";
      assert !HasSuffix(name, ".tar.gz") && !HasSuffix(name, ".tar.xz") && !HasSuffix(name, ".tar.bz2")
        by { assert name[n - 1] == 'r'; }
      assert name[..n - 4] == prefix;
    }
  }

  /** Distinct settings never write to the same archive file. */
  lemma ArchiveNameInjective(p1: string, z1: string, p2: string, z2: string)
    requires KnownCompression(z1) && KnownCompression(z2)
    requires ArchiveName(p1, z1) == ArchiveName(p2, z2)
    ensures p1 == p2 && z1 == z2
  {
    SplitArchiveNameInverse(p1, z1);
    SplitArchiveNameInverse(p2, z2);
  }

  /** The archive's extension and the tarfile mode agree: the compression
      read back from the file name is the one the mode writes with. */
  lemma ModeMatchesName(prefix: string, zip: string)
    requires KnownCompression(zip)
    ensures WriteMode(zip) == "w:" + SplitArchiveName(ArchiveName(prefix, zip)).1
  {
    SplitArchiveNameInverse(prefix, zip);
  }

  /** The command line's default archive, compressed with xz. */
  lemma DefaultArchive()
    ensures ArchiveName("vis_subset", "xz") == "vis_subset.tar.xz"
    ensures WriteMode("xz") == "w:xz"
    ensures ArchiveName("vis_subset", "") == "vis_subset.tar"
  {
  }
}
