# Subset_PVD in Dafny

A model of the core of Subset_PVD. The tool cuts a ParaView collection
manifest (a `.pvd` file) down to a subset of its time steps. It then gathers
every file that subset needs and packs them into a tar archive. The model
covers three parts:

- **Subset selection.** This is `create_subset_pvd`. It takes the ordered
  list of `DataSet` entries (a timestep and a file reference each) and keeps
  some of them. In time-step mode (`t_step > 0`) it keeps entries spaced in
  time. In count mode (`nsubset > 2`) it keeps every s-th entry. It can keep
  the final entry in both modes. Without a criterion it fails.
  - The installed command, `subsetPVD/cli.py`, and the older script,
    `gen_subset_pvd.py`, differ in time-step mode. They are modelled
    separately, in modules `CliSubset` and `GenSubset`.
  - Count mode is the same code in both. It lives in module `Slicing`.
- **Dependency resolver.** This is `get_req_file_list_pvd`, in module
  `Resolver`. It walks the collection manifest, then each per-timestep
  sub-manifest, then each `Piece` file. Each reference is joined to the
  directory of the manifest that names it.
- **Archive name rule.** This is the file-name rule of `archive_files`, in
  module `Archive`.

Modelling choices:

- Parsed documents are a `map<string, Doc>`. A `Doc` holds the `DataSet`
  entries and the `Piece` elements that a document's `findall` returns. A
  path missing from the map is a document that cannot be read or parsed. It
  produces the `NotFound(path)` error, where Python would raise.
- `os.path.dirname` and `os.path.join` are library code. The resolver takes
  them as a `PathOps` parameter. Module `Paths` gives their POSIX behaviour
  (`Resolver.Posix`), together with the lemma that makes the tiers work: a
  bare name joined to a directory has that directory as its dirname.
- Each loop is a Dafny method proved against a specification function. The
  selection methods are proved against index sequences (`GridSubset`,
  `GapSubset`, `CountSubset`), and the properties are lemmas about those
  functions.
- Python's `elems[0:-1:step]` becomes `Slicing.StepSlice`. `subset[-1] = ...`
  becomes an update of the last slot.
- When N > `nsubset`, count mode never returns fewer than `nsubset`
  entries, and it can return more: five entries with `nsubset` = 3 give
  four (`Slicing.CountSubsetAtLeastTarget`, `Slicing.CountFiveByThree`).
  So the `-n` option's "Number of timesteps to select by iteration slice"
  (subsetPVD/cli.py:104) is a target, not an exact count. When N <=
  `nsubset`, all N entries are returned unchanged.
- A positive `t_step` wins when both `t_step` and `nsubset` are given
  (subsetPVD/cli.py:20,33).
- A time-step run on a manifest with no `DataSet` fails at `elems[0]`. In the
  model it returns `Err(EmptyCollection)`. A count-mode run on the same
  manifest returns the empty list unchanged.

## Model

| member | source | states |
| Slicing.StepSlice | subsetPVD/cli.py:36 | the slice `xs[0::s]`: every s-th element from the start, in order; StepSliceLength and StepSliceAt state its length and its elements |
|---|---|---|
| Slicing.StepSliceLength | subsetPVD/cli.py:36 | the slice `xs[0::s]` has ceil(\|xs\|/s) elements |
| Slicing.StepSliceAt | subsetPVD/cli.py:36 | element k of the slice `xs[0::s]` is `xs[k*s]` |
| Slicing.Strided | subsetPVD/cli.py:36-38 | `elems[0:-1:s]`, with the last slot overwritten by the final entry when inc_final holds; StridedShape states its length and slots |
| Slicing.StrideBounds | subsetPVD/cli.py:34-35 | when N > nsubset > 2, the stride N / nsubset is at least 1 and nsubset strides fit in N |
| Slicing.CountSubset | subsetPVD/cli.py:33-38 | count mode: the list unchanged when N <= nsubset, otherwise Strided with stride N / nsubset; CountSubsetShape, CountSubsetAtLeastTarget and CountFiveByThree state its properties, and SelectByCount computes it |
| Slicing.StridedShape | gen_subset_pvd.py:29-32 | the strided list has ceil((N-1)/s) slots, slot i holds elems[i*s] for i*s < N-1, and with inc_final only the last slot changes, to the final entry |
| Slicing.CountSubsetShape | subsetPVD/cli.py:33-38 | count mode keeps the list unchanged when N <= nsubset; otherwise it gives stride s >= 1, length ceil((N-1)/s), slot i = elems[i*s], and the last slot is the final entry exactly when inc_final holds |
| Slicing.SlotsCoverTarget | subsetPVD/cli.py:35-36 | ceil((N-1)/(N/n)) slots cannot be fewer than n |
| Slicing.CountSubsetAtLeastTarget | gen_subset_pvd.py:28-30 | when N > nsubset, count mode returns at least nsubset entries |
| Slicing.SelectByCount | subsetPVD/cli.py:33-38 | the index walk, then the overwrite of the last slot, returns exactly CountSubset |
| Slicing.CountFiveByThree | subsetPVD/cli.py:35-38 | [a0..a4] with nsubset = 3 gives [a0, a1, a2, a4] with inc_final and four entries without it |
| CliSubset.CellAbove | subsetPVD/cli.py:29 | a time at or past grid line c lies in cell c or a later one |
| CliSubset.CellOrder | subsetPVD/cli.py:29 | a lower grid cell means an earlier time |
| CliSubset.GridNext | subsetPVD/cli.py:29-30 | the next threshold, tlast + (floor((tcurr - tlast) / t_step) + 1) * t_step with tlast fixed at the first timestep; GridNextBounds states its bounds and that it is the next grid point |
| CliSubset.GridStep | subsetPVD/cli.py:26-30 | one iteration of the time-step loop: select the entry and move the threshold to GridNext when the entry reaches it, otherwise change nothing; GridInvStep and CellsIncreaseAppend state what it preserves |
| CliSubset.GridNextBounds | subsetPVD/cli.py:29-30 | the new threshold lies strictly above tcurr and at most t_step above it, opens the next grid cell, and is the smallest grid point t0 + k*t_step above tcurr |
| CliSubset.GridScan | subsetPVD/cli.py:25-30 | after i entries, every selected index is below i |
| CliSubset.GridSubset | subsetPVD/cli.py:20-32 | every index of the time-step result is a valid entry index |
| CliSubset.CellsIncreaseAppend | subsetPVD/cli.py:27-30 | selecting an entry that reaches the threshold keeps the selected cells strictly increasing |
| CliSubset.GridInvStep | subsetPVD/cli.py:26-30 | one loop iteration keeps the invariant: increasing indices starting at 0, strictly increasing cells, and tnext on the grid line after the last selection |
| CliSubset.GridScanInv | subsetPVD/cli.py:21-30 | the loop invariant holds after every prefix of the entries |
| CliSubset.GridSelectionOrdered | subsetPVD/cli.py:21-30 | the loop selects the first entry, keeps input order, has strictly increasing timesteps, and takes at most one entry per grid cell |
| CliSubset.GridSubsetOrder | subsetPVD/cli.py:20-32 | the result starts at index 0, never goes backwards, is strictly increasing except that its last index may repeat, and ends with the final index when inc_final holds and t0 < tfinal |
| CliSubset.SelectByGrid | subsetPVD/cli.py:20-32 | the loop, with `tlast` never reassigned, returns exactly the entries GridSubset picks |
| CliSubset.CreateSubset | subsetPVD/cli.py:19-40 | a positive t_step selects time-step mode and fails on an empty list; otherwise nsubset > 2 selects count mode; otherwise the call fails with NoCriterion |
| CliSubset.GridDuplicatesFinal | subsetPVD/cli.py:21-32 | timesteps [0, 1, 2, 5, 6, 10] with t_step 3 give indices [0, 3, 4, 5, 5]: the final entry appears twice |
| GenSubset.GapScan | gen_subset_pvd.py:19-24 | after i entries, every selected index is below i |
| GenSubset.GapStep | gen_subset_pvd.py:20-24 | one iteration of the time-step loop: select the entry, set tlast to its timestep and tnext to tlast + t_step when it reaches the threshold, otherwise change nothing; GapInvStep and SpacedAppend state what it preserves |
| GenSubset.GapSubset | gen_subset_pvd.py:14-26 | every index of the time-step result is a valid entry index |
| GenSubset.SpacedAppend | gen_subset_pvd.py:21-24 | selecting an entry at least t_step after the last selection keeps all selected entries at least t_step apart |
| GenSubset.GapInvStep | gen_subset_pvd.py:20-24 | one loop iteration keeps the invariant: increasing indices starting at 0, pairwise spacing >= t_step, tlast = last selected timestep, tnext = tlast + t_step |
| GenSubset.GapScanInv | gen_subset_pvd.py:15-24 | the loop invariant holds after every prefix of the entries |
| GenSubset.GapSelectionSpaced | gen_subset_pvd.py:15-24 | the loop selects the first entry, keeps input order, and any two selected entries are at least t_step apart |
| GenSubset.GapSubsetIncreasing | gen_subset_pvd.py:14-26 | the whole result has no repeated index, its timesteps strictly increase, and its gaps are at least t_step except possibly before the appended final entry |
| GenSubset.GapEndsAtFinal | gen_subset_pvd.py:17-26 | with non-decreasing timesteps and inc_final, the last selected timestep is the final timestep |
| GenSubset.SelectByGap | gen_subset_pvd.py:14-26 | the loop, with `tlast = tcurr` on each selection, returns exactly the entries GapSubset picks |
| GenSubset.CreateSubset | gen_subset_pvd.py:13-34 | a positive t_step selects time-step mode and fails on an empty list; otherwise nsubset > 2 selects count mode; otherwise the call fails with NoCriterion |
| GenSubset.GapExample | gen_subset_pvd.py:14-26 | timesteps [0, 1, 2, 5, 6, 10] with t_step 3 and inc_final give indices [0, 3, 5] |
| Paths.LastSlash | gen_subset_pvd.py:44 | the position of the last '/' in a path, or -1 when there is none |
| Paths.RStripSlash | gen_subset_pvd.py:44 | the stripped path is a prefix of the original, does not end in '/', and only '/' was removed |
| Paths.OnlySlashes | gen_subset_pvd.py:44 | the check holds exactly when the string is made of '/' only |
| Paths.Dirname | gen_subset_pvd.py:44 | `dirname` returns a prefix of the path shaped like a directory name, and the empty string when the path has no '/' |
| Paths.LastSlashAppend | gen_subset_pvd.py:49-50 | appending a string without '/' does not move the last '/' |
| Paths.JoinAssociative | subsetPVD/cli.py:58-65 | joining in two steps gives the same path whichever pair is joined first |
| Paths.DirnameOfJoin | gen_subset_pvd.py:49-50 | the dirname of a bare name joined to a directory is that directory |
| Paths.DirnameExample | subsetPVD/cli.py:53 | dirname("dir/A/sub.vtu") = "dir/A" and dirname("dir/coll.pvd") = "dir" |
| Paths.TierExample | subsetPVD/cli.py:57-65 | "A/sub.vtu" named in dir/coll.pvd resolves to dir/A/sub.vtu, and its piece "p.vtp" resolves to dir/A/p.vtp |
| Resolver.PiecePaths | subsetPVD/cli.py:62-65 | one path per Piece, in order, each the Piece source joined to the sub-manifest's directory |
| Resolver.SubPath | subsetPVD/cli.py:57-58 | a DataSet's file joined to the manifest's directory; RequiredFilesTiers states where it lands in the list |
| Resolver.EntryPaths | subsetPVD/cli.py:56-66 | the walk over the DataSet entries: each sub-manifest path followed by its pieces, or the error for the first unreadable sub-manifest; EntryPathsOutcome, EntryPathsAt, EntryPathsSnoc and EntryPathsErrPersists state its properties |
| Resolver.EntryPathsErrPersists | subsetPVD/cli.py:55-61 | once a sub-manifest cannot be read, the walk ends with that error |
| Resolver.EntryPathsSnoc | subsetPVD/cli.py:55-65 | one more entry appends its sub-manifest path and its pieces, or fails naming the sub-manifest |
| Resolver.EntryPathsPrefix | subsetPVD/cli.py:55-65 | the walk over the entries extends the walk over all but the last entry |
| Resolver.EntryPathsOutcome | subsetPVD/cli.py:55-65 | the walk succeeds exactly when every sub-manifest is readable, with one path per entry plus one per piece; otherwise it fails on the first unreadable sub-manifest in entry order |
| Resolver.EntryPathsAtLast | subsetPVD/cli.py:55-65 | the last entry's sub-manifest path and its pieces end the walk |
| Resolver.EntryPathsAt | subsetPVD/cli.py:55-65 | entry k's sub-manifest path sits after the paths of the entries before it, and its j-th piece follows at distance 1 + j, joined to the sub-manifest's directory |
| Resolver.AppendPiecePaths | gen_subset_pvd.py:54-57 | the inner loop appends exactly PiecePaths to the list |
| Resolver.GetRequiredFiles | gen_subset_pvd.py:40-58 | the nested loops return exactly RequiredFiles, or the error for the first document that cannot be read |
| Resolver.RequiredFiles | subsetPVD/cli.py:46-67 | the file list of the nested walk: the manifest, then EntryPaths over its entries, or NotFound for an unreadable manifest; RequiredFilesOutcome and RequiredFilesTiers state its properties |
| Resolver.RequiredFilesOutcome | gen_subset_pvd.py:40-58 | a missing manifest fails naming it; otherwise the list exists exactly when every sub-manifest is readable, starts with the manifest path and has 1 + entries + pieces paths, none dropped as a duplicate; otherwise the error names the first unreadable sub-manifest |
| Resolver.RequiredFilesTiers | subsetPVD/cli.py:50-67 | position 1 + k + (pieces before entry k) holds entry k's path joined to the manifest's directory, and the following positions hold its pieces joined to the sub-manifest's directory |
| Resolver.RequiredFilesNoEntries | gen_subset_pvd.py:40-47 | a manifest without DataSet elements needs only itself |
| Resolver.RequiredFilesOneEntry | gen_subset_pvd.py:40-58 | a manifest with one readable sub-manifest needs itself, the sub-manifest and the sub-manifest's pieces |
| Resolver.RequiredFilesExample | subsetPVD/cli.py:46-67 | dir/coll.pvd naming A/sub.vtu, which names p.vtp, gives [dir/coll.pvd, dir/A/sub.vtu, dir/A/p.vtp] |
| Archive.ArchiveName | gen_subset_pvd.py:71-74 | the archive name is the prefix, then ".tar", and it is longer than prefix + ".tar" exactly when a compression is named |
| Archive.ModeMatchesName | subsetPVD/cli.py:79-84 | for each compression the command line offers, the tarfile mode is "w:" followed by the compression read back from the archive name, so the extension and the mode agree |
| Archive.SplitArchiveName | gen_subset_pvd.py:71-74 | splitting an archive name gives back a prefix of it |
| Archive.SplitArchiveNameInverse | subsetPVD/cli.py:81-84 | for each compression the command line offers, the prefix and the compression can be read back from the archive name |
| Archive.ArchiveNameInjective | gen_subset_pvd.py:71-74 | two different prefix and compression settings never produce the same archive name |
| Archive.DefaultArchive | subsetPVD/cli.py:96-115 | the default settings write vis_subset.tar.xz with mode "w:xz" |

## Left out

- Reading and writing XML with ElementTree is not modelled: `ET.parse`, `findall`, `find`, writing the subset manifest, and the in-place `coll_elem[:] = subset`. Documents are pre-parsed values, and the selection returns the new entry list.
- Parsing the `timestep` attribute with `float` is not modelled, nor is IEEE-754 rounding. Timesteps are Dafny `real`, `math.floor` is `.Floor`, and `int(n_full / nsubset)` is integer division.
- Creating the tar archive, compressing it, and renaming members with `archive_filter` / `relpath_filter` (`os.path.relpath`) are not modelled. That is file I/O in library code.
- `gen_subset_pvd.py`'s `archive_files` accepts a `prefix` argument that it never uses. The model leaves this out.
- The click command line is not modelled: option parsing, `exists=True` checks, messages, the progress bar and quiet mode. The orchestration in `create_subset_archive` is also left out. There, `subsetPVD/cli.py` adds the extra FILES after the resolver's list.
- Filesystem and parse errors are not modelled separately. A document that cannot be read is a path missing from the document map.
- Resolver.GetRequiredFiles: takes `os.path.join` and `os.path.dirname` as a parameter and is proved for any pair. Only `Resolver.Posix` is the POSIX pair, and the Windows form of `os.path` is not modelled.
- Paths.Join: only the two-argument form is modelled, with POSIX separators. It states no contract of its own. Its properties are lemmas: `Paths.JoinAssociative` and `Paths.DirnameOfJoin`.

## Findings

| source | as written | input that shows it | evidently intended | confidence | as-written member | corrected member |
|---|---|---|---|---|---|---|
| subsetPVD/cli.py:21-32 | `tlast` is set to the first timestep and never reassigned, so the check `tlast < tfinal` holds whenever the final timestep exceeds the first one, and the final entry is appended even when the loop has already selected it; the same fixed `tlast` puts thresholds on a grid, so entries closer than t_step can both be selected | timesteps [0, 1, 2, 5, 6, 10], t_step 3, inc_final: the result is the entries at 0, 5, 6, 10, 10, with 10 twice and 5 and 6 only 1 apart | append the final entry only when the last selected timestep is below it, as gen_subset_pvd.py:23-26 does by setting `tlast = tcurr`; then no entry repeats and loop-selected entries are at least t_step apart | high, not executed | CliSubset.GridDuplicatesFinal | GenSubset.GapSubsetIncreasing |
