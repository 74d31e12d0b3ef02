# Streaming peak clusterer of hxms, modelled in Dafny

This project models the core of a mass-spectrometry pipeline that groups
peaks (retention time, m/z, intensity) into chromatographic clusters while it
reads them, using a window of recent scans and a fixed pool of cluster
identities ("flags"). It also models the smaller self-contained pieces around
that core.

- `flags.dfy` (module `Flags`, clustering/clm_flags.c): the flag pool. A flag
  is a colour and the last scan in which one of its points was seen; a slot
  whose `last_seen` is -1 is free. `GetNextFlag` hands out free slots
  round-robin. `FreshenFlags` consolidates the active slots by colour,
  reports each colour that has fallen behind a horizon, and frees that
  colour's slots with fresh colours. It is split into its three loops
  (`ConsolidateSlots`, `ReportStale`, `RecycleSlots`). Each loop is proved
  against a specification function (`Consolidate`, `RunOutput`, `Recycled`),
  and lemmas state what those functions promise.
- `blocks.dfy`, `points.dfy` (modules `Blocks`, `Points`,
  clustering/clm_points.c): the point window. It is one zeroed block of
  `dim1 * dim2` points plus a table of row starts. `StepPointmatrix` moves
  the rows up by `step` with a memmove and zero-fills the tail with a memset.
- `window.dfy` (module `Window`, 02_clustering/src/clm_points.c): the second
  version of the window. Here `memstep` moves and zeroes a block, and
  `stepPointmatrix` and `stepDoubles` (the retention-time array) both use it.
  The file's `Pointmatrix` is the same text as the first version's, so
  `Points.Pointmatrix` models both.
- `driver.dfy` (module `Driver`, clustering/clm_main.c): the record loop,
  modelled as a class `Clusterer` that owns the pool and the window.
  - A record that does not parse, or whose intensity is below `I_MIN`, is
    skipped.
  - A new retention time opens a new row. When the window is full it steps
    by `N_SCANS/3` rows and stale colours are retired.
  - The new point takes the flag of its first neighbour within `MZ_DIST` in
    the `N_PREV` rows above it. A second neighbour's flag slot is
    overwritten with that flag (a merge), and the search ends there.
  - A point with no neighbour takes the current free flag.
  - At the end of the input every colour still active is reported.

  The neighbour search is proved equal to a row-by-row specification
  (`Found`/`Neighbours`). Each step of the loop is specified by what it does
  to the window and to the pool (`Join`, `Recycled`).
- `spectrum.dfy` (module `Spectrum`, 02_clustering/other/cluster.c):
  - `bsearch2` with its five modes, over a sorted array with unique keys;
  - the comparators;
  - the growable arrays of points per scan and of scans per spectrum.
- `preprocess.dfy` (module `Preprocess`, 01_preprocess/src/preprocess.c):
  - the peak filter `strip_peaks`;
  - the table of the n highest peaks (`find_highest_peaks`,
    `compare_I_peak`);
  - the scan-acceptance state machine of `sax_cb`: scan type, even/odd
    skipping, time and number window, renumbering.
- `mzxml.dfy` (module `MzXml`, 01_preprocess/src/mxmlmzXML.c):
  - the xs:duration to seconds parser. It follows the lexical form of
    section 3.2.6 of W3C XML Schema Part 2: Datatypes, without validation,
    with `atof` modelled for decimal numbers;
  - the load and whitespace callbacks;
  - the per-word byte swaps applied on loading and on saving a peak list.
- `composition.dfy` (module `Composition`,
  10_utils/isotopic_profiler/Isotopic-Fast-Profiles.cpp):
  - the per-residue elemental count of a peptide;
  - the clamps of the charge and of the deuteration percentage;
  - the reading of the isotope table.
- `checkclusters.dfy` (module `CheckClusters`, clustering/checkclusters.py):
  the orphan-point check on one cluster file.

A pointer to a flag is the index of its slot (`Option<nat>`, `None` for
NULL). m/z, intensity and retention time are `real`: they are only compared,
never computed with.

The code behaves as follows in places a reader might not expect, and the
model follows it:

- Colours are not unique at every instant. Free slots keep their initial
  colours, and a recycled slot gets a colour that only exceeds the colours
  active on entry (clustering/clm_flags.c:64, clustering/clm_main.c:40-43).
  No lemma claims global uniqueness.
- A merge copies one flag slot onto another (clustering/clm_main.c:94-95).
  It does not sweep every slot of the old colour, and at most one merge
  happens per point.
- No cluster files are written, no minimum cluster size is applied and no
  file merging happens. These operations are only declared
  (02_clustering/src/clm.h:31-36), and their implementations are not part
  of this model.
- `getnextFlag` looks at `current` first and returns it when it is free
  (clustering/clm_flags.c:14-16). The unit test
  (clustering/test/unittest.c:120-124) expects `current` never to be
  returned. `Flags.GetNextFlag` follows the code. In the driver `current` is
  never free at the call, because its `last_seen` was just set
  (clustering/clm_main.c:111-113).

## Model

| member | source | states |
|---|---|---|
| `Flags.GetNextFlag` | clustering/clm_flags.c:6-20 | Returns -1 exactly when `len <= 0` or `current` is outside `[0, len)`, and -2 exactly when no slot is free. Otherwise it returns a free slot in `[0, len)`, and every slot before it in cyclic order from `current` itself is busy. It returns `current` when that slot is free. The pool is only read. |
| `Flags.ConsolidateSlots` | clustering/clm_flags.c:34-49 | The first loop builds the table `new[0..tail)` equal to `Consolidate` of the slots, with `curr_color` equal to the largest active colour (or -1). |
| `Flags.AbsorbSlot` | clustering/clm_flags.c:37-48 | One active slot raises the entry of its colour to the larger `last_seen`, or is appended when its colour has no entry yet. |
| `Flags.ConsolidateIsPerColorMax` | clustering/clm_flags.c:34-49 | The consolidated table has pairwise distinct colours. A colour is in it exactly when some active slot carries it. Each entry's `last_seen` is the maximum over the active slots of its colour: no slot is higher, and one slot attains it. |
| `Flags.TopColorBounds` | clustering/clm_flags.c:27-46 | `curr_color` is at least -1 and at least every active colour, so colours drawn above it are new. |
| `Flags.ReportStale` | clustering/clm_flags.c:51-56 | The second loop passes the stale entries to `outflag` in table order and stops at the first nonzero return. Its result is `RunOutput` of the table. |
| `Flags.RunOutputReportsStale` | clustering/clm_flags.c:51-56 | Without a failure, the calls are exactly the stale entries, in order, and each returned 0. The run fails exactly when some stale entry's call would return nonzero. |
| `Flags.RunOutputStopsAtFailure` | clustering/clm_flags.c:55 | Once a call has failed, later entries are never reported. |
| `Flags.OutputOncePerStaleColor` | clustering/clm_flags.c:34-56 | When reporting succeeds, `outflag` is called exactly once per distinct colour whose maximum `last_seen` over its active slots is below `scan`, and for no other colour. |
| `Flags.RecycleSlots` | clustering/clm_flags.c:58-71 | The third loop turns the slots into `Recycled` of the old slots. It leaves slots past `len` alone and counts the freed slots. |
| `Flags.RecycledFreshColors` | clustering/clm_flags.c:58-71 | Every active slot of a stale colour ends free, with a colour above every colour active on entry. The new colours increase with the slot index, so they are pairwise distinct. Slots of other colours and slots already free are unchanged. |
| `Flags.CountStaleIsFreed` | clustering/clm_flags.c:66-73 | The returned count equals the number of slots that went from active to free. |
| `Flags.FreshenFlags` | clustering/clm_flags.c:25-74 | Returns -1 with the pool untouched when `len <= 0` or `scan < 0`. Returns -2 with the pool untouched when a call to `outflag` fails. Otherwise the pool becomes `Recycled` of the old slots and the count of freed slots is returned. |
| `Points.Pointmatrix` | clustering/clm_points.c:8-23 | Returns NULL exactly when a dimension is not positive. Otherwise the matrix is new, row `a` starts exactly `dim2` points after row `a-1`, and every point is zero (m/z 0, intensity 0, no flag). |
| `Points.PointMatrix.Set` | clustering/clm_main.c:74-75 | Writing `matrix[a][b]` changes that cell and no other cell of the window. |
| `Points.StepPointmatrix` | clustering/clm_points.c:32-41 | Returns -1 with the block unchanged when `step <= 0` or `step > dim1`. Otherwise it returns `dim1 - step`, row `a` holds the old row `a + step` in every column for `a < dim1 - step`, and the last `step` rows are zero. |
| `Points.ShiftRows` | clustering/clm_points.c:37-38 | The memmove and memset move every surviving row up by `step` and zero the tail rows. |
| `Blocks.MemMove` | clustering/clm_points.c:37 | Overlapping copy: the destination range holds the old source range, and everything else is unchanged. |
| `Blocks.MemSet` | clustering/clm_points.c:38 | The range becomes zero, and everything else is unchanged. |
| `Window.MemStep` | 02_clustering/src/clm_points.c:33-41 | Returns NULL with nothing changed when `step > size`; a negative step cannot be given. Otherwise element `i < size - step` holds old element `i + step`, the last `step` elements are zero, the offset `size - step` of the zeroed area is returned, and nothing past `size` changes. |
| `Window.StepPointmatrix` | 02_clustering/src/clm_points.c:44-54 | Rejects `step <= 0` or `step > dim1` with -1 and leaves the block unchanged. Otherwise it shifts whole rows through `memstep`, zeroes the tail rows and returns `dim1 - step`. |
| `Window.StepDoubles` | 02_clustering/src/clm_points.c:57-65 | Rejects `step <= 0` or `step > len` with -1 and leaves the array unchanged. Otherwise element `i < len - step` becomes old element `i + step`, the tail becomes 0.0, and it returns `len - step`. |
| `Driver.RowMatchesReached` | clustering/clm_main.c:81-84 | Within a row, a column is found exactly when the scan reaches it and it holds an in-band non-empty point. The scan is reached when no earlier column is the empty sentinel or lies above the band; columns below the band are passed over. |
| `Driver.Neighbours` | clustering/clm_main.c:78-79 | The neighbours of a point lie only in rows `scan_idx-1` down to `max(0, scan_idx-N_PREV)`. |
| `Driver.NextRow` | clustering/clm_main.c:57-69 | After an RT change the row index is the next row, or `N_SCANS - RT_step` when the window was full. It always lands inside the window. |
| `Driver.Join` | clustering/clm_main.c:89-108 | The first neighbour's slot gets `last_seen = total_scans`. A second neighbour's slot is overwritten with that same flag. No other slot changes. |
| `Driver.FlushFreesAll` | clustering/clm_main.c:121 | With the horizon beyond every `last_seen`, the final recycling frees every slot. |
| `Driver.FlushReportsAll` | clustering/clm_main.c:121 | The final report names every colour active in the pool, each exactly once. |
| `Driver.PrintColorNeverFails` | clustering/clm_main.c:10-13 | `printcolor` returns 0, so retiring colours never fails. |
| `Driver.Clusterer.constructor` | clustering/clm_main.c:36-45 | The pool holds `N_FLAG` free slots, slot `a` with colour `a`. The window is the zeroed matrix, no scan is open yet, and the flag counter starts at 0. |
| `Driver.Clusterer.Admit` | clustering/clm_main.c:46-72 | A line that does not parse, or whose intensity is below `I_MIN`, changes nothing and is not placed. A new RT adds one scan, moves to `NextRow`, resets the column and makes the RT current; when the window was full its rows shift up by `RT_step` with a zero tail, the colours last seen before `total_scans - N_PREV - 1` are retired and reported, and otherwise the pool, the cells and the output stay as they were. A record of the current scan in a row that already holds `N_MZPOINTS` points gives -3, exactly then, and changes nothing. The record goes on to be placed exactly when it is kept and there is no -3, and then a free column of the current row is available. The class invariant is kept. |
| `Driver.Clusterer.Step` | clustering/clm_main.c:46-118 | One line of the input. A line that does not parse or is below `I_MIN` changes nothing. A record of the current scan in a row that already holds `N_MZPOINTS` points gives -3 and changes nothing; any other -3 comes from a kept record with every slot of the pool busy. The scan count grows by one exactly for a kept record with a new RT, whose RT becomes current. A record kept without -3 is written, with its m/z and intensity, at the next column of its row (column 0 of a new scan). The class invariant is kept unless the result is -3. |
| `Driver.Clusterer.Consume` | clustering/clm_main.c:46-119 | The loop over the input from the initial state: it stops with -3 only when some record was kept; after the whole input the scan count is the number of RT changes among the kept records and the current RT is the last kept record's RT. |
| `Driver.Clusterer.AdvanceScan` | clustering/clm_main.c:57-69 | An RT change adds one scan, moves to `NextRow` and resets the slot index. When the window was full, the rows shift up by `RT_step`, the tail is zero, and the pool is retired at horizon `total_scans - N_PREV - 1`. |
| `Driver.Clusterer.StepWindow` | clustering/clm_main.c:60-66 | The window steps by `RT_step` (which always succeeds), the row index becomes `N_SCANS - RT_step`, and the stale colours are reported and recycled. |
| `Driver.Clusterer.RetireFlags` | clustering/clm_main.c:65 | The pool becomes `Recycled` at the horizon, and the reported colours are appended to the output. A negative horizon leaves both alone. |
| `Driver.Clusterer.FindNeighbours` | clustering/clm_main.c:77-109 | The search returns the flags of the first and second neighbours in search order, as given by the specification `Neighbours`. The "neighbour has no cluster" exit cannot fire. |
| `Driver.Clusterer.Place` | clustering/clm_main.c:74-118 | The point is written at the current slot with the first neighbour's flag, or with the current flag when it has no neighbour. No other cell changes. The pool becomes `Join` of the neighbours' flags, or gets the current flag marked seen. Exit -3 happens exactly when a new flag is needed and no slot is free. After a new flag, the current flag becomes the next free slot in round-robin order from the old one, every slot in between being busy. |
| `Driver.Clusterer.Settle` | clustering/clm_main.c:86-118 | Given the neighbours' flags, the point joins the first one's cluster (with a merge for a second) or takes the current flag; exit -3 exactly for no neighbour and an exhausted pool; after a new flag the next free slot in round-robin order is current. |
| `Driver.Clusterer.JoinCluster` | clustering/clm_main.c:89-104 | A point with neighbours is written with the first neighbour's flag at the next slot, and the pool becomes `Join` of the neighbours' flags. |
| `Driver.Clusterer.NewCluster` | clustering/clm_main.c:110-117 | A point without neighbours takes `flags[current_flag]`, which is marked seen. The result is -3 exactly when the pool is exhausted. Otherwise the current flag becomes the first free slot in round-robin order from the old one, as `getnextFlag` finds it: it is free and every slot before it in that order is busy. |
| `Driver.Clusterer.MarkSeen` | clustering/clm_main.c:89-104 | The neighbour flags are updated as `Join` says. The check that `last_seen` was updated on a merge cannot fire. |
| `Driver.Clusterer.Flush` | clustering/clm_main.c:121 | After the input, with horizon `total_scans + 2*N_PREV`: the pool before the flush had no `last_seen` past the current scan; the reported colours are appended to the output, each colour active in that pool exactly once; the final pool is that pool recycled at the horizon, and every slot of it is free. |
| `Driver.ScanCountBounds` | clustering/clm_main.c:57-59 | The scan count is at most the number of records, and it is zero exactly when no record is accepted. The last RT is that of an accepted record. |
| `Driver.Run` | clustering/clm_main.c:15-127 | Exit -3 only when some record was accepted. On exit 0, `total_scans` equals the number of RT changes among the accepted records and every slot of the pool is free. The colours printed last are those of the final flush of the pool left by the input: each colour active in it exactly once, in consolidation order, and the final pool is that pool recycled at horizon `total_scans + 2*N_PREV`. |
| `Driver.ScanFound` | clustering/clm_main.c:78-109 | The nested loops of the search find exactly the row-by-row specification `Found`, in search order. |
| `Driver.SentinelFirstRecord` | clustering/clm_main.c:18-75 | As written (`RowAsWritten`), a first record at RT -1 opens no scan and is written to row `N_SCANS`, whose first cell lies past the `N_SCANS * N_MZPOINTS` block; any other first RT lands inside the window. With an optional current RT every first record opens a scan inside the window. |
| `Spectrum.Compare` | 02_clustering/other/cluster.c:183-210 | The shared three-way comparison returns 1, -1 or 0 exactly when `>`, `<` or `==` holds. |
| `Spectrum.CompPoint` | 02_clustering/other/cluster.c:183-187 | Orders points by m/z: 1, -1 or 0 exactly as `>`, `<` or `==`. |
| `Spectrum.CompScan` | 02_clustering/other/cluster.c:199-203 | Orders scans by RT: 1, -1 or 0 exactly as `>`, `<` or `==`. |
| `Spectrum.CompRT` | 02_clustering/other/cluster.c:206-210 | Compares a key with a scan's RT: 1, -1 or 0 exactly as `>`, `<` or `==`. |
| `Spectrum.BSearch2` | 02_clustering/other/cluster.c:56-98 | Over a sorted array with unique keys, the result matches the mode: equal (mode 0 and any other), `>=` (1), `>` (2), `<=` (-1), `<` (-2). Modes 1 and 2 give the smallest match and modes -1 and -2 the largest. NULL is returned exactly when no element matches. |
| `Spectrum.ConstructScan` | 02_clustering/other/cluster.c:117-126 | A new scan has the given RT, no points, `PT_INIT` allocated and null neighbour pointers. |
| `Spectrum.Spectrum.constructor` | 02_clustering/other/cluster.c:167-173 | A new spectrum has no scans and `RT_INIT` scans allocated, and it satisfies the spectrum invariant (allocation a multiple of `RT_INC` steps above `RT_INIT`, scans with distinct RTs). The exit on a failed allocation is not modelled. |
| `Spectrum.AddPointToScan` | 02_clustering/other/cluster.c:101-114 | `len` grows by exactly one and `(mz, I, NULL)` is stored at the old `len`. Earlier points are unchanged. `alloc` grows by `PT_INC` exactly when the scan was full, so the points always fit. |
| `Spectrum.Spectrum.AddPoint` | 02_clustering/other/cluster.c:134-164 | The point goes to the last scan whose RT is exactly equal, or to one new scan at the end. `alloc` grows by `RT_INC` only when a scan is created in a full array. RTs stay unique. |
| `Spectrum.AddedKeepsRtsUnique` | 02_clustering/other/cluster.c:138-161 | Adding a point keeps the scans unique by RT. |
| `Spectrum.AddedPlacesPoint` | 02_clustering/other/cluster.c:138-163 | Afterwards exactly one scan at that RT holds the point last. Every other scan is unchanged, and at most one scan was created. |
| `Spectrum.AddedCountsOnePoint` | 02_clustering/other/cluster.c:134-164 | The spectrum holds exactly one more point. |
| `Preprocess.StripPeaks` | 01_preprocess/src/preprocess.c:340-385 | The kept pairs are exactly those with `I > min_I`, `mz > min_mz` and `mz < max_mz`, in their original order. The count is their number, and the new byte length is `2*size*count`. A precision whose eighth, rounded toward zero, is neither 4 nor 8 fails the assertion, so 32-39 and 64-71 are accepted. |
| `Preprocess.FilterMembers` | 01_preprocess/src/preprocess.c:363 | A pair is kept exactly when it is in the list and inside the window, and the list never grows. |
| `Preprocess.FilterAppend` | 01_preprocess/src/preprocess.c:351-376 | Filtering commutes with concatenation, so kept pairs keep their relative order. |
| `Preprocess.ComparePeakI` | 01_preprocess/src/preprocess.c:457-461 | Orders peaks by decreasing intensity: -1 exactly when the first is higher, 1 exactly when it is lower, 0 when they are equal. |
| `Preprocess.NearAsWrittenTooWide` | 01_preprocess/src/preprocess.c:430-431 | With the integer `abs` as written, two peaks 0.5 m/z apart in one scan count as near. |
| `Preprocess.NearAsWrittenIsUnitWide` | 01_preprocess/src/preprocess.c:430-431 | As written, the m/z test accepts exactly differences strictly between -1 and 1. |
| `Preprocess.NearIsTight` | 01_preprocess/src/preprocess.c:9-10 | The intended test is symmetric and admits only peaks within `SCAN_DIST` scans and `MZ_DIST` m/z. |
| `Preprocess.FindNear` | 01_preprocess/src/preprocess.c:428-442 | The search returns the first table entry near the candidate, or `n` when there is none. |
| `Preprocess.Offer` | 01_preprocess/src/preprocess.c:423-452 | A candidate below the lowest entry leaves the table unchanged. When an entry is near, that entry is replaced only if it is lower, nothing is inserted, and the spare slot is untouched. Otherwise the candidate joins the `n+1` entries, sorted by decreasing intensity, and they are a permutation of the old entries plus the candidate. |
| `Preprocess.SiftUp` | 01_preprocess/src/preprocess.c:438-452 | The re-sort leaves the first `m` entries in decreasing order of intensity, as a permutation of the old entries, and does not touch the rest. |
| `Preprocess.FindHighestPeaks` | 01_preprocess/src/preprocess.c:388-454 | Only local maxima (not below either neighbour) are offered. The table stays sorted, and each entry was there before or comes from a local maximum of this scan. |
| `Preprocess.SkipAlternates` | 01_preprocess/src/preprocess.c:290-298 | With even/odd selection on, scans of the right type meet YES alternately, according to the starting state and the parity of their position. |
| `Preprocess.NeverSkips` | 01_preprocess/src/preprocess.c:298 | NEVER never toggles. |
| `Preprocess.ScanFilter.OpenScan` | 01_preprocess/src/preprocess.c:285-312 | A wrong `scanType` is rejected without toggling `skip`. Otherwise `skip` steps YES to NO and NO to YES, and a scan met by YES is rejected. A scan is kept exactly when it passes the selection and lies within the time and number window. Kept scans are renumbered consecutively. |
| `MzXml.XsDurationToS` | 01_preprocess/src/mxmlmzXML.c:151-194 | The loop computes `Duration`: the first character is skipped, and each number before a designator is summed in its unit. |
| `MzXml.FieldAdds` | 01_preprocess/src/mxmlmzXML.c:162-191 | A number closed by `S`, `M`, `H`, `D` or `Y` adds itself times 1, 60 (after `T`) or 30 days (before `T`), 3600, 86400 or 360 days, and the number start moves past the designator. |
| `MzXml.FoldSkips` | 01_preprocess/src/mxmlmzXML.c:189-190 | Characters that are not designators leave the parse unchanged. |
| `MzXml.NoUnitsNoSeconds` | 01_preprocess/src/mxmlmzXML.c:158-193 | A duration without units gives 0, so `"P"` gives 0. |
| `MzXml.FoldPrefix` | 01_preprocess/src/mxmlmzXML.c:162-192 | The state after the first `k` characters does not depend on what follows them. |
| `MzXml.AgreeAfterT` | 01_preprocess/src/mxmlmzXML.c:159-167 | For durations that start with `PT`, the code as written and the corrected start agree. |
| `MzXml.FirstFieldLost` | 01_preprocess/src/mxmlmzXML.c:159-186 | As written, `"P1D"` gives 0 seconds; with the start after the `P` it gives 86400. |
| `MzXml.LoadCb` | 01_preprocess/src/mxmlmzXML.c:28-33 | `MXML_CUSTOM` exactly for the element name `"peaks"`, `MXML_OPAQUE` otherwise. |
| `MzXml.WhitespaceCb` | 01_preprocess/src/mxmlmzXML.c:135-148 | NULL before open and close tags, `"\n"` after them, and exit 129 for any other value. |
| `MzXml.SwapInPlace` | 01_preprocess/src/mxmlmzXML.c:68 | The word loop reverses the bytes of every whole word of the buffer in place. |
| `MzXml.LoadSwap` | 01_preprocess/src/mxmlmzXML.c:65-73 | Loading requires whole pairs (a multiple of 8 bytes for precision 32, 16 otherwise) and byte-swaps every word in place. On failure the buffer is untouched. |
| `MzXml.SaveSwap` | 01_preprocess/src/mxmlmzXML.c:101-108 | Saving byte-swaps every word in place. |
| `MzXml.SwapWordsInvolution` | 01_preprocess/src/mxmlmzXML.c:65-108 | Swapping the words twice restores the buffer. |
| `MzXml.LoadSaveRoundTrip` | 01_preprocess/src/mxmlmzXML.c:65-108 | Saving a loaded peak list gives back the loaded bytes. |
| `Composition.CountComposition` | 10_utils/isotopic_profiler/Isotopic-Fast-Profiles.cpp:297-440 | The loop starts at C=N=S=0, O=1, H=3, side_deut=4, and each character adds its residue's fixed increment. Unrecognised characters add nothing. |
| `Composition.UnrecognisedIsZero` | 10_utils/isotopic_profiler/Isotopic-Fast-Profiles.cpp:435-438 | A character other than the twenty residue letters leaves every count unchanged. |
| `Composition.CompositionIsSum` | 10_utils/isotopic_profiler/Isotopic-Fast-Profiles.cpp:316-440 | The composition is the start value plus the sum of the per-residue increments. |
| `Composition.CompositionOrderFree` | 10_utils/isotopic_profiler/Isotopic-Fast-Profiles.cpp:320-440 | Two sequences with the same residues in any order have the same composition. |
| `Composition.CompositionAdds` | 10_utils/isotopic_profiler/Isotopic-Fast-Profiles.cpp:320-440 | Counting a concatenation continues from the first piece's counts. |
| `Composition.SumPermutation` | 10_utils/isotopic_profiler/Isotopic-Fast-Profiles.cpp:320-440 | A sum of per-residue increments does not depend on the order of the residues. |
| `Composition.Charge` | 10_utils/isotopic_profiler/Isotopic-Fast-Profiles.cpp:297-311 | A charge outside `[0,7]` becomes 1 and a missing charge is 1. A charge inside the range is kept. |
| `Composition.PercentDeut` | 10_utils/isotopic_profiler/Isotopic-Fast-Profiles.cpp:228-232 | A percentage outside `[0, 99.9]` becomes 5, and one inside is kept. |
| `Composition.StandardIsotopes` | 10_utils/isotopic_profiler/Isotopic-Fast-Profiles.cpp:249-257 | The default table has seven isotope types of H, C, N, O and S, all with offset at least 1. |
| `Composition.ReadIsotopes` | 10_utils/isotopic_profiler/Isotopic-Fast-Profiles.cpp:266-288 | A row is stored only when its four fields parse and its offset is at least 1. The run aborts with code 2 exactly when 99 rows have been stored. |
| `Composition.AcceptedMembers` | 10_utils/isotopic_profiler/Isotopic-Fast-Profiles.cpp:271-273 | An isotope is stored exactly when it is a parsed row with offset at least 1. |
| `CheckClusters.NearSymmetric` | clustering/checkclusters.py:28 | The nearness test (at most 3 scans and 0.05 m/z apart) is symmetric. |
| `CheckClusters.PairMarksBoth` | clustering/checkclusters.py:28-30 | A near pair makes both of its points non-orphans. |
| `CheckClusters.MarkOk` | clustering/checkclusters.py:18-30 | Every point starts not ok. Afterwards a point is ok exactly when another index holds a point near it. This is the marking the loops give without skipping points already ok. |
| `CheckClusters.OrphansMembers` | clustering/checkclusters.py:31-33 | A point is reported exactly when it sits at an index with no near point. |
| `CheckClusters.CheckFile` | clustering/checkclusters.py:18-33 | One cluster file: the points are marked, and exactly those not ok are reported as orphans, in file order. |

## Left out

- Text and file I/O are not modelled. This covers the `fgets`/`sscanf` reading (records are given as `Line` values), the directory walk and regex parsing of clustering/checkclusters.py, `openfile`, `appendfile`, `infox` (its exits become `Status`/`Exit` results) and the printing in `printcolor`. `printcolor` is modelled by its return value 0, and the reported colours are collected in a sequence.
- Allocation failure is not modelled. Neither the NULL returns of `malloc`/`calloc` in `Pointmatrix` nor the `realloc`/`malloc` failure exits in 02_clustering/other/cluster.c can happen in the model. The release functions `freePointmatrix`, `destructScan` and `destructSpectrum` are left out.
- memmove, memset and memstep are modelled in element units. The C code passes byte counts that are whole multiples of the element size, so both views move the same data.
- Floating point is not modelled: m/z, intensity and RT are `real`. The narrowing of `addpointtoScan`/`addpointtoSpectrum` arguments to `float` and the 32-bit `mzI_32` pairs are not modelled. The modelled code only compares these values.
- `atof` is modelled for decimal notation (white space, a sign, digits, a point, digits). Exponents, hexadecimal, `inf` and `nan` are not modelled.
- `be32toh`/`be64toh` and `htobe32`/`htobe64` are modelled as a byte reversal of each word, as on a little-endian host. On a big-endian host they are the identity; either way they are involutions, which is what the round trip uses.
- The base64 and zlib stages of `mzXML_load_custom`/`mzXML_save_custom`, the mxml tree navigation and attribute updates in `main` of 01_preprocess/src/preprocess.c, and the non-scan branches of `sax_cb` (retaining `sha1`, `index`, `peaks` and data nodes) are not modelled. They are calls into libraries outside the modelled code.
- `sax_cb`'s `exit(129)` default branch is left out. It cannot be reached, since `skip` has only three values.
- `optimizeScan` of 02_clustering/other/cluster.c (which trims the points array and sorts it by m/z) is left out: it is a `realloc` and a library `qsort`, outside the modelled operations.
- `optimizeSpectrum`, `getNeighbours`, `clusterSpectrum` and `main` of 02_clustering/other/cluster.c are left out. `optimizeSpectrum` assigns `lo_nb` twice and never sets `hi_nb`, and the other two are stubs.
- The cluster-file flush, minimum cluster size, file rename/append merging, `getlatestFlags`, `writeClusters`, `clearoldFlags`, `mergeColors` and the newer `freshenFlags` are only declared in 02_clustering/src/clm.h. Their implementations are not part of this model.
- Dead-time correction, every Python script other than clustering/checkclusters.py, the probability and mass computations of the isotopic profiler, and the m/z grid of preprocess/src/cluster.c are left out. They are floating-point numerics.
- In the isotopic profiler, the per-residue letter counters (`A`…`Y`), the trimming of the sequence with `strcspn` and the reading of sequences from the file are left out. Only the element counts and `side_deut` feed the rest of the program.
- The debug line counter and its print in clustering/clm_main.c:53 are left out.
- C `int` width is not modelled: the colour counter (`++curr_color` in clustering/clm_flags.c), `total_scans` and the atom counts of the isotopic profiler are unbounded integers, so the model has no wrap-around where the C code would overflow.
- Composition.PercentDeut: compares the percentage as a real. In the C code `percent_deut` is a `float` compared with the double 99.9, so an input of exactly 99.9 narrows to a float just above 99.9 and is reset to 5, whereas the model keeps it.
- Composition.ReadIsotopes: reads the element name as a string. The C code scans it with `%s` into the one-byte `char temp_char`, which overflows for every name; that undefined behaviour is not modelled.
- Preprocess.ScanFilter.OpenScan: tests the time window with the corrected duration parser `MzXml.Duration` (see Findings). `sax_cb` calls `xsduration_to_s` as written, so for a retention time such as `"P1DT0S"` the source compares 0 seconds where the model compares 86400.
- Driver.Run: the pool left by the input is a ghost result tied to the final pool and to the printed colours. The model has no function that gives this pool directly from the whole input.
- Driver.Clusterer.Step: states the cell written and that -3 comes only from a full row or a busy pool, but not the new pool, the neighbours' flags, the window step, or that a record without neighbours always gives -3 when the pool is busy; `Admit` and `Place`, which it runs in turn, state those.
- Driver.Clusterer.Consume: states the scan count and the current RT after the input, but not the window, the pool or the colours reported along the way; the model has no function that computes these from the whole input, and each line's effect is stated by `Admit` and `Place`.
- Preprocess.SiftUp: states that the entries end sorted by decreasing intensity and are a permutation of the old ones. It does not state `qsort`'s particular order among equal intensities, which the C library does not fix.
- Points.StepPointmatrix: at `step == dim1` the source evaluates `matrix[dim1]` (clustering/clm_points.c:37), one past the `dim1` row pointers allocated at clustering/clm_points.c:16, which is undefined behaviour. The model, which addresses the block by offset and not through row pointers (`Points.ShiftRows`), gives that case a defined result: an empty move and a zeroed window. The driver only steps by `RT_STEP`, which is less than `N_SCANS`, and the later version at 02_clustering/src/clm_points.c:44-54 (`Window.StepPointmatrix`) moves rows through `memstep` without reading past them.
- Preprocess.Offer: the same weakening as `SiftUp`, for the re-sorts after a replacement or an insertion. It uses the intended m/z test (see Findings).
- Preprocess.FindHighestPeaks: states that the table stays sorted and where every entry comes from. It does not state the exact final table, which depends on `qsort`'s order of ties. It uses the intended m/z test (see Findings).
- MzXml.XsDurationToS: models the loop with the first number starting after the `P` (see Findings). The code as written is `MzXml.DurationAsWritten`.
- Driver.Clusterer.Admit: opens a scan on the first record whatever its RT, using an optional current RT in place of the -1 sentinel (see Findings).

## Findings

| source | as written | input that shows it | evidently intended | confidence | as-written member | corrected member |
|---|---|---|---|---|---|---|
| 01_preprocess/src/mxmlmzXML.c:159-186 | The first number starts at index 0, on the `P`, so `atof` reads 0 for a date field that comes first | `"P1D"` gives 0 seconds | The number starts after the `P`, so `"P1D"` is 86400 seconds | medium, not executed | `MzXml.FirstFieldLost` | `MzXml.XsDurationToS` |
| 01_preprocess/src/preprocess.c:430-431 | `abs` takes an `int`, so the m/z difference is truncated toward zero before it is compared with 0.05 | Peaks at m/z 100.5 and 100.0 in the same scan count as near | Near only when the m/z difference is below 0.05 | high, not executed | `Preprocess.NearAsWrittenTooWide` | `Preprocess.FindNear` |
| clustering/clm_main.c:18-75 | `scan_idx` starts at `N_SCANS` and `current_RT` at -1 to mean "no scan yet" | A first accepted record with RT -1 opens no scan, so `scan_idx` stays `N_SCANS` and the point is written to row `N_SCANS`, past the window | The first record always opens a scan | low, not executed | `Driver.SentinelFirstRecord` | `Driver.Clusterer.Admit` |
