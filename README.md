# Segmentation relabeling and renaming, modelled in Dafny

This project models the data-preparation core of `lifespan_seg_model_data`:

- **Corpus-callosum resolver** (`correct_corpus_callosum`). Every voxel of a
  3-D label volume that carries one of the corpus-callosum labels 251-255 is
  rewritten in place to left (2) or right (41) cerebral white matter. The
  choice depends on where the voxel lies against the midline of its (y, z)
  column. The midline is the truncated mean x of that column's
  corpus-callosum voxels; a voxel exactly on it takes a random side.
- **Label remapper**, two variants. `relabeling.py` resolves the corpus
  callosum first, then replaces each out-of-vocabulary label by a priority
  rule: 1000-1999 become left cortex (3), 2000 and above right cortex (42),
  72 and 29 become 0, anything else is kept. `relabeling_with_lut2.py`
  applies the same rule without the corpus-callosum, 29 and 72 branches,
  over a vocabulary without 40 and 80. Both replace by a mask over the
  original volume and return the number of distinct out-of-vocabulary
  labels.
- **Colour lookup table** of the second variant: two header lines, then one
  `label name r g b 0` line per vocabulary entry. Names come from a table
  with an `Unknown-<label>` fallback.
- **Default output name**: `<stem>_relabeled<suffix>` beside the input, so
  only the last suffix moves (`a.nii.gz` becomes `a.nii_relabeled.gz`).
- **Renaming script** (`rename_segmentation_files.py`): the argument and
  header checks, the participant-to-age table, the age in months, the
  `T1*`/`aseg*` name templates, the destination directory and the plan of
  copies over subjects and files.

Volumes are `array3<int>` indexed `[x, y, z]`. The random draw is a
parameter `coin(x, y, z)`. The file system of the renaming script is given as
values: whether the participants file exists, its rows, whether the
FreeSurfer directory exists, and the listing of each subject's `mri`
directory. The run's result is an `Outcome` value listing
the copies and reports in order.

The midline is the mean of all the column's corpus-callosum coordinates, not
the middle of their extent `(min + max) / 2`; `CorpusCallosum.MeanIsNotMidpoint`
shows a column where the two differ.

Modules: `Results` (Option/Result), `Decimal` (Python `str(int)` and
`int(str)`), `Paths` (`os.path` and `pathlib` string operations), `Volumes`,
`CorpusCallosum`, `Relabeling` (first variant and the output name),
`RelabelingLut` (second variant and the lookup table) and
`RenameSegmentation`.

## Model

| member | source | states |
|---|---|---|
| Volumes.LabelSet | preproc_data_wrapper/relabeling.py:53 | definition of `np.unique` as a set: every voxel's label is in it |
| CorpusCallosum.CallosalVoxels | preproc_data_wrapper/relabeling.py:11-12 | exactly the in-bounds voxels whose label is 251-255 |
| CorpusCallosum.Columns | preproc_data_wrapper/relabeling.py:15 | exactly the (y, z) pairs of the given voxels |
| CorpusCallosum.CallosalXsBelow | preproc_data_wrapper/relabeling.py:19 | the `x_values` among the first `n` voxels of a column: each lies below `n` and carries a corpus-callosum label, in strictly increasing order |
| CorpusCallosum.CallosalXs | preproc_data_wrapper/relabeling.py:19 | definition: the `x_values` of a whole column |
| CorpusCallosum.Midline | preproc_data_wrapper/relabeling.py:20-24 | definition: `int(np.mean(x_values))` for a column with a corpus-callosum voxel |
| CorpusCallosum.SideLabel | preproc_data_wrapper/relabeling.py:25-30 | definition: on the midline the coin picks 2 or 41, at or beyond it 2, before it 41 |
| CorpusCallosum.Resolve | preproc_data_wrapper/relabeling.py:23-31 | definition: a corpus-callosum voxel takes `SideLabel` at its column's midline; any other voxel keeps its label |
| CorpusCallosum.CallosalColumnsHaveMidline | preproc_data_wrapper/relabeling.py:15-20 | each such column lies in the volume and holds at least one corpus-callosum voxel, so its mean exists |
| CorpusCallosum.ColumnMeans | preproc_data_wrapper/relabeling.py:16-20 | the map has exactly the given columns as keys, each mapped to the truncated mean of its corpus-callosum coordinates |
| CorpusCallosum.ApplySides | preproc_data_wrapper/relabeling.py:23-31 | each listed voxel gets the side its column's mean and its coin give; every other voxel keeps its label |
| CorpusCallosum.CorrectCorpusCallosum | preproc_data_wrapper/relabeling.py:9-33 | every voxel becomes `Resolve` of its column as it was before the call, with that voxel's coin; the mean of each column is taken from the original values |
| CorpusCallosum.ResolveClearsCorpusCallosum | preproc_data_wrapper/relabeling.py:11-31 | no corpus-callosum label survives; each becomes 2 or 41; every other voxel keeps its label |
| CorpusCallosum.SideRule | preproc_data_wrapper/relabeling.py:18-30 | beyond the truncated mean gives 2, before it gives 41, on it the coin decides; the `x >= m` test acts as `x > m` |
| CorpusCallosum.SidesDoNotInterleave | preproc_data_wrapper/relabeling.py:24-30 | along a column, once a voxel goes left every later corpus-callosum voxel goes left |
| CorpusCallosum.CallosalXsBelowComplete | preproc_data_wrapper/relabeling.py:11-19 | every corpus-callosum voxel of a column is among the `x_values` of that column |
| CorpusCallosum.SumBounds | preproc_data_wrapper/relabeling.py:20 | a sum of coordinates within [lo, hi] lies between count·lo and count·hi |
| CorpusCallosum.MidlineWithinExtent | preproc_data_wrapper/relabeling.py:18-24 | the truncated mean lies between the first and last corpus-callosum voxel, strictly before the last when there are two or more |
| CorpusCallosum.OutermostVoxels | preproc_data_wrapper/relabeling.py:18-30 | in a column with two or more corpus-callosum voxels, the last always goes left and the first goes right unless it is on the midline |
| CorpusCallosum.SingleVoxelColumnTies | preproc_data_wrapper/relabeling.py:19-26 | a lone corpus-callosum voxel is its own midline and always takes the random branch |
| CorpusCallosum.NeighbouringPairMayBeAllLeft | preproc_data_wrapper/relabeling.py:20-26 | truncation puts the midline of two neighbours on the first one, so both can end up left |
| CorpusCallosum.MeanIsNotMidpoint | preproc_data_wrapper/relabeling.py:20-24 | in any ten-voxel column with corpus-callosum voxels at x = 0, 1, 4, 9 the midline is 3, not the extent's middle 4, so the voxel at 4 always goes left and the one at 1 right |
| CorpusCallosum.FourVoxelColumn | preproc_data_wrapper/relabeling.py:18-31 | in any six-voxel column with corpus-callosum voxels at 2..5 the midline is 3: 2 goes right, 3 follows the coin, 4 and 5 go left |
| Volumes.InvalidLabels | preproc_data_wrapper/relabeling.py:57 | exactly the labels present that lie outside the given vocabulary; both scripts use it, each with its own vocabulary (the second at relabeling_with_lut2.py lines 72-76) |
| Relabeling.ValidLabelsBounds | preproc_data_wrapper/relabeling.py:37-40 | the vocabulary lies in 0..172 and holds no corpus-callosum label |
| Relabeling.Rule | preproc_data_wrapper/relabeling.py:64-85 | definition: the branches for an out-of-vocabulary label in the script's order: 3, 42, the assertion, 0 for 72, 0 for 29, otherwise kept |
| Relabeling.Remap | preproc_data_wrapper/relabeling.py:61-88 | definition: vocabulary labels stay, others take the target of `Rule` or stay |
| Relabeling.Relabeled | preproc_data_wrapper/relabeling.py:47-88 | definition: `Remap` of the voxel after corpus-callosum resolution |
| Relabeling.RemapCases | preproc_data_wrapper/relabeling.py:61-85 | vocabulary labels kept; 1000-1999 to 3; 2000 and up to 42; 72 and 29 to 0; a label leaves the vocabulary only if it is kept unchanged |
| Relabeling.RemapIdempotent | preproc_data_wrapper/relabeling.py:61-88 | remapping a remapped label changes nothing |
| Relabeling.RemapFitsInt16 | preproc_data_wrapper/relabeling.py:90 | every non-negative output label is below 1000 |
| Relabeling.RelabeledOutcome | preproc_data_wrapper/relabeling.py:50-88 | after both stages a voxel holds a vocabulary label or its own kept original label (below 1000, not 29, 72 or 251-255) |
| Relabeling.MaskOnOriginalAgrees | preproc_data_wrapper/relabeling.py:50-88 | masking on the original volume gives the same voxel as remapping the corrected volume |
| Relabeling.AllValidVolumeUnchanged | preproc_data_wrapper/relabeling.py:53-97 | a volume of vocabulary labels comes out unchanged with no invalid label |
| Relabeling.CopyVolume | preproc_data_wrapper/relabeling.py:47 | a fresh volume with the same shape and contents |
| Relabeling.ReplaceLabel | preproc_data_wrapper/relabeling.py:88 | voxels whose original label is `l` receive the new label, the others keep theirs |
| Relabeling.ReplaceInvalidLabels | preproc_data_wrapper/relabeling.py:61-88 | each voxel ends as the masked result for the whole set of invalid labels; the assertion branch is never taken |
| Relabeling.RelabelSegmentation | preproc_data_wrapper/relabeling.py:35-97 | every voxel ends as `Relabeled` of its original column; the count is the number of invalid labels in the corrected volume |
| Relabeling.OutputFile | preproc_data_wrapper/relabeling.py:107-111 | an explicit non-empty `--output` wins, otherwise the default name |
| Relabeling.DefaultOutputName | preproc_data_wrapper/relabeling.py:110-111 | definition: `with_name(stem + "_relabeled" + suffix)` of the input path |
| Paths.WithName | preproc_data_wrapper/relabeling.py:111 | none exactly when the name is empty; otherwise the path without trailing separators, its name replaced by the new one |
| Paths.StemSuffixSplit | preproc_data_wrapper/relabeling.py:111 | a name is its stem followed by its suffix; a suffix is empty or a dot followed by dot-free text; a name with a suffix has a non-empty stem |
| Relabeling.DefaultOutputNameKeepsSuffix | preproc_data_wrapper/relabeling.py:110-111 | for an input whose name has a suffix: same directory as the input without its trailing separators, same suffix, stem extended by `_relabeled` |
| Relabeling.DefaultOutputNameDoubleSuffix | preproc_data_wrapper/relabeling_with_lut2.py:216-218 | only the last suffix moves: `<stem>.<inner>.<outer>` becomes `<stem>.<inner>_relabeled.<outer>`, as `a.nii.gz` becomes `a.nii_relabeled.gz` |
| Relabeling.DefaultOutputNameInDirectory | preproc_data_wrapper/relabeling.py:110-111 | the directory part is kept: `<dir>/<front>.<ext>` becomes `<dir>/<front>_relabeled.<ext>`, as `sub-01/aseg.mgz` becomes `sub-01/aseg_relabeled.mgz` |
| Relabeling.DefaultOutputNameOfDirectory | preproc_data_wrapper/relabeling.py:110-111 | a trailing separator is dropped first: for a directory name without `/` or `.`, `<dir>/` becomes `<dir>_relabeled` (`sub-01/` becomes `sub-01_relabeled`) |
| Relabeling.DefaultOutputNameOfRoot | preproc_data_wrapper/relabeling.py:110-111 | `/` has an empty name, so there is no default name (`with_name` raises) |
| RelabelingLut.LabelOrderWithinVocabulary | preproc_data_wrapper/relabeling_with_lut2.py:14-57 | every label written to the table is in the colour table and the name table |
| RelabelingLut.LabelOrderCoversVocabulary | preproc_data_wrapper/relabeling_with_lut2.py:14-57 | the table order lists every vocabulary label |
| RelabelingLut.LabelOrderIncreasing | preproc_data_wrapper/relabeling_with_lut2.py:14-57 | the table order is strictly increasing, so no label is written twice |
| RelabelingLut.ValidLabelsBounds | preproc_data_wrapper/relabeling_with_lut2.py:14-62 | the vocabulary lies in 0..172 and holds none of 29, 40, 72, 80 |
| RelabelingLut.NamesCoverVocabulary | preproc_data_wrapper/relabeling_with_lut2.py:160-203 | the name table and the colour table have the same keys |
| RelabelingLut.VocabularyAgainstRelabeling | preproc_data_wrapper/relabeling_with_lut2.py:14-57 | this vocabulary is the first variant's without 40 and 80 |
| RelabelingLut.GetLabelName | preproc_data_wrapper/relabeling_with_lut2.py:158-204 | the table name for a known label, otherwise `Unknown-` followed by text that parses back to the label |
| RelabelingLut.LutLine | preproc_data_wrapper/relabeling_with_lut2.py:153 | definition: `<label> <name> <r> <g> <b> 0` |
| RelabelingLut.LutEntries | preproc_data_wrapper/relabeling_with_lut2.py:150-153 | one line per listed label, in order |
| RelabelingLut.LutLineRoundTrip | preproc_data_wrapper/relabeling_with_lut2.py:151-153 | the entry line of any label, any name and any colour parses back to that label, name and colour |
| RelabelingLut.LutEntryAt | preproc_data_wrapper/relabeling_with_lut2.py:150-153 | entry line `i` is the line of the `i`-th label with its name and colour |
| RelabelingLut.CreateColorLut | preproc_data_wrapper/relabeling_with_lut2.py:140-156 | the lines are the two header lines then one entry per label in table order; the file name is returned |
| RelabelingLut.ColorLutReadsBack | preproc_data_wrapper/relabeling_with_lut2.py:140-204 | every entry line of the built table reads back as its label, its anatomical name (never `Unknown-`) and its colour |
| RelabelingLut.Replacement | preproc_data_wrapper/relabeling_with_lut2.py:81-97 | definition: none for 0, 3 for 1000-1999, 42 from 2000 on, none otherwise |
| RelabelingLut.Remap | preproc_data_wrapper/relabeling_with_lut2.py:80-100 | definition: vocabulary labels stay, others take their `Replacement` or stay |
| RelabelingLut.RemapCases | preproc_data_wrapper/relabeling_with_lut2.py:80-100 | vocabulary labels kept; 1000-1999 to 3; 2000 and up to 42; a label leaves the vocabulary only if it is below 1000 and kept |
| RelabelingLut.BackgroundNeverInvalid | preproc_data_wrapper/relabeling_with_lut2.py:76-82 | the background 0 is never an invalid label |
| RelabelingLut.KeptLabels | preproc_data_wrapper/relabeling_with_lut2.py:91-97 | 251-255, 29, 72, 40 and 80 are invalid here and kept unchanged |
| RelabelingLut.RemapIdempotent | preproc_data_wrapper/relabeling_with_lut2.py:80-100 | remapping a remapped label changes nothing |
| RelabelingLut.RemapFitsInt16 | preproc_data_wrapper/relabeling_with_lut2.py:103 | every non-negative output label is below 1000 |
| RelabelingLut.AgreesWithRelabeling | preproc_data_wrapper/relabeling_with_lut2.py:80-100 | outside 251-255, 29 and 72 the two variants remap alike |
| RelabelingLut.MaskedIsRemap | preproc_data_wrapper/relabeling_with_lut2.py:80-100 | masking by all invalid labels gives the remapped label |
| RelabelingLut.ReplaceInvalidLabels | preproc_data_wrapper/relabeling_with_lut2.py:80-100 | each voxel ends as the masked result for the whole set of invalid labels |
| RelabelingLut.RelabelSegmentation | preproc_data_wrapper/relabeling_with_lut2.py:12-138 | every voxel is remapped, the count is the number of invalid input labels, the table file name and its lines are returned |
| RelabelingLut.AllValidVolumeUnchanged | preproc_data_wrapper/relabeling_with_lut2.py:72-100 | a volume of vocabulary labels comes out unchanged with no invalid label |
| Decimal.ParseIntRoundTrip | rename_segmentation_files.py:77 | `int(str(i)) == i` for every integer |
| Decimal.IntToStringInjective | rename_segmentation_files.py:85 | different numbers have different texts |
| RenameSegmentation.DestinationDirectory | rename_segmentation_files.py:25-31 | definition: `os.path.join(dirname(root), "labels_" + basename(root) + "_renamed")` |
| RenameSegmentation.DestinationBesideRoot | rename_segmentation_files.py:26-31 | the destination sits in the root's parent and is named `labels_<root name>_renamed` |
| RenameSegmentation.DestinationOfTrailingSeparator | rename_segmentation_files.py:26-31 | a root written with a trailing `/` puts `labels__renamed` inside the root |
| RenameSegmentation.JoinOntoDirname | rename_segmentation_files.py:29-31 | joining a plain name onto a directory gives that directory and that name back |
| RenameSegmentation.IndexOf | rename_segmentation_files.py:51-52 | none exactly when the value is absent; otherwise the first position holding it |
| RenameSegmentation.ColumnIndices | rename_segmentation_files.py:49-57 | both column positions when the header has both columns, otherwise the missing one, the id column first |
| RenameSegmentation.AgeTable | rename_segmentation_files.py:59-64 | definition: each data row in order records its age under its id; a row without both cells is the IndexError |
| RenameSegmentation.ParticipantAges | rename_segmentation_files.py:60-64 | the loop yields the age table of the rows, or the first short row |
| RenameSegmentation.AgeTableFailurePersists | rename_segmentation_files.py:61-63 | a short row stops the table whatever follows |
| RenameSegmentation.AgeTableBuilt | rename_segmentation_files.py:60-64 | the table is built exactly when every row has both cells |
| RenameSegmentation.AgeTableIds | rename_segmentation_files.py:60-64 | when every row has both cells, the table's ids are exactly the rows' ids |
| RenameSegmentation.AgeTableLastRowWins | rename_segmentation_files.py:60-64 | an id that appears in several rows gets the age of its last row |
| RenameSegmentation.AgeInMonths | rename_segmentation_files.py:77 | twelve times the parsed age, or the error when `int` rejects it |
| RenameSegmentation.AgeInMonthsOfYears | rename_segmentation_files.py:77 | an age written as `n` gives `12 n` months |
| Paths.SplitExt | rename_segmentation_files.py:81-83 | definition of `os.path.splitext`: the extension starts at the last dot of the last component when a non-dot precedes it |
| RenameSegmentation.Template | rename_segmentation_files.py:85 | definition: `<months>mo_ds-fragileX_sub-<subject><tail>` |
| RenameSegmentation.NewFileName | rename_segmentation_files.py:81-100 | a name exactly for files starting with `T1` or `aseg` |
| RenameSegmentation.NewFileNameTemplates | rename_segmentation_files.py:84-94 | `T1` is checked first and takes the `_0000.` template; `aseg` takes the plain one |
| RenameSegmentation.TemplateInjective | rename_segmentation_files.py:85-94 | the name gives back the months and the subject id |
| RenameSegmentation.NewFileNameDeterminesSubject | rename_segmentation_files.py:85-94 | copies of the same file for different subjects or ages never share a name |
| RenameSegmentation.DoubledDotBeforeExtension | rename_segmentation_files.py:81-85 | for any age and subject, `T1.mgz` gets the tail `_0000..mgz`, with two dots |
| RenameSegmentation.AsegFilesShareName | rename_segmentation_files.py:93-99 | all `aseg*` files with one extension land on the same name |
| RenameSegmentation.CopyFiles | rename_segmentation_files.py:80-100 | the inner loop copies each `T1*`/`aseg*` file of the listing, in order, to its new name |
| RenameSegmentation.Plan | rename_segmentation_files.py:70-102 | definition: the subjects' events in listing order, up to the first age `int` rejects |
| RenameSegmentation.PlanCopies | rename_segmentation_files.py:69-102 | the nested loops produce the plan: copies and reports in listing order, up to the first bad age |
| RenameSegmentation.PlanFailurePersists | rename_segmentation_files.py:77 | a bad age stops the plan whatever subjects follow |
| RenameSegmentation.FileEventsSound | rename_segmentation_files.py:80-100 | every copy is of a listed `T1*`/`aseg*` file, to its new name in the destination |
| RenameSegmentation.FileEventsComplete | rename_segmentation_files.py:80-100 | every listed `T1*`/`aseg*` file is copied |
| RenameSegmentation.PlanCopiesOnlyAgedSubjects | rename_segmentation_files.py:70-100 | every copy belongs to a subject with an `mri` directory and an age |
| RenameSegmentation.PlanCoversSubjects | rename_segmentation_files.py:70-102 | a completed plan reports every subject with an `mri` directory but no age, and copies every `T1*`/`aseg*` file of those with one |
| RenameSegmentation.Run | rename_segmentation_files.py:15-104 | definition: usage, missing file, empty file, missing column, a short row, a missing FreeSurfer directory, or the plan's events |
| RenameSegmentation.RenameFiles | rename_segmentation_files.py:15-104 | the script's outcome: usage, missing file, missing column, crash (including a missing FreeSurfer directory) or completion with its events |
| RenameSegmentation.UsageExactlyWithFewArguments | rename_segmentation_files.py:19-23 | the run only prints usage exactly when there are fewer than two arguments |
| RenameSegmentation.EventsOnlyAfterChecks | rename_segmentation_files.py:19-70 | nothing is copied or reported unless the arguments, the file, both columns, every row's cells and the FreeSurfer directory are there |
| RenameSegmentation.MissingFreesurferDirectoryCrashes | rename_segmentation_files.py:69-70 | with a valid participants file but no FreeSurfer directory, the run crashes before any copy |
| RenameSegmentation.MissingColumnStopsRun | rename_segmentation_files.py:49-57 | a header without a column ends the run naming that column, before any copy |

## Left out

- Reading and writing images with nibabel, the header and affine, and the NIfTI-or-MGH choice. Volumes are integer arrays.
- Floating point: `get_fdata` returns floats and `np.mean` is a float mean. Labels are integers and the midline is the truncated integer mean. For non-negative coordinates the two agree.
- The random source. `random.randint(0, 1)` is the parameter `coin(x, y, z)`; `true` means 0 was drawn.
- Relabeling.RemapFitsInt16: the `int16` cast is a bound only. Negative input labels and their wrap-around are not modelled.
- Relabeling.ReplaceInvalidLabels and RelabelingLut.ReplaceInvalidLabels: they visit invalid labels in an arbitrary order. `np.unique` visits them in increasing order, which does not change the result since each voxel is written at most once.
- `relabeling_with_lut2.py`'s `if label == 0: continue` is unreachable because 0 is in its vocabulary; `RelabelingLut.BackgroundNeverInvalid` states this.
- The temporary file, `mri_vol2vol` through `subprocess`, `shutil.copy` and file removal. `RelabelingLut.CreateColorLut` returns the table lines instead of writing them.
- Paths are strings with `/` as the only separator. `pathlib` drops trailing separators, which the model does; its collapsing of repeated separators and of `.` components is not modelled, so `.` has a name here. `pathlib` suffixes follow Python 3.13 and earlier.
- Paths.WithName: the checks `with_name` makes on the new name (empty, holding a separator) are not modelled; the default output name is never empty and holds no separator.
- `int()` accepts an optional sign and ASCII digits. Surrounding whitespace and `_` separators are not modelled.
- `argparse`, all printing, `os.makedirs` and `shutil.copyfile`. The copies are `Copied` events in order; the plan does not model later copies overwriting earlier ones.
- `os.listdir` order and `csv.reader` quoting. Listings and rows are given as sequences.
- The file system checks `os.path.isfile` and `os.path.isdir` are boolean inputs.
- A crash part-way through the copies keeps the events made before it; the model does not say which files were already copied on disk.
- `preproc_data_wrapper/make_run_files_based_on_csv.py`: shell commands through `os.system`, with no logic to model.
- `preproc_data_wrapper/relabeling_test.py`: runs the pipeline on a fixed file and prints the count, with nothing to state.
