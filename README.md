# DISFA preprocessing and loading, modelled in Dafny

This project models the data side of the facial action-unit estimator, for the
DISFA corpus. It covers four stages:

- **Preprocessing.** Each subject is handled in sorted order. Every frame of
  the subject's right-camera video goes to disk. When the face-mesh detector
  finds a face, the frame's landmark mesh and its face crop go to disk too.
  The subject's per-action-unit intensity files are zipped into one record
  per frame and saved. The subject's id is then appended to a status ledger
  (`status.txt`); preprocessing is skipped when the ledger has one line per
  subject.
- **Resumption.** A frame whose frame, crop and mesh files all exist is
  skipped.
- **Splitting.** The subjects are split into a test group and a train group.
  The test group is a shuffled block, and the train group is everything else.
- **Loading.** The cached crops, meshes and label records are listed into
  three sorted file lists. The dataset object indexes all three lists with
  one index.

The model has these modules:

- `Wrappers`: `Option`, `Result` and the Python exceptions the model raises (list indexing, `int()`, division by zero, missing files and directories).
- `PyStr`: the Python primitives the code relies on, namely `str.strip`,
  `str.split`, `int()`, `str()`, the `:04d` format, slicing with clamping,
  negative indexing and floor division.
- `PySort`: an insertion sort with keys, which models `sorted`. This
  includes code-point ordering of strings.
- `Artifacts`: cache paths and file names. It also holds the status ledger
  and the `Disk` class (file map plus ledger).
- `FrameExtractor`: `read_save_frame`, written as a specification function
  `Run` plus the imperative loop `ReadSaveFrame`.
- `LabelAligner`: `read_save_action_units`.
- `Pipeline`: `prepare_data`, `if_all_files_preprocessed` and the ledger.
- `PersonSplit`: `split_persons`.
- `CorpusLoader`: `load_data` and `AuDataset`.
- `CacheListing`: the connection between what preprocessing leaves on disk
  and what `load_data` lists. It also holds the finding below.

The following are parameters of the model:

- **The detector.** A function of the frames fed to one face-mesh object so
  far. This captures that the object tracks faces, and that a fresh object is
  made per video.
- **The cropper.** Crop, resize and rescale, as one step.
- **The video frames.**
- **The directory listings.**
- **The shuffled subject order.**
- **The label files' contents.**

The subjects left over by the integer division in `split_persons`
(`len(persons) // sum(folds)`, `dataset/disfa.py:35`) go to train: the code
(`dataset/disfa.py:43-44`) puts every subject outside the test block into
train. `PersonSplit.TrainIsComplement` and `PersonSplit.TwoFoldSizes` state
that outcome.

The ledger test counts lines, and lines from interrupted runs add up. Two
consequences are proved. A run that starts with a non-empty ledger and
finishes leaves more lines than there are subjects, so the test fails from
then on and every start preprocesses again
(`Pipeline.PartialLedgerStaysIncomplete`). And the test can pass while a
subject was never processed, which is listed under "## Findings" below.

## Model

| member | source | states |
|---|---|---|
| PyStr.Strip | dataset/disfa.py:174 | the result is the input with its leading and trailing whitespace removed: a contiguous middle slice that starts and ends with non-whitespace, everything outside it being whitespace |
| PyStr.StripIdempotent | dataset/disfa.py:174 | stripping twice equals stripping once |
| PyStr.StripLine | dataset/disfa.py:174 | a line without surrounding whitespace (`readlines` keeps the newline) strips to itself without the newline |
| PyStr.Split | dataset/disfa.py:174 | `str.split(sep)` gives at least one field and no field contains the separator |
| PyStr.JoinSplit | dataset/disfa.py:174 | joining the fields of a split with the separator gives back the string |
| PyStr.SplitJoin | dataset/disfa.py:174 | splitting a join of separator-free fields gives back the fields |
| PyStr.SplitHasSecondField | dataset/disfa.py:174 | `split(",")[1]` exists iff the string contains a comma |
| PyStr.ParseSignedAccepts | dataset/disfa.py:174 | once whitespace is gone, `int()` accepts exactly an optional sign followed by one or more decimal digits |
| PyStr.ParseIntAccepts | dataset/disfa.py:174 | `int()` accepts exactly an optional sign followed by one or more decimal digits, once surrounding whitespace is stripped |
| PyStr.ParseSignedToString | dataset/disfa.py:174 | the sign-and-digits reader reads back every integer `str()` writes |
| PyStr.ParseIntToString | dataset/disfa.py:174 | `int(str(i)) == i` for every integer |
| PyStr.ParseIntStripped | dataset/disfa.py:174 | `int()` ignores surrounding whitespace |
| PyStr.ParseInt | dataset/disfa.py:174 | `int()` of a str, returning None for ValueError; what it accepts and reads back is stated by `ParseIntAccepts`, `ParseIntToString` and `ParseIntStripped` |
| PyStr.IntToString | dataset/disfa.py:174 | `str()` of an integer, with at least one character; `ParseIntToString` states that `int()` reads it back |
| PyStr.Decimal | dataset/disfa.py:136-138 | `str()` of a natural is a digit string without a leading zero |
| PyStr.DecimalValue | dataset/disfa.py:136-138 | the digits of `str(n)` denote n |
| PyStr.ZeroPad4 | dataset/disfa.py:136-138 | `:04d` is a digit string of length max(4, number of digits) |
| PyStr.ZeroPad4Value | dataset/disfa.py:180 | the digits of `:04d` of n denote n |
| PyStr.ZeroPad4Length | dataset/disfa.py:136-138 | below 10000 the `:04d` form has exactly four characters |
| PyStr.ZeroPad4Injective | dataset/disfa.py:180 | distinct indices give distinct `:04d` forms |
| PyStr.PySliceLength | dataset/disfa.py:43 | for non-negative bounds the slice length is min(hi - lo, len - lo), never negative |
| PyStr.PySliceWithin | dataset/disfa.py:43 | bounds within the list select exactly the elements between them |
| PyStr.PySliceCut | dataset/disfa.py:166 | `s[lo:-k]` with k > 0 drops the first lo and the last k elements when there are that many (the `[6:-4]` cut) |
| PyStr.PySliceLast | dataset/disfa.py:43 | `s[-k:]` for 0 < k <= len(s) is the last k elements |
| PyStr.PySliceClampsHigh | dataset/disfa.py:43 | an upper bound past the end selects the same as the end |
| PyStr.PyIndexFromEnd | dataset/disfa.py:208 | for 0 <= i < len, the negative index i - len reads the same element as i |
| PyStr.PyIndexOutOfRange | dataset/disfa.py:208 | an index outside -len .. len - 1 raises IndexError |
| PyStr.FloorDiv | dataset/disfa.py:35 | `//` rounds toward negative infinity, for either sign of the divisor |
| PySort.LexLeTotal | dataset/disfa.py:50 | code-point order on strings is total |
| PySort.LexLeAntisymmetric | dataset/disfa.py:50 | code-point order on strings is antisymmetric |
| PySort.LexLeTransitive | dataset/disfa.py:50 | code-point order on strings is transitive |
| PySort.KeyLeTotal | dataset/disfa.py:166 | the sort-key order is total |
| PySort.KeyLeTransitive | dataset/disfa.py:166 | the sort-key order is transitive |
| PySort.Insert | dataset/disfa.py:166 | inserting into a sorted list keeps it sorted and adds exactly the element |
| PySort.Sort | dataset/disfa.py:166 | `sorted(xs, key=…)` is a permutation of xs, ordered by key |
| PySort.SortedAllPairs | dataset/disfa.py:166 | in a sorted list every earlier key is at most every later key |
| PySort.SortNames | dataset/disfa.py:50 | `sorted` on names is a permutation in code-point order |
| PySort.SortedNamesUnique | dataset/disfa.py:77 | two sorted permutations of the same names are equal |
| PySort.SortNamesDeterministic | dataset/disfa.py:191-193 | sorting a listing does not depend on the order `os.listdir` returns |
| Artifacts.Directory | dataset/disfa.py:109-120 | an artifact directory ends with the subject's id |
| Artifacts.FileName | dataset/disfa.py:136-138 | the file name `{person}_{kind}_{count:04d}` with the kind's extension; `FileNameInjective` states that it identifies the frame |
| Artifacts.FullPath | dataset/disfa.py:109-138 | the directory segments followed by the file name; `FullPathInjective` states that each artifact has its own path |
| Artifacts.FileNameInjective | dataset/disfa.py:136-138 | within one directory, distinct frame indices give distinct file names |
| Artifacts.FullPathInjective | dataset/disfa.py:109-138 | every kind, subject and index has its own path, so the cache is a map from Path |
| Artifacts.LedgerLines | dataset/disfa.py:68-69 | `readlines()` of `status.txt`, an absent ledger reading as no lines; `AllFilesPreprocessed`, `Pipeline.Appended` and `Pipeline.PrepareLedger` state how the lines are counted and grow |
| Artifacts.AllFilesPreprocessed | dataset/disfa.py:63-70 | the ledger test: the ledger exists and has one line per subject. `Pipeline.FreshRunCompletes`, `Pipeline.PartialLedgerStaysIncomplete` and `Pipeline.LedgerTestPassesWithUnprocessedSubject` state what it lets through |
| Artifacts.Disk.Save | dataset/disfa.py:143-155 | saving a file updates that one path and leaves the ledger alone |
| Artifacts.Disk.Exists | dataset/disfa.py:139 | `os.path.exists` of an artifact path: whether the disk holds a file there; `FrameExtractor.SkipDecidedUpFront` and `ExtractionOutcome` state how the skip test uses it |
| Artifacts.Disk.AppendStatus | dataset/disfa.py:87-88 | appending to `status.txt` adds one line with the id and creates the file if absent; files are unchanged |
| FrameExtractor.AllTargetsExist | dataset/disfa.py:136-139 | the skip test: the frame, crop and mesh files of index i all exist; `ExtractionOutcome` and `SkipDecidedUpFront` state what it decides |
| FrameExtractor.Step | dataset/disfa.py:136-157 | one loop iteration: skip a frame whose three files exist, else save the frame, feed the detector, and save mesh and crop when a face is found; `ExtractionOutcome` states each case |
| FrameExtractor.Run | dataset/disfa.py:129-157 | the loop over the video's frames, counting from 0; `RunKeepsOtherPaths`, `RunFeeds`, `ExtractionOutcome` and `FreshExtraction` state its effect |
| FrameExtractor.ReadSaveFrame | dataset/disfa.py:106-157 | the loop reads every frame and leaves the disk exactly as the specification `Run` says, the ledger unchanged |
| FrameExtractor.RunKeepsOtherPaths | dataset/disfa.py:129-157 | extraction touches only frame, crop and mesh files of this subject at indices below the frame count |
| FrameExtractor.LaterFramesKeep | dataset/disfa.py:129-157 | once frame i has been handled, later frames leave its files alone |
| FrameExtractor.SkipDecidedUpFront | dataset/disfa.py:139-142 | extraction never changes whether the files of the next index all exist |
| FrameExtractor.RunFeeds | dataset/disfa.py:139-145 | the detector is fed exactly the frames that are not skipped, in order |
| FrameExtractor.ExtractionOutcome | dataset/disfa.py:136-155 | a frame whose three files exist is skipped unchanged and not fed. Otherwise the frame is saved and fed; with a face found, mesh and crop are saved from the landmarks; without one, mesh and crop stay as they were |
| FrameExtractor.FedAll | dataset/disfa.py:139-145 | with no frame cached, the detector sees every frame |
| FrameExtractor.FreshExtraction | dataset/disfa.py:143-155 | for a subject with nothing cached, every frame is saved, and the mesh and crop of frame i exist iff the detector finds a face given frames 0..i |
| FrameExtractor.RerunIsNoOp | dataset/disfa.py:139-142 | when every frame's files exist, a run writes nothing and never calls the detector |
| LabelAligner.AuName | dataset/disfa.py:166 | the cut `x[len('SN001_'):-len(".txt")]` of a label file name; `AuNameOfAuFile` states that it recovers the action-unit name |
| LabelAligner.AuFile | dataset/disfa.py:170 | the file name `f"{person}_{au}.txt"` read for an action unit; `AuFileOfAuName` states that it rebuilds the listed name |
| LabelAligner.AuNumber | dataset/disfa.py:166 | the sort key `int(u[2:])`, None where it raises ValueError; `SortedAusSpec` states the sort's outcome |
| LabelAligner.AuNameOfAuFile | dataset/disfa.py:166-170 | for a five-character subject id, the action-unit name cut from its label file name is the name the file was built from |
| LabelAligner.AuFileOfAuName | dataset/disfa.py:166-170 | rebuilding a well-formed label file name from its cut name gives the file name back |
| LabelAligner.SortedAus | dataset/disfa.py:165-166 | the action-unit names cut from the listing, sorted by the number after their prefix; `SortedAusSpec` states its outcome |
| LabelAligner.SortedAusSpec | dataset/disfa.py:165-166 | the names sort iff every number after the two-letter prefix parses, else ValueError; the result is a permutation ordered by that number |
| LabelAligner.DigitsHaveNoComma | dataset/disfa.py:174 | a digit string holds no comma |
| LabelAligner.Intensity | dataset/disfa.py:174 | `int(line.strip().split(",")[1])` with its IndexError and ValueError; `IntensityOfLabelLine` and `IntensityFailure` state its outcome |
| LabelAligner.IntensityOfLabelLine | dataset/disfa.py:174 | a line `frame,value` yields value |
| LabelAligner.LabelLineFields | dataset/disfa.py:174 | a stripped line `frame,value` splits into exactly its two fields |
| LabelAligner.IntStringShape | dataset/disfa.py:174 | `str(v)` holds no comma and ends in a digit |
| LabelAligner.IntensityFailure | dataset/disfa.py:174 | a line without a comma raises IndexError; otherwise it parses iff its second field is an integer |
| LabelAligner.EachOk | dataset/disfa.py:168-175 | a loop that stops at the first exception succeeds iff every element does, and then holds one result per element, in order |
| LabelAligner.EachOkFailsEarly | dataset/disfa.py:168-175 | a failure among the first k elements is the outcome of the whole loop |
| LabelAligner.EachOkFirstError | dataset/disfa.py:168-175 | the loop fails with the error of the first failing element |
| LabelAligner.Column | dataset/disfa.py:171-174 | a file yields a column iff every line parses, and then one intensity per line |
| LabelAligner.ColumnError | dataset/disfa.py:174 | the first malformed line's error is the file's error |
| LabelAligner.ReadAu | dataset/disfa.py:170-174 | opening `{person}_{au}.txt` (FileNotFoundError when absent) and reading its intensities; `Columns` states its outcome over all action units |
| LabelAligner.Columns | dataset/disfa.py:168-175 | all files yield columns iff every one is present and parses; one column per action unit |
| LabelAligner.ColumnsFailEarly | dataset/disfa.py:169-175 | a failure among the first k action units ends the loop with that failure |
| LabelAligner.MinLength | dataset/disfa.py:177 | the shortest column length, which is 0 for no columns |
| LabelAligner.ToDictKeys | dataset/disfa.py:177 | `dict(zip(aus, frame))` has exactly the action units as keys |
| LabelAligner.ToDictValue | dataset/disfa.py:177 | the last occurrence of a key gives its value |
| LabelAligner.ToDict | dataset/disfa.py:177 | `dict(zip(keys, values))`; `ToDictKeys` and `ToDictValue` state its keys and values |
| LabelAligner.Records | dataset/disfa.py:177 | `[dict(zip(aus, frame)) for frame in zip(*cols)]`; `RecordsShape` and `RecordsValue` state its shape and values |
| LabelAligner.AlignLabels | dataset/disfa.py:165-177 | `read_save_action_units` up to the records; `AlignmentCount`, `AlignmentValues` and `AlignLabelsFails` state its outcome |
| LabelAligner.SaveLabels | dataset/disfa.py:179-180 | saving record i under index i; `SavedLabels` states the resulting files |
| LabelAligner.RecordsShape | dataset/disfa.py:177 | there is one record per frame up to the shortest column, each keyed by every action unit |
| LabelAligner.RecordsValue | dataset/disfa.py:177 | record i maps action unit j to row i of column j |
| LabelAligner.AlignmentCount | dataset/disfa.py:165-177 | every listed file is read, and the number of records is the length of the shortest label file |
| LabelAligner.AlignmentValues | dataset/disfa.py:165-177 | record i holds, for each action unit, the intensity on line i of its file |
| LabelAligner.AlignLabelsFails | dataset/disfa.py:165-175 | reading fails iff a name's number does not parse or some file is missing or malformed |
| LabelAligner.SavedLabels | dataset/disfa.py:179-180 | record i is saved under index i of the subject's label directory, and nothing else changes |
| LabelAligner.ReadColumns | dataset/disfa.py:168-175 | the loop over action units computes the specification `Columns` |
| LabelAligner.SaveRecords | dataset/disfa.py:179-180 | the save loop leaves the disk as `SaveLabels` says |
| LabelAligner.ReadSaveActionUnits | dataset/disfa.py:160-180 | on success every record is saved; on failure the error is returned and no file changes |
| Pipeline.Persons | dataset/disfa.py:48-50 | one subject per entry of the label directory listing |
| Pipeline.VideoName | dataset/disfa.py:83 | the video file `f"RightVideo{id_}_comp.avi"` of a subject; `FrameExtractor.RunFeeds` and `FreshExtraction` state what extraction does with its frames |
| Pipeline.VideoFrames | dataset/disfa.py:124-134 | the frames `vidcap.read()` yields for the subject's video, none when the file is missing; `Pipeline.RunWritesEveryFrame` states that each gets a frame file |
| Pipeline.SubjectLabels | dataset/disfa.py:85 | `read_save_action_units` of the subject's label directory, FileNotFoundError when `os.listdir(au_dir)` (line 165) finds none; `ProcessPersonLedger` and `LabelAligner.AlignLabelsFails` state its outcome |
| Pipeline.ProcessPerson | dataset/disfa.py:80-89 | one loop iteration of `prepare_data`: frames, labels, then the ledger line; `ProcessPersonLedger` and `ProcessPersonFiles` state its effect |
| Pipeline.Prepare | dataset/disfa.py:80-89 | the loop over the ids, stopping at the first exception; `PrepareStops`, `PrepareStep` and `PrepareLedger` state its effect |
| Pipeline.ProcessPersonLedger | dataset/disfa.py:80-89 | a subject is appended to the ledger iff its labels are read, and only then |
| Pipeline.ProcessPersonFiles | dataset/disfa.py:83-85 | a subject's files are the frame extraction followed by the saved label records |
| Pipeline.PrepareStops | dataset/disfa.py:80-89 | the first exception ends preparation; later subjects are untouched |
| Pipeline.PrepareStep | dataset/disfa.py:80-89 | one loop iteration extracts frames, then either saves labels and appends the id, or stops with the error |
| Pipeline.PrepareData | dataset/disfa.py:72-90 | the loop over sorted subjects leaves disk and ledger as the specification `Prepare` says, and returns its error |
| Pipeline.EnsurePreprocessed | dataset/disfa.py:20-21 | when the ledger is complete nothing changes; otherwise preparation runs |
| Pipeline.Appended | dataset/disfa.py:87-88 | appending ids adds them as lines and creates the ledger iff something is appended |
| Pipeline.CountWhile | dataset/disfa.py:80-89 | the length of the longest prefix whose elements all pass the test: all before it pass, the element at it fails |
| Pipeline.Finished | dataset/disfa.py:80-89 | the count of subjects, in order, before the first whose labels cannot be read: all before it read, it does not |
| Pipeline.PrepareLedgerStep | dataset/disfa.py:80-89 | one more subject adds its id to the ledger iff the run had not stopped and its labels are read; the run then still has no error exactly in that case |
| Pipeline.PrepareLedger | dataset/disfa.py:80-89 | the ledger gains exactly the subjects before the first whose labels cannot be read, in order; the run ends without error iff there is no such subject |
| Pipeline.FreshRunCompletes | dataset/disfa.py:63-89 | a run from an empty ledger that finishes makes the ledger test pass |
| Pipeline.PartialLedgerStaysIncomplete | dataset/disfa.py:63-89 | a run from a non-empty ledger ends with k + N lines, so the test fails from then on |
| Pipeline.LedgerTestPassesWithUnprocessedSubject | dataset/disfa.py:63-89 | the code as written: after a run that finished only the first subject and a run that stops at the last one, the ledger test passes although the last subject has no ledger line |
| Pipeline.UnfinishedHasNoLine | dataset/disfa.py:80-89 | the subject a run stops at is neither among the subjects finished before it nor in a ledger of subjects whose labels are read |
| Pipeline.CoveredAfterRun | dataset/disfa.py:63-89 | the intended ledger test passes after a run iff every subject had a line before or finished in this run |
| Pipeline.FreshLedgerCovers | dataset/disfa.py:63-89 | from an empty ledger, the intended ledger test passes after a run iff the run completed |
| Pipeline.CoveredLedgerRejectsUnprocessed | dataset/disfa.py:63-89 | the intended ledger test rejects the ledger that the test as written lets through |
| Pipeline.RunKeepsFiles | dataset/disfa.py:129-157 | frame extraction never deletes a file |
| Pipeline.RunWritesEveryFrame | dataset/disfa.py:136-143 | after extraction every frame index has a frame file |
| Pipeline.ProcessPersonKeeps | dataset/disfa.py:80-85 | once a subject is processed, processing any subject afterwards keeps it processed |
| Pipeline.ProcessPersonDone | dataset/disfa.py:80-85 | after a subject is processed, every video frame has a frame file and record i of its labels is saved under index i |
| Pipeline.CompletedRunProcessedAll | dataset/disfa.py:72-90 | after a completed run every subject is processed |
| PersonSplit.Sum | dataset/disfa.py:35 | `sum(folds)`; `SplitPersons` states the ZeroDivisionError when it is 0 and `TwoFoldSizes` the sizes it yields |
| PersonSplit.Without | dataset/disfa.py:44 | the list comprehension keeps exactly the subjects not in the test set, in order |
| PersonSplit.SplitPersons | dataset/disfa.py:33-46 | raises ZeroDivisionError iff the weights sum to 0, IndexError iff there are fewer than two weights, and otherwise returns the split |
| PersonSplit.TestBlock | dataset/disfa.py:41-43 | the clamped bounds of the test slice lie within the subject list |
| PersonSplit.SplitPartition | dataset/disfa.py:41-44 | test is a contiguous block of the shuffled list; no train subject is in test; the two together hold every subject |
| PersonSplit.WithoutConcat | dataset/disfa.py:44 | the comprehension distributes over concatenation |
| PersonSplit.WithoutKeeps | dataset/disfa.py:44 | subjects not in test are all kept |
| PersonSplit.WithoutDrops | dataset/disfa.py:44 | subjects in test are all dropped |
| PersonSplit.TrainIsComplement | dataset/disfa.py:43-44 | for distinct subjects, train is the shuffled list minus the test block, and the groups are a partition as multisets |
| PersonSplit.TestSize | dataset/disfa.py:35-43 | the test group has min(perFold × testWeight, subjects past the offset) members |
| PersonSplit.TwoFoldSizes | dataset/disfa.py:33-46 | with two positive weights and a valid fold, test has perFold × b subjects and train the other perFold × a plus the remainder |
| PersonSplit.BlockFits | dataset/disfa.py:35-43 | the test block's offset and length fit in the list, and what is left is perFold × a plus the remainder |
| PersonSplit.DefaultSplit | dataset/disfa.py:13 | with the default weights `[2, 1]` and fold 0, test is the first third (rounded down) of the shuffled list and train the rest |
| CorpusLoader.LoadStops | dataset/disfa.py:187-193 | a missing directory ends loading with that error |
| CorpusLoader.LoadData | dataset/disfa.py:183-194 | the loop with `+=` computes the specification `Load` |
| CorpusLoader.LoadLengths | dataset/disfa.py:183-194 | loading succeeds iff every subject has all three directories; each list is as long as that kind's listings together |
| CorpusLoader.LoadConcat | dataset/disfa.py:187-193 | loading a concatenated subject list concatenates the loads |
| CorpusLoader.LoadEntriesBelong | dataset/disfa.py:188-193 | every entry lies in the right kind of directory of a requested subject |
| CorpusLoader.PersonEntriesBelong | dataset/disfa.py:188-193 | a subject's entries lie in that subject's directories |
| CorpusLoader.InDirectoryBelong | dataset/disfa.py:191-193 | each joined entry lies in its directory |
| CorpusLoader.Listed | dataset/disfa.py:188-193 | one directory listed, sorted and joined, or FileNotFoundError; `LoadLengths` and `LoadEntriesBelong` state its outcome |
| CorpusLoader.LoadPerson | dataset/disfa.py:187-193 | one subject's crops, meshes and labels; `PersonEntriesBelong` states where its entries lie |
| CorpusLoader.Load | dataset/disfa.py:183-194 | `load_data`: the subjects' shares concatenated in order; `LoadLengths`, `LoadConcat`, `LoadStops` and `LoadEntriesBelong` state its outcome |
| CorpusLoader.AuDataset.Len | dataset/disfa.py:219-220 | `__len__` is the number of meshes; `GetItemAligned` and `GetItemShortLabels` relate it to the indices that `__getitem__` accepts |
| CorpusLoader.AuDataset.GetItem | dataset/disfa.py:207-208 | `__getitem__` succeeds iff the index is valid for all three lists, negative indices included; it reads the same Python index from each list and otherwise raises IndexError |
| CorpusLoader.GetItemAligned | dataset/disfa.py:207-220 | with equally long lists, exactly the indices from -len to len - 1 succeed, and read the same position of each list |
| CorpusLoader.GetItemShortLabels | dataset/disfa.py:207-220 | with fewer labels than meshes, some index below `__len__` raises IndexError |
| CacheListing.LexLeCommonPrefix | dataset/disfa.py:191-193 | a common prefix keeps code-point order |
| CacheListing.LexLeFirstDifference | dataset/disfa.py:191-193 | equal-length strings in order stay in order whatever follows them |
| CacheListing.DigitsEqual | dataset/disfa.py:191-193 | equal-length digit strings with equal values are equal |
| CacheListing.DigitsOrder | dataset/disfa.py:191-193 | equal-length digit strings sort by value |
| CacheListing.PaddedOrder | dataset/disfa.py:136-138 | the `:04d` forms of two different indices below 10000 have one length, differ and sort in index order |
| CacheListing.FileNameOrder | dataset/disfa.py:191-193 | below 10000, the file names of one directory sort in frame order |
| CacheListing.Indices | dataset/disfa.py:191-193 | the frame indices present, in increasing order, exactly those with the wanted files |
| CacheListing.SortedCacheListing | dataset/disfa.py:191-193 | sorting the listing of a preprocessed directory gives the files in frame order |
| CacheListing.CacheNamesSorted | dataset/disfa.py:191-193 | names in frame order are in code-point order |
| CacheListing.ListedFromCache | dataset/disfa.py:188-193 | a listed directory loads as its files in frame order |
| CacheListing.LoadFromCache | dataset/disfa.py:183-194 | on a preprocessed cache, loading gives each subject's crops, meshes and labels in frame order, subject after subject |
| CacheListing.PersonFromCache | dataset/disfa.py:188-193 | a subject whose three directories are listed as the cache holds them loads its own files in frame order |
| CacheListing.FirstIndex | dataset/disfa.py:191-193 | the first listed entry is the lowest index present |
| CacheListing.PositionalPairingMisaligns | dataset/disfa.py:183-208 | the code as written: when a subject's first frames have no crop or mesh, item 0 pairs the crop and mesh of a later frame with the labels of frame 0 |
| CacheListing.FramesSound | dataset/disfa.py:183-194 | every aligned frame belongs to a requested subject and has all three files |
| CacheListing.FramesCover | dataset/disfa.py:183-194 | every frame of a requested subject with all three files is an aligned frame |
| CacheListing.BlockCovers | dataset/disfa.py:191-193 | every complete frame of a subject is in its block |
| CacheListing.AlignedItems | dataset/disfa.py:183-208 | corrected loading: item n is the crop, mesh and label of one frame that has all three, and every such frame is an item |
| CacheListing.ItemFilesConcat | dataset/disfa.py:191-193 | paths of concatenated frames concatenate |
| CacheListing.ItemFilesBlock | dataset/disfa.py:191-193 | the paths of one subject's block are its entries |
| CacheListing.LoadAlignedStep | dataset/disfa.py:187-193 | corrected loading adds one subject's complete frames at a time |
| CacheListing.IndicesAgree | dataset/disfa.py:191-193 | the same presence test gives the same indices |
| CacheListing.PositionalPairingAlignedWhenNothingMissing | dataset/disfa.py:183-208 | if every frame has its crop and mesh, the code as written loads the same lists as corrected loading |
| CacheListing.CacheCorpusAligned | dataset/disfa.py:183-194 | with nothing missing, the cache lists match corrected loading |
| CacheListing.NothingMissingIndices | dataset/disfa.py:191-193 | with nothing missing, each directory lists exactly the complete frames |
| CacheListing.FaceFoundInSecondFrame | dataset/disfa.py:143-155 | when a fresh subject's face is first found in the second frame, frame 0 has no crop or mesh and frame 1 has both |
| CacheListing.FaceMissedInFirstFrame | dataset/disfa.py:143-180 | preprocessing such a subject leaves exactly the cache of `PositionalPairingMisaligns` with first = 1 |

## Left out

- The shuffle with its seed is a parameter (`shuffled`, a permutation of the subjects). numpy's generator is not modelled.
- OpenCV video reading, MediaPipe face mesh and skimage resizing are parameters: the decoded frames, the `Detector` and the `Cropper`. A video that cannot be opened yields no frames.
- `crop_image` floating-point arithmetic is inside the `Cropper`. Line 102 clips `y_max` against `shape[1]` (the width) rather than the height. For a landscape frame (width at least the height, as DISFA's videos are) the cut is harmless, because Python slicing clamps `y_max` to the height anyway. For a portrait frame it cuts the crop short of the face. Neither case is modelled: the crop is inside the `Cropper`.
- `read_save_frame` with `crop=False` or `mesh3d=False` is not modelled. The only call (line 83) passes both as true. With `crop=False`, line 138 would read an undefined `target_crop_path`.
- `os.makedirs`, `os.path` joining, progress bars (`tqdm`), file formats (JPEG, `.npy`, text), torch tensors and the `transform` hook are left out. Paths are segment lists, and a file's content is a `Blob`.
- `if_preprocessed` creates the cache directory when it is missing. The model folds this into the ledger: a missing directory means no ledger.
- `video_length` (line 126) only sizes the progress bar and is left out.
- The `FileNotFound` errors of `os.listdir` (a missing label directory of a subject, a missing cache directory in `load_data`) carry the subject id rather than the directory path. Those of `open` on a label file carry the file's name.
- `int()` is modelled on ASCII digits and ASCII whitespace. Unicode digits, Unicode whitespace and `_` separators are not modelled.
- `CacheListing.SortedCacheListing`: requires frame indices below 10000 (`FourDigitIndices`). From 10000 on, `:04d` yields five digits and the names no longer sort in frame order.
- `CacheListing.LoadFromCache`: requires frame indices below 10000 (`FourDigitIndices`), for the same reason.
- The code in `Disfa.__init__` that connects splitting and loading (lines 23-29) is modelled by its parts, not as one combined operation.
- `AuDataset.__getitem__` reads files through skimage and numpy; the model returns the three paths it reads.
- The integers are unbounded, which matches Python.
- ProcessPersonLedger: exceptions raised during frame extraction are not modelled. In the code, an empty crop (a landmark box outside the frame) makes `image.max()` at line 155 raise ValueError, and `cv2.imwrite`, `np.save` or `imsave` can fail on I/O. Any of these ends `prepare_data` before the labels and the ledger line. Likewise `np.save` of a label record (line 180) can fail on I/O after the labels are read, which ends `prepare_data` before the ledger write at lines 87-88. The model's `Cropper` and saves cannot fail, so such a subject still gets its labels and its ledger line here.
- PrepareLedgerStep: the same gap: the step adds the subject's ledger line whenever its labels are read, even where the code's frame extraction (lines 143-155) or a label save (line 180) would have raised first.
- PrepareLedger: the same gap: "the first subject whose labels cannot be read" leaves out a subject whose frame extraction (lines 143-155) or label save (line 180) raises, which would also stop the code's run there.

## Findings

| source | as written | input that shows it | evidently intended | confidence | as-written member | corrected member |
|---|---|---|---|---|---|---|
| dataset/disfa.py:183-208 | `load_data` sorts three directories independently and `__getitem__` pairs them by position. A crop and a mesh exist only for frames with a detected face, while there is one label record per row of the shortest label file (`zip(*all_au)`, line 177), whatever the video holds. | A subject with nothing cached whose face is not detected in frame 0 but is in frame 1 (`CacheListing.FaceMissedInFirstFrame`). Item 0 then pairs the crop and mesh of frame 1 with the labels of frame 0. | Pair items by frame index, keeping only frames that have a crop, a mesh and a label. | not executed | CacheListing.PositionalPairingMisaligns | CacheListing.AlignedItems |
| dataset/disfa.py:63-70 | `if_all_files_preprocessed` compares the number of ledger lines with the number of subjects. Each run appends to the ledger the subjects it finished, so lines from several runs add up. | Three subjects. A first run finishes subject 1 and stops at subject 2. A second run finishes subjects 1 and 2 and stops at subject 3. The ledger then has 3 lines, so preprocessing is skipped from then on and subject 3 is never processed (`Pipeline.LedgerTestPassesWithUnprocessedSubject`). | The test passes only when every subject has a line in the ledger (`Pipeline.LedgerCovers`). | not executed | Pipeline.LedgerTestPassesWithUnprocessedSubject | Pipeline.FreshLedgerCovers |
