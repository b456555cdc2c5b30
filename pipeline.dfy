/**
 * The pipeline orchestrator (prepare_data and the start-up check): runs the
 * frame extractor and the label aligner for every subject in sorted order
 * and appends each finished subject to the status ledger.
 */
module Pipeline {
  import opened Wrappers
  import opened PySort
  import opened Artifacts
  import opened FrameExtractor
  import opened LabelAligner

  /**
   * The raw dataset: the names in ActionUnitsLabels in os.listdir order,
   * the label directory of each name, and the decoded frames of each file
   * in Right_Video.
   */
  datatype Dataset = Dataset(auListing: seq<string>, auDirs: map<string, AuSource>, videos: map<string, seq<Pixels>>)

  /** f"RightVideo{id}_comp.avi" */
  function VideoName(id: string): string {
    "RightVideo" + id + "_comp.avi"
  }

  /** The frames cv2 reads from a subject's video; a file that is missing or will not open yields none. */
  function VideoFrames(data: Dataset, id: string): seq<Pixels> {
    if VideoName(id) in data.videos then data.videos[VideoName(id)] else []
  }

  /** The persons property: sorted(os.listdir(ActionUnitsLabels)). */
  function Persons(data: Dataset): (ids: seq<string>)
    ensures |ids| == |data.auListing|
  {
    SortNames(data.auListing)
  }

  /** The records of a subject, or the exception os.listdir or the label files raise. */
  function SubjectLabels(data: Dataset, id: string): Result<seq<map<string, int>>> {
    if id in data.auDirs then AlignLabels(data.auDirs[id], id) else Err(FileNotFound(id))
  }

  /** The cache after some subjects, and the exception that stopped the run, if any. */
  datatype RunState = RunState(files: map<Path, Blob>, status: Option<seq<string>>, failure: Option<Error>)

  /** One subject: its frames, then its labels, then its ledger line; an exception in the labels comes after the frames are saved. */
  function ProcessPerson(st: RunState, data: Dataset, id: string, detect: Detector, crop: Cropper): RunState {
    var files := Run(st.files, id, VideoFrames(data, id), detect, crop).files;
    match SubjectLabels(data, id)
    case Err(e) => RunState(files, st.status, Some(e))
    case Ok(recs) => RunState(SaveLabels(files, id, recs), Some(LedgerLines(st.status) + [id]), None)
  }

  /** A subject adds its line to the ledger exactly when it finishes; the ledger is not touched otherwise. */
  lemma ProcessPersonLedger(st: RunState, data: Dataset, id: string, detect: Detector, crop: Cropper)
    ensures var st' := ProcessPerson(st, data, id, detect, crop);
            (st'.failure.None? <==> SubjectLabels(data, id).Ok?) &&
            st'.status == (if st'.failure.None? then Some(LedgerLines(st.status) + [id]) else st.status)
  {
  }

  /** A subject whose labels are read has its frames extracted and then its records saved. */
  lemma ProcessPersonFiles(st: RunState, data: Dataset, id: string, detect: Detector, crop: Cropper)
    requires SubjectLabels(data, id).Ok?
    ensures ProcessPerson(st, data, id, detect, crop).files
            == SaveLabels(Run(st.files, id, VideoFrames(data, id), detect, crop).files, id, SubjectLabels(data, id).value)
  {
  }

  /** The loop of prepare_data over ids: the first exception ends the run. */
  function Prepare(files0: map<Path, Blob>, status0: Option<seq<string>>, data: Dataset, ids: seq<string>,
                   detect: Detector, crop: Cropper): RunState
    decreases |ids|
  {
    if |ids| == 0 then RunState(files0, status0, None)
    else
      var n := |ids| - 1;
      var st := Prepare(files0, status0, data, ids[..n], detect, crop);
      if st.failure.Some? then st else ProcessPerson(st, data, ids[n], detect, crop)
  }

  /** An exception after the first k subjects is the outcome of the whole run. */
  lemma {:induction false} PrepareStops(files0: map<Path, Blob>, status0: Option<seq<string>>, data: Dataset,
                                        ids: seq<string>, detect: Detector, crop: Cropper, k: nat)
    requires k <= |ids|
    requires Prepare(files0, status0, data, ids[..k], detect, crop).failure.Some?
    ensures Prepare(files0, status0, data, ids, detect, crop) == Prepare(files0, status0, data, ids[..k], detect, crop)
    decreases |ids|
  {
    if k < |ids| {
      var n := |ids| - 1;
      assert ids[..n][..k] == ids[..k];
      PrepareStops(files0, status0, data, ids[..n], detect, crop, k);
    } else {
      assert ids[..k] == ids;
    }
  }

  /** The run over one more subject, when the run so far has not stopped: its frames, then its labels or its exception. */
  lemma PrepareStep(files0: map<Path, Blob>, status0: Option<seq<string>>, data: Dataset,
                    ids: seq<string>, detect: Detector, crop: Cropper, k: nat)
    requires k < |ids|
    requires Prepare(files0, status0, data, ids[..k], detect, crop).failure.None?
    ensures var st := Prepare(files0, status0, data, ids[..k], detect, crop);
            var mid := Run(st.files, ids[k], VideoFrames(data, ids[k]), detect, crop).files;
            var next := Prepare(files0, status0, data, ids[..k + 1], detect, crop);
            var labels := SubjectLabels(data, ids[k]);
            next == if labels.Ok? then RunState(SaveLabels(mid, ids[k], labels.value), Some(LedgerLines(st.status) + [ids[k]]), None)
                    else RunState(mid, st.status, Some(labels.error))
  {
    assert ids[..k + 1][..k] == ids[..k];
  }

  /** prepare_data: processes the subjects in sorted order; an exception propagates and ends the run. */
  method PrepareData(disk: Disk, data: Dataset, detect: Detector, crop: Cropper) returns (r: Result<()>)
    modifies disk
    ensures var st := Prepare(old(disk.files), old(disk.status), data, Persons(data), detect, crop);
            disk.files == st.files && disk.status == st.status &&
            r == (if st.failure.Some? then Err(st.failure.value) else Ok(()))
  {
    ghost var files0, status0 := disk.files, disk.status;
    var ids := SortNames(data.auListing);
    var k := 0;
    while k < |ids|
      invariant 0 <= k <= |ids|
      invariant Prepare(files0, status0, data, ids[..k], detect, crop) == RunState(disk.files, disk.status, None)
    {
      PrepareStep(files0, status0, data, ids, detect, crop, k);
      var id := ids[k];
      var _ := ReadSaveFrame(disk, id, VideoFrames(data, id), detect, crop);
      if id !in data.auDirs {
        PrepareStops(files0, status0, data, ids, detect, crop, k + 1);
        return Err(FileNotFound(id));
      }
      var labels := ReadSaveActionUnits(disk, data.auDirs[id], id);
      if labels.Err? {
        PrepareStops(files0, status0, data, ids, detect, crop, k + 1);
        return Err(labels.error);
      }
      disk.AppendStatus(id);
      k := k + 1;
    }
    assert ids[..k] == ids;
    return Ok(());
  }

  /**
   * The start-up check of the dataset object: prepare_data runs unless the
   * ledger already has one line per subject. A complete cache is left
   * exactly as it is.
   */
  method EnsurePreprocessed(disk: Disk, data: Dataset, detect: Detector, crop: Cropper) returns (r: Result<()>)
    modifies disk
    ensures AllFilesPreprocessed(old(disk.status), Persons(data)) ==>
              r == Ok(()) && disk.files == old(disk.files) && disk.status == old(disk.status)
    ensures !AllFilesPreprocessed(old(disk.status), Persons(data)) ==>
              var st := Prepare(old(disk.files), old(disk.status), data, Persons(data), detect, crop);
              disk.files == st.files && disk.status == st.status &&
              r == (if st.failure.Some? then Err(st.failure.value) else Ok(()))
  {
    if AllFilesPreprocessed(disk.status, Persons(data)) {
      return Ok(());
    }
    r := PrepareData(disk, data, detect, crop);
  }

  // ------------------------------------------------------------ the ledger

  /** The ledger after appending ids; appending nothing leaves an absent ledger absent. */
  function Appended(status: Option<seq<string>>, ids: seq<string>): (r: Option<seq<string>>)
    ensures LedgerLines(r) == LedgerLines(status) + ids
    ensures r.Some? <==> status.Some? || |ids| > 0
  {
    if |ids| == 0 then status else Some(LedgerLines(status) + ids)
  }

  /** The length of the longest prefix of xs whose elements all satisfy p. */
  function CountWhile<T>(p: T -> bool, xs: seq<T>): (k: nat)
    ensures k <= |xs|
    ensures forall j :: 0 <= j < k ==> p(xs[j])
    ensures k < |xs| ==> !p(xs[k])
    decreases |xs|
  {
    if |xs| == 0 then 0
    else
      var n := |xs| - 1;
      var k := CountWhile(p, xs[..n]);
      assert forall j :: 0 <= j < n ==> xs[..n][j] == xs[j];
      if k < n || !p(xs[n]) then k else n + 1
  }

  /** How many subjects, in order, come before the first one whose labels cannot be read. */
  function Finished(data: Dataset, ids: seq<string>): (k: nat)
    ensures k <= |ids|
    ensures forall j :: 0 <= j < k ==> SubjectLabels(data, ids[j]).Ok?
    ensures k < |ids| ==> SubjectLabels(data, ids[k]).Err?
  {
    CountWhile(id => SubjectLabels(data, id).Ok?, ids)
  }

  /**
   * The ledger grows by one line per finished subject, in processing order:
   * it gains exactly the subjects before the first whose labels cannot be
   * read, and the run completes iff there is no such subject.
   */
  lemma {:induction false} PrepareLedger(files0: map<Path, Blob>, status0: Option<seq<string>>, data: Dataset,
                                         ids: seq<string>, detect: Detector, crop: Cropper)
    ensures var st := Prepare(files0, status0, data, ids, detect, crop);
            st.status == Appended(status0, ids[..Finished(data, ids)]) &&
            (st.failure.None? <==> Finished(data, ids) == |ids|)
    decreases |ids|
  {
    if |ids| == 0 {
      assert ids[..0] == [];
    } else {
      var n := |ids| - 1;
      PrepareLedger(files0, status0, data, ids[..n], detect, crop);
      var k := Finished(data, ids[..n]);
      assert ids[..n][..k] == ids[..k];
      PrepareLedgerStep(files0, status0, data, ids, detect, crop);
      if k == n && SubjectLabels(data, ids[n]).Ok? {
        AppendLast(LedgerLines(status0), ids);
        assert ids[..n + 1] == ids;
      }
    }
  }

  /** One more subject: the ledger gains its line exactly when the run had not stopped and its labels are read. */
  lemma PrepareLedgerStep(files0: map<Path, Blob>, status0: Option<seq<string>>, data: Dataset,
                          ids: seq<string>, detect: Detector, crop: Cropper)
    requires |ids| > 0
    ensures var n := |ids| - 1;
            var st := Prepare(files0, status0, data, ids[..n], detect, crop);
            var st' := Prepare(files0, status0, data, ids, detect, crop);
            var finished := st.failure.None? && SubjectLabels(data, ids[n]).Ok?;
            (st'.failure.None? <==> finished) &&
            st'.status == (if finished then Some(LedgerLines(st.status) + [ids[n]]) else st.status)
  {
    var n := |ids| - 1;
    var st := Prepare(files0, status0, data, ids[..n], detect, crop);
    if st.failure.None? {
      ProcessPersonLedger(st, data, ids[n], detect, crop);
    }
  }

  /** Extending a prefix by the next element, behind a fixed head. */
  lemma AppendLast(head: seq<string>, ids: seq<string>)
    requires |ids| > 0
    ensures head + ids[..|ids| - 1] + [ids[|ids| - 1]] == head + ids[..|ids|]
  {
    assert ids[..|ids| - 1] + [ids[|ids| - 1]] == ids[..|ids|];
  }

  /** A run that completes from an empty ledger leaves it complete: the next start does nothing. */
  lemma FreshRunCompletes(files0: map<Path, Blob>, status0: Option<seq<string>>, data: Dataset,
                          detect: Detector, crop: Cropper)
    requires LedgerLines(status0) == []
    requires status0.Some? || |data.auListing| > 0
    requires Prepare(files0, status0, data, Persons(data), detect, crop).failure.None?
    ensures AllFilesPreprocessed(Prepare(files0, status0, data, Persons(data), detect, crop).status, Persons(data))
  {
    var ids := Persons(data);
    PrepareLedger(files0, status0, data, ids, detect, crop);
    assert ids[..|ids|] == ids;
  }

  /**
   * After an interrupted run left k > 0 lines, a complete run leaves k + N
   * lines for N subjects: the ledger never again has one line per subject,
   * so every later start runs prepare_data once more.
   */
  lemma PartialLedgerStaysIncomplete(files0: map<Path, Blob>, status0: Option<seq<string>>, data: Dataset,
                                     detect: Detector, crop: Cropper)
    requires |LedgerLines(status0)| > 0
    requires Prepare(files0, status0, data, Persons(data), detect, crop).failure.None?
    ensures var st := Prepare(files0, status0, data, Persons(data), detect, crop);
            |LedgerLines(st.status)| == |LedgerLines(status0)| + |Persons(data)| &&
            !AllFilesPreprocessed(st.status, Persons(data))
  {
    var ids := Persons(data);
    PrepareLedger(files0, status0, data, ids, detect, crop);
    assert ids[..|ids|] == ids;
  }

  /**
   * The ledger test counts lines, not subjects. A run that finished only the
   * first subject, then a run that stops at the last one, leave one line per
   * subject although the last subject has no line: the next start skips it.
   */
  lemma LedgerTestPassesWithUnprocessedSubject(files0: map<Path, Blob>, status0: Option<seq<string>>, data: Dataset,
                                               ids: seq<string>, detect: Detector, crop: Cropper)
    requires ids == Persons(data) && |ids| >= 2
    requires status0 == Some([ids[0]])
    requires Finished(data, ids) == |ids| - 1
    ensures var st := Prepare(files0, status0, data, ids, detect, crop);
            st.failure.Some? && AllFilesPreprocessed(st.status, ids) && ids[|ids| - 1] !in LedgerLines(st.status)
  {
    var n := |ids| - 1;
    PrepareLedger(files0, status0, data, ids, detect, crop);
    var lines := LedgerLines(Prepare(files0, status0, data, ids, detect, crop).status);
    assert lines == [ids[0]] + ids[..n];
    UnfinishedHasNoLine(data, ids, [ids[0]]);
  }

  /** The first subject whose labels fail is not among the subjects before it, nor in a ledger of finished subjects. */
  lemma UnfinishedHasNoLine(data: Dataset, ids: seq<string>, before: seq<string>)
    requires Finished(data, ids) < |ids|
    requires forall id :: id in before ==> SubjectLabels(data, id).Ok?
    ensures ids[Finished(data, ids)] !in before + ids[..Finished(data, ids)]
  {
    var k := Finished(data, ids);
    assert forall j :: 0 <= j < k ==> ids[..k][j] == ids[j];
  }

  /** if_all_files_preprocessed as evidently intended: every subject has a line in the ledger. */
  predicate LedgerCovers(status: Option<seq<string>>, persons: seq<string>) {
    status.Some? && forall id :: id in persons ==> id in status.value
  }

  /** After a run, the intended test passes iff every subject had a line before or finished in this run. */
  lemma CoveredAfterRun(files0: map<Path, Blob>, status0: Option<seq<string>>, data: Dataset,
                        ids: seq<string>, detect: Detector, crop: Cropper)
    ensures var st := Prepare(files0, status0, data, ids, detect, crop);
            var done := ids[..Finished(data, ids)];
            LedgerCovers(st.status, ids) <==>
              (status0.Some? || |done| > 0) && forall id :: id in ids ==> id in LedgerLines(status0) || id in done
  {
    PrepareLedger(files0, status0, data, ids, detect, crop);
  }

  /** From an empty ledger the intended test passes after a run iff the run completed, whatever the ids. */
  lemma FreshLedgerCovers(files0: map<Path, Blob>, status0: Option<seq<string>>, data: Dataset,
                          ids: seq<string>, detect: Detector, crop: Cropper)
    requires LedgerLines(status0) == []
    requires status0.Some? || |ids| > 0
    ensures var st := Prepare(files0, status0, data, ids, detect, crop);
            LedgerCovers(st.status, ids) <==> st.failure.None?
  {
    CoveredAfterRun(files0, status0, data, ids, detect, crop);
    PrepareLedger(files0, status0, data, ids, detect, crop);
    var k := Finished(data, ids);
    if k < |ids| {
      UnfinishedHasNoLine(data, ids, []);
      assert ids[k] in ids;
    } else {
      assert ids[..k] == ids;
    }
  }

  /** The intended test rejects the ledger of LedgerTestPassesWithUnprocessedSubject. */
  lemma CoveredLedgerRejectsUnprocessed(files0: map<Path, Blob>, status0: Option<seq<string>>, data: Dataset,
                                        ids: seq<string>, detect: Detector, crop: Cropper)
    requires ids == Persons(data) && |ids| >= 2
    requires status0 == Some([ids[0]])
    requires Finished(data, ids) == |ids| - 1
    ensures !LedgerCovers(Prepare(files0, status0, data, ids, detect, crop).status, ids)
  {
    LedgerTestPassesWithUnprocessedSubject(files0, status0, data, ids, detect, crop);
    assert ids[|ids| - 1] in ids;
  }

  // ------------------------------------------------------------ what a ledger line vouches for

  /** Extraction never removes a file. */
  lemma {:induction false} RunKeepsFiles(files0: map<Path, Blob>, person: string, frames: seq<Pixels>,
                                         detect: Detector, crop: Cropper, p: Path)
    requires p in files0
    ensures p in Run(files0, person, frames, detect, crop).files
    decreases |frames|
  {
    if |frames| > 0 {
      RunKeepsFiles(files0, person, frames[..|frames| - 1], detect, crop, p);
    }
  }

  /** After extraction every frame of the video has its frame file. */
  lemma RunWritesEveryFrame(files0: map<Path, Blob>, person: string, frames: seq<Pixels>,
                            detect: Detector, crop: Cropper, i: nat)
    requires i < |frames|
    ensures Path(Frame, person, i) in Run(files0, person, frames, detect, crop).files
  {
    ExtractionOutcome(files0, person, frames, detect, crop, i);
  }

  /** The artifacts a ledger line vouches for: a frame file per video frame and the subject's label records. */
  ghost predicate Processed(files: map<Path, Blob>, data: Dataset, id: string) {
    (forall i :: 0 <= i < |VideoFrames(data, id)| ==> Path(Frame, id, i) in files) &&
    SubjectLabels(data, id).Ok? &&
    (forall i :: 0 <= i < |SubjectLabels(data, id).value| ==>
       Path(Label, id, i) in files && files[Path(Label, id, i)] == Record(SubjectLabels(data, id).value[i]))
  }

  /** Processing another subject, or the same one again, keeps a processed subject processed. */
  lemma ProcessPersonKeeps(st: RunState, data: Dataset, id: string, other: string, detect: Detector, crop: Cropper)
    requires Processed(st.files, data, other)
    requires ProcessPerson(st, data, id, detect, crop).failure.None?
    ensures Processed(ProcessPerson(st, data, id, detect, crop).files, data, other)
  {
    var frames := VideoFrames(data, id);
    var mid := Run(st.files, id, frames, detect, crop).files;
    var recs := SubjectLabels(data, id).value;
    var post := ProcessPerson(st, data, id, detect, crop).files;
    assert post == SaveLabels(mid, id, recs);
    forall i | 0 <= i < |VideoFrames(data, other)| ensures Path(Frame, other, i) in post {
      RunKeepsFiles(st.files, id, frames, detect, crop, Path(Frame, other, i));
      SavedLabels(mid, id, recs, Path(Frame, other, i));
    }
    var own := SubjectLabels(data, other).value;
    forall i | 0 <= i < |own| ensures Path(Label, other, i) in post && post[Path(Label, other, i)] == Record(own[i]) {
      RunKeepsOtherPaths(st.files, id, frames, detect, crop, Path(Label, other, i));
      SavedLabels(mid, id, recs, Path(Label, other, i));
    }
  }

  /** A subject just processed is processed. */
  lemma ProcessPersonDone(st: RunState, data: Dataset, id: string, detect: Detector, crop: Cropper)
    requires ProcessPerson(st, data, id, detect, crop).failure.None?
    ensures Processed(ProcessPerson(st, data, id, detect, crop).files, data, id)
  {
    var frames := VideoFrames(data, id);
    var mid := Run(st.files, id, frames, detect, crop).files;
    var recs := SubjectLabels(data, id).value;
    var post := ProcessPerson(st, data, id, detect, crop).files;
    forall i | 0 <= i < |frames| ensures Path(Frame, id, i) in post {
      RunWritesEveryFrame(st.files, id, frames, detect, crop, i);
      SavedLabels(mid, id, recs, Path(Frame, id, i));
    }
    forall i | 0 <= i < |recs| ensures Path(Label, id, i) in post && post[Path(Label, id, i)] == Record(recs[i]) {
      SavedLabels(mid, id, recs, Path(Label, id, i));
    }
  }

  /**
   * After a run that finished, every subject it processed has a frame file
   * for each video frame and all its label records on disk; the ledger
   * line is written only after those artifacts.
   */
  lemma {:induction false} CompletedRunProcessedAll(files0: map<Path, Blob>, status0: Option<seq<string>>, data: Dataset,
                                                    ids: seq<string>, detect: Detector, crop: Cropper, k: nat)
    requires k < |ids|
    requires Prepare(files0, status0, data, ids, detect, crop).failure.None?
    ensures Processed(Prepare(files0, status0, data, ids, detect, crop).files, data, ids[k])
    decreases |ids|
  {
    var n := |ids| - 1;
    var st := Prepare(files0, status0, data, ids[..n], detect, crop);
    assert st.failure.None?;
    assert Prepare(files0, status0, data, ids, detect, crop) == ProcessPerson(st, data, ids[n], detect, crop);
    if k == n {
      ProcessPersonDone(st, data, ids[n], detect, crop);
    } else {
      CompletedRunProcessedAll(files0, status0, data, ids[..n], detect, crop, k);
      assert ids[..n][k] == ids[k];
      ProcessPersonKeeps(st, data, ids[n], ids[k], detect, crop);
    }
  }
}
