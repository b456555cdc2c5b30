/**
 * The frame extractor (read_save_frame with mesh3d and crop on): reads a
 * subject's video frame by frame, skips frames whose artifacts are all
 * cached, and otherwise writes the frame and, when the face-mesh detector
 * finds a face, the landmark mesh and the face crop.
 */
module FrameExtractor {
  import opened Wrappers
  import opened Artifacts

  /**
   * The face-mesh detector. It tracks the face across the frames it is fed,
   * so its answer for a frame is a function of every frame fed to it so far
   * in this video, the current one last.
   */
  type Detector = seq<Pixels> -> Option<seq<Point>>

  /** crop_image, the resize to 256 x 256 and the rescaling to 8 bits, as one foreign step. */
  type Cropper = (seq<Point>, Pixels) -> Pixels

  /** The resumption test: frame, crop and mesh of frame i are all on disk. */
  predicate AllTargetsExist(files: map<Path, Blob>, person: string, i: nat) {
    Path(Frame, person, i) in files && Path(Crop, person, i) in files && Path(Mesh, person, i) in files
  }

  /** What the loop carries from frame to frame: the files on disk and the frames fed to the detector. */
  datatype State = State(files: map<Path, Blob>, fed: seq<Pixels>)

  /** One pass of the loop body for frame number i holding image. */
  function Step(st: State, person: string, i: nat, image: Pixels, detect: Detector, crop: Cropper): State {
    if AllTargetsExist(st.files, person, i) then st
    else
      var fed := st.fed + [image];
      var files := st.files[Path(Frame, person, i) := Picture(image)];
      match detect(fed)
      case None => State(files, fed)
      case Some(pts) =>
        State(files[Path(Mesh, person, i) := Landmarks(pts)][Path(Crop, person, i) := Picture(crop(pts, image))], fed)
  }

  /** The loop run over the given frames, in order, starting from files0 and a fresh detector. */
  function Run(files0: map<Path, Blob>, person: string, frames: seq<Pixels>, detect: Detector, crop: Cropper): State
    decreases |frames|
  {
    if |frames| == 0 then State(files0, [])
    else
      var n := |frames| - 1;
      Step(Run(files0, person, frames[..n], detect, crop), person, n, frames[n], detect, crop)
  }

  /**
   * Extracts every frame of video into disk. The video's read fails after
   * its last frame, which ends the loop; count then is the number of frames
   * read, skipped or not.
   */
  method ReadSaveFrame(disk: Disk, person: string, video: seq<Pixels>, detect: Detector, crop: Cropper)
    returns (count: nat)
    modifies disk
    ensures count == |video|
    ensures disk.files == Run(old(disk.files), person, video, detect, crop).files
    ensures disk.status == old(disk.status)
  {
    var tracked: seq<Pixels> := [];  // the frames the face-mesh object has processed
    var position := 0;               // the video's read position
    count := 0;
    while true
      invariant count == position <= |video|
      invariant State(disk.files, tracked) == Run(old(disk.files), person, video[..count], detect, crop)
      invariant disk.status == old(disk.status)
      decreases |video| - position
    {
      if position == |video| {
        break;  // vidcap.read() reports failure
      }
      var image := video[position];
      position := position + 1;
      assert video[..count + 1][..count] == video[..count];
      var targetFrame := Path(Frame, person, count);
      var targetMesh := Path(Mesh, person, count);
      var targetCrop := Path(Crop, person, count);
      if disk.Exists(targetFrame) && disk.Exists(targetCrop) && disk.Exists(targetMesh) {
        count := count + 1;
        continue;
      }
      disk.Save(targetFrame, Picture(image));
      tracked := tracked + [image];
      var face := detect(tracked);
      if face.Some? {
        disk.Save(targetMesh, Landmarks(face.value));
        disk.Save(targetCrop, Picture(crop(face.value, image)));
      }
      count := count + 1;
    }
    assert video[..count] == video;
  }

  // ------------------------------------------------------------ properties of Run

  /** The maps agree on the frame, mesh and crop files of frame i. */
  predicate AgreeAt(m1: map<Path, Blob>, m2: map<Path, Blob>, person: string, i: nat) {
    Agree(m1, m2, Path(Frame, person, i)) && Agree(m1, m2, Path(Mesh, person, i)) && Agree(m1, m2, Path(Crop, person, i))
  }

  /** No file of another subject, no label file and no file of a later index is touched. */
  lemma {:induction false} RunKeepsOtherPaths(files0: map<Path, Blob>, person: string, frames: seq<Pixels>,
                                              detect: Detector, crop: Cropper, p: Path)
    requires p.person != person || p.kind == Label || p.index >= |frames|
    ensures Agree(Run(files0, person, frames, detect, crop).files, files0, p)
    decreases |frames|
  {
    if |frames| > 0 {
      RunKeepsOtherPaths(files0, person, frames[..|frames| - 1], detect, crop, p);
    }
  }

  /** Frames after frame i do not touch the files of frame i. */
  lemma {:induction false} LaterFramesKeep(files0: map<Path, Blob>, person: string, frames: seq<Pixels>,
                                           detect: Detector, crop: Cropper, i: nat)
    requires i < |frames|
    ensures AgreeAt(Run(files0, person, frames, detect, crop).files,
                    Run(files0, person, frames[..i + 1], detect, crop).files, person, i)
    decreases |frames|
  {
    if |frames| > i + 1 {
      var pre := frames[..|frames| - 1];
      assert pre[..i + 1] == frames[..i + 1];
      LaterFramesKeep(files0, person, pre, detect, crop, i);
    } else {
      assert frames[..i + 1] == frames;
    }
  }

  /** The frames that reach the detector: in order, those whose targets were not all cached beforehand. */
  function Fed(files0: map<Path, Blob>, person: string, frames: seq<Pixels>): seq<Pixels>
    decreases |frames|
  {
    if |frames| == 0 then []
    else
      var n := |frames| - 1;
      if AllTargetsExist(files0, person, n) then Fed(files0, person, frames[..n])
      else Fed(files0, person, frames[..n]) + [frames[n]]
  }

  /** The skip test of frame n sees the targets of frame n as they were before the run. */
  lemma SkipDecidedUpFront(files0: map<Path, Blob>, person: string, frames: seq<Pixels>,
                           detect: Detector, crop: Cropper)
    ensures AllTargetsExist(Run(files0, person, frames, detect, crop).files, person, |frames|)
        <==> AllTargetsExist(files0, person, |frames|)
  {
    RunKeepsOtherPaths(files0, person, frames, detect, crop, Path(Frame, person, |frames|));
    RunKeepsOtherPaths(files0, person, frames, detect, crop, Path(Mesh, person, |frames|));
    RunKeepsOtherPaths(files0, person, frames, detect, crop, Path(Crop, person, |frames|));
  }

  /** The detector is fed exactly the frames that were not skipped, in video order. */
  lemma {:induction false} RunFeeds(files0: map<Path, Blob>, person: string, frames: seq<Pixels>,
                                    detect: Detector, crop: Cropper)
    ensures Run(files0, person, frames, detect, crop).fed == Fed(files0, person, frames)
    decreases |frames|
  {
    if |frames| > 0 {
      var n := |frames| - 1;
      RunFeeds(files0, person, frames[..n], detect, crop);
      SkipDecidedUpFront(files0, person, frames[..n], detect, crop);
    }
  }

  /**
   * What the run leaves for frame i. If frame, crop and mesh of i were all
   * cached, nothing of frame i changes and the detector does not see it.
   * Otherwise the frame file holds frame i; mesh and crop are written with
   * the detector's landmarks when it finds a face and are left as they were
   * when it does not.
   */
  lemma ExtractionOutcome(files0: map<Path, Blob>, person: string, frames: seq<Pixels>,
                          detect: Detector, crop: Cropper, i: nat)
    requires i < |frames|
    ensures var r := Run(files0, person, frames, detect, crop).files;
            var fed := Fed(files0, person, frames[..i + 1]);
            var face := detect(fed);
            (AllTargetsExist(files0, person, i) ==>
               AgreeAt(r, files0, person, i) && fed == Fed(files0, person, frames[..i])) &&
            (!AllTargetsExist(files0, person, i) ==>
               fed == Fed(files0, person, frames[..i]) + [frames[i]] &&
               Path(Frame, person, i) in r && r[Path(Frame, person, i)] == Picture(frames[i]) &&
               (face.Some? ==>
                  Path(Mesh, person, i) in r && r[Path(Mesh, person, i)] == Landmarks(face.value) &&
                  Path(Crop, person, i) in r && r[Path(Crop, person, i)] == Picture(crop(face.value, frames[i]))) &&
               (face.None? ==>
                  Agree(r, files0, Path(Mesh, person, i)) && Agree(r, files0, Path(Crop, person, i))))
  {
    var upto := frames[..i + 1];
    assert upto[..i] == frames[..i];
    LaterFramesKeep(files0, person, frames, detect, crop, i);
    RunFeeds(files0, person, frames[..i], detect, crop);
    SkipDecidedUpFront(files0, person, frames[..i], detect, crop);
    RunKeepsOtherPaths(files0, person, frames[..i], detect, crop, Path(Frame, person, i));
    RunKeepsOtherPaths(files0, person, frames[..i], detect, crop, Path(Mesh, person, i));
    RunKeepsOtherPaths(files0, person, frames[..i], detect, crop, Path(Crop, person, i));
  }

  /** With nothing cached for the first frames, the detector sees every one of them. */
  lemma {:induction false} FedAll(files0: map<Path, Blob>, person: string, frames: seq<Pixels>)
    requires forall j :: 0 <= j < |frames| ==> Path(Frame, person, j) !in files0
    ensures Fed(files0, person, frames) == frames
    decreases |frames|
  {
    if |frames| > 0 {
      var n := |frames| - 1;
      FedAll(files0, person, frames[..n]);
      assert frames == frames[..n] + [frames[n]];
    }
  }

  /**
   * A first extraction of a subject writes every frame, and mesh and crop
   * files exist for exactly the frames where the detector found a face:
   * the three directories list different numbers of files as soon as one
   * detection fails.
   */
  lemma FreshExtraction(files0: map<Path, Blob>, person: string, frames: seq<Pixels>,
                        detect: Detector, crop: Cropper, i: nat)
    requires forall k: Kind, j: nat :: Path(k, person, j) !in files0
    requires i < |frames|
    ensures var r := Run(files0, person, frames, detect, crop).files;
            Path(Frame, person, i) in r && r[Path(Frame, person, i)] == Picture(frames[i]) &&
            (Path(Mesh, person, i) in r <==> detect(frames[..i + 1]).Some?) &&
            (Path(Crop, person, i) in r <==> detect(frames[..i + 1]).Some?)
  {
    ExtractionOutcome(files0, person, frames, detect, crop, i);
    FedAll(files0, person, frames[..i + 1]);
  }

  /**
   * Resumption: when frame, crop and mesh already exist for every frame,
   * a run writes nothing and never calls the detector.
   */
  lemma {:induction false} RerunIsNoOp(files0: map<Path, Blob>, person: string, frames: seq<Pixels>,
                                       detect: Detector, crop: Cropper)
    requires forall i :: 0 <= i < |frames| ==> AllTargetsExist(files0, person, i)
    ensures Run(files0, person, frames, detect, crop) == State(files0, [])
    decreases |frames|
  {
    if |frames| > 0 {
      RerunIsNoOp(files0, person, frames[..|frames| - 1], detect, crop);
    }
  }
}
