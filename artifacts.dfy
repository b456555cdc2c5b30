/**
 * The artifact store: the cache directory of extracted frames, landmark
 * meshes, face crops and per-frame action-unit records, plus the status
 * ledger (status.txt) of subjects whose preprocessing finished.
 */
module Artifacts {
  import opened Wrappers
  import PyStr

  /** The four kinds of per-frame artifact. */
  datatype Kind = Frame | Mesh | Crop | Label

  /** The artifact of one kind for one subject and frame index. */
  datatype Path = Path(kind: Kind, person: string, index: nat)

  /** A decoded image. */
  type Pixels = seq<int>

  /** A landmark (x, y, z) in the detector's normalised coordinates. */
  type Point = (real, real, real)

  /** What an artifact file holds: an image, a landmark array, or one frame's action-unit intensities. */
  datatype Blob = Picture(pixels: Pixels) | Landmarks(points: seq<Point>) | Record(intensities: map<string, int>)

  /** The directory of one kind of artifact of one subject, below the cache root. */
  function Directory(kind: Kind, person: string): (d: seq<string>)
    ensures 2 <= |d| <= 3 && d[|d| - 1] == person
  {
    match kind
    case Frame => ["images", "frame", person]
    case Crop => ["images", "crop", person]
    case Mesh => ["facemesh", person]
    case Label => ["action_units", person]
  }

  function Infix(kind: Kind): string {
    match kind
    case Frame => "_frame_"
    case Crop => "_crop_"
    case Mesh => "_mesh_"
    case Label => "_au_"
  }

  function Extension(kind: Kind): string {
    match kind
    case Frame => ".jpg"
    case Crop => ".jpg"
    case Mesh => ".npy"
    case Label => ".npy"
  }

  /** The file name, e.g. SN001_frame_0042.jpg: subject, kind, four-digit zero-padded index, extension. */
  function FileName(p: Path): string {
    p.person + Infix(p.kind) + PyStr.ZeroPad4(p.index) + Extension(p.kind)
  }

  /** The path segments of the artifact below the cache root. */
  function FullPath(p: Path): seq<string> {
    Directory(p.kind, p.person) + [FileName(p)]
  }

  /**
   * Within one subject's directory of one kind, distinct indices give
   * distinct file names.
   */
  lemma FileNameInjective(p: Path, q: Path)
    requires p.kind == q.kind && p.person == q.person
    requires FileName(p) == FileName(q)
    ensures p == q
  {
    var a := p.person + Infix(p.kind);
    var e := Extension(p.kind);
    var x, y := PyStr.ZeroPad4(p.index), PyStr.ZeroPad4(q.index);
    assert FileName(p) == a + x + e && FileName(q) == a + y + e;
    assert |x| == |y|;
    assert x == FileName(p)[|a|..|a| + |x|];
    assert y == FileName(q)[|a|..|a| + |y|];
    PyStr.ZeroPad4Injective(p.index, q.index);
  }

  /**
   * Every artifact has its own path, so a file system restricted to the
   * cache is faithfully modelled as a map from Path.
   */
  lemma FullPathInjective(p: Path, q: Path)
    requires FullPath(p) == FullPath(q)
    ensures p == q
  {
    var fp, fq := FullPath(p), FullPath(q);
    assert |fp| == |Directory(p.kind, p.person)| + 1;
    assert |fq| == |Directory(q.kind, q.person)| + 1;
    assert fp[0] == Directory(p.kind, p.person)[0];
    assert fq[0] == Directory(q.kind, q.person)[0];
    assert fp[1] == Directory(p.kind, p.person)[1];
    assert fq[1] == Directory(q.kind, q.person)[1];
    assert p.kind == q.kind;
    assert p.person == fp[|fp| - 2] == fq[|fq| - 2] == q.person;
    assert FileName(p) == fp[|fp| - 1] == fq[|fq| - 1] == FileName(q);
    FileNameInjective(p, q);
  }

  /** p is present in both maps or in neither, with the same content. */
  predicate Agree(m1: map<Path, Blob>, m2: map<Path, Blob>, p: Path) {
    (p in m1 <==> p in m2) && (p in m1 ==> m1[p] == m2[p])
  }

  /** The lines of the status ledger; an absent ledger reads as no lines. */
  function LedgerLines(status: Option<seq<string>>): seq<string> {
    if status.Some? then status.value else []
  }

  /**
   * if_all_files_preprocessed: true iff the ledger exists and has as many
   * lines as there are subjects. The ledger lives in the cache directory,
   * so a missing cache directory means a missing ledger.
   */
  function AllFilesPreprocessed(status: Option<seq<string>>, persons: seq<string>): bool {
    status.Some? && |status.value| == |persons|
  }

  /** The cache directory on disk: its artifact files and its status ledger. */
  class Disk {
    var files: map<Path, Blob>
    /** The lines of status.txt, or None while the file does not exist. */
    var status: Option<seq<string>>

    constructor (files: map<Path, Blob>, status: Option<seq<string>>)
      ensures this.files == files && this.status == status
    {
      this.files := files;
      this.status := status;
    }

    /** os.path.exists */
    function Exists(p: Path): bool
      reads this
    {
      p in files
    }

    /** cv2.imwrite, np.save or skimage.io.imsave: creates or overwrites one file. */
    method Save(p: Path, b: Blob)
      modifies this
      ensures files == old(files)[p := b]
      ensures status == old(status)
    {
      files := files[p := b];
    }

    /** open(status_file, 'a').write(f"{id}\n"): creates the ledger if needed and appends one line. */
    method AppendStatus(id: string)
      modifies this
      ensures status == Some(LedgerLines(old(status)) + [id])
      ensures files == old(files)
    {
      status := Some(LedgerLines(status) + [id]);
    }
  }
}
