/**
 * Loading the preprocessed corpus (load_data) and the index mapping of the
 * dataset object handed to the training code (AuDataset).
 */
module CorpusLoader {
  import opened Wrappers
  import opened PyStr
  import opened PySort
  import opened Artifacts

  /** A file below the cache root, as the path segments os.path.join puts together. */
  type Entry = seq<string>

  /** The os.listdir result of every cache directory that exists, keyed by artifact kind and subject. */
  type Listings = map<(Kind, string), seq<string>>

  /** The three parallel file lists load_data returns. */
  datatype Corpus = Corpus(images: seq<Entry>, meshes: seq<Entry>, labels: seq<Entry>)

  /** [os.path.join(dir, x) for x in names], for the directory of one kind of artifact of one subject. */
  function InDirectory(kind: Kind, person: string, names: seq<string>): seq<Entry> {
    seq(|names|, k requires 0 <= k < |names| => Directory(kind, person) + [names[k]])
  }

  /** One directory, listed and sorted; a directory that does not exist raises FileNotFoundError. */
  function Listed(listings: Listings, kind: Kind, person: string): Result<seq<Entry>> {
    if (kind, person) in listings then Ok(InDirectory(kind, person, SortNames(listings[(kind, person)])))
    else Err(FileNotFound(person))
  }

  /** One subject's share: its crops, then its meshes, then its labels, each directory in sorted order. */
  function LoadPerson(listings: Listings, person: string): Result<Corpus> {
    var images, meshes, labels := Listed(listings, Crop, person), Listed(listings, Mesh, person), Listed(listings, Label, person);
    if images.Err? then Err(images.error)
    else if meshes.Err? then Err(meshes.error)
    else if labels.Err? then Err(labels.error)
    else Ok(Corpus(images.value, meshes.value, labels.value))
  }

  function Concat(a: Corpus, b: Corpus): Corpus {
    Corpus(a.images + b.images, a.meshes + b.meshes, a.labels + b.labels)
  }

  /** load_data: the subjects' shares concatenated in the order of persons; the first missing directory ends it. */
  function Load(listings: Listings, persons: seq<string>): Result<Corpus>
    decreases |persons|
  {
    if |persons| == 0 then Ok(Corpus([], [], []))
    else
      var before := Load(listings, persons[..|persons| - 1]);
      var last := LoadPerson(listings, persons[|persons| - 1]);
      if before.Err? then before
      else if last.Err? then last
      else Ok(Concat(before.value, last.value))
  }

  /** A missing directory among the first k subjects is the outcome for all of them. */
  lemma {:induction false} LoadStops(listings: Listings, persons: seq<string>, k: nat)
    requires k <= |persons|
    requires Load(listings, persons[..k]).Err?
    ensures Load(listings, persons) == Load(listings, persons[..k])
    decreases |persons|
  {
    if k < |persons| {
      var n := |persons| - 1;
      assert persons[..n][..k] == persons[..k];
      LoadStops(listings, persons[..n], k);
    } else {
      assert persons[..k] == persons;
    }
  }

  /** load_data: grows the three lists subject by subject with +=. */
  method LoadData(listings: Listings, persons: seq<string>) returns (r: Result<Corpus>)
    ensures r == Load(listings, persons)
  {
    var images, meshes, labels := [], [], [];
    for i := 0 to |persons|
      invariant Load(listings, persons[..i]) == Ok(Corpus(images, meshes, labels))
    {
      assert persons[..i + 1][..i] == persons[..i];
      var person := persons[i];
      var personImages := Listed(listings, Crop, person);
      if personImages.Err? {
        LoadStops(listings, persons, i + 1);
        return Err(personImages.error);
      }
      images := images + personImages.value;
      var personMeshes := Listed(listings, Mesh, person);
      if personMeshes.Err? {
        LoadStops(listings, persons, i + 1);
        return Err(personMeshes.error);
      }
      meshes := meshes + personMeshes.value;
      var personLabels := Listed(listings, Label, person);
      if personLabels.Err? {
        LoadStops(listings, persons, i + 1);
        return Err(personLabels.error);
      }
      labels := labels + personLabels.value;
    }
    assert persons[..|persons|] == persons;
    return Ok(Corpus(images, meshes, labels));
  }

  /** All three directories of every subject exist. */
  predicate AllListed(listings: Listings, persons: seq<string>) {
    forall p :: p in persons ==> (Crop, p) in listings && (Mesh, p) in listings && (Label, p) in listings
  }

  /** The number of names in one kind of directory, summed over the subjects. */
  function Total(listings: Listings, kind: Kind, persons: seq<string>): nat
    decreases |persons|
  {
    if |persons| == 0 then 0
    else
      var p := persons[|persons| - 1];
      Total(listings, kind, persons[..|persons| - 1]) + (if (kind, p) in listings then |listings[(kind, p)]| else 0)
  }

  /**
   * load_data succeeds exactly when every subject has all three
   * directories, and then each list is as long as the sum of the subjects'
   * listings of that kind.
   */
  lemma {:induction false} LoadLengths(listings: Listings, persons: seq<string>)
    ensures Load(listings, persons).Ok? <==> AllListed(listings, persons)
    ensures Load(listings, persons).Ok? ==>
              var c := Load(listings, persons).value;
              |c.images| == Total(listings, Crop, persons) &&
              |c.meshes| == Total(listings, Mesh, persons) &&
              |c.labels| == Total(listings, Label, persons)
    decreases |persons|
  {
    if |persons| > 0 {
      var n := |persons| - 1;
      LoadLengths(listings, persons[..n]);
      assert forall p :: p in persons <==> p in persons[..n] || p == persons[n] by {
        assert persons == persons[..n] + [persons[n]];
      }
    }
  }

  /** Loading a longer subject list appends the shares of the extra subjects. */
  lemma {:induction false} LoadConcat(listings: Listings, a: seq<string>, b: seq<string>)
    requires Load(listings, a + b).Ok?
    ensures Load(listings, a).Ok? && Load(listings, b).Ok?
    ensures Load(listings, a + b).value == Concat(Load(listings, a).value, Load(listings, b).value)
    decreases |b|
  {
    if |b| == 0 {
      assert a + b == a;
    } else {
      var n := |b| - 1;
      assert (a + b)[..|a + b| - 1] == a + b[..n];
      assert (a + b)[|a + b| - 1] == b[n];
      LoadConcat(listings, a, b[..n]);
      ConcatAssociative(Load(listings, a).value, Load(listings, b[..n]).value, LoadPerson(listings, b[n]).value);
    }
  }

  lemma ConcatAssociative(x: Corpus, y: Corpus, z: Corpus)
    ensures Concat(Concat(x, y), z) == Concat(x, Concat(y, z))
  {
    assert (x.images + y.images) + z.images == x.images + (y.images + z.images);
    assert (x.meshes + y.meshes) + z.meshes == x.meshes + (y.meshes + z.meshes);
    assert (x.labels + y.labels) + z.labels == x.labels + (y.labels + z.labels);
  }

  /** Every entry load_data returns lies in the right directory of one of the subjects asked for. */
  lemma {:induction false} LoadEntriesBelong(listings: Listings, persons: seq<string>)
    requires Load(listings, persons).Ok?
    ensures var c := Load(listings, persons).value;
            (forall e :: e in c.images ==> exists p :: p in persons && |e| > 0 && e[..|e| - 1] == Directory(Crop, p)) &&
            (forall e :: e in c.meshes ==> exists p :: p in persons && |e| > 0 && e[..|e| - 1] == Directory(Mesh, p)) &&
            (forall e :: e in c.labels ==> exists p :: p in persons && |e| > 0 && e[..|e| - 1] == Directory(Label, p))
    decreases |persons|
  {
    if |persons| > 0 {
      var n := |persons| - 1;
      var p := persons[n];
      LoadEntriesBelong(listings, persons[..n]);
      assert forall q :: q in persons[..n] ==> q in persons;
      PersonEntriesBelong(listings, p);
    }
  }

  /** A subject's share lies in that subject's directories. */
  lemma PersonEntriesBelong(listings: Listings, p: string)
    requires LoadPerson(listings, p).Ok?
    ensures var d := LoadPerson(listings, p).value;
            (forall e :: e in d.images ==> |e| > 0 && e[..|e| - 1] == Directory(Crop, p)) &&
            (forall e :: e in d.meshes ==> |e| > 0 && e[..|e| - 1] == Directory(Mesh, p)) &&
            (forall e :: e in d.labels ==> |e| > 0 && e[..|e| - 1] == Directory(Label, p))
  {
    InDirectoryBelong(Crop, p, SortNames(listings[(Crop, p)]));
    InDirectoryBelong(Mesh, p, SortNames(listings[(Mesh, p)]));
    InDirectoryBelong(Label, p, SortNames(listings[(Label, p)]));
  }

  lemma InDirectoryBelong(kind: Kind, person: string, names: seq<string>)
    ensures forall e :: e in InDirectory(kind, person, names) ==> |e| > 0 && e[..|e| - 1] == Directory(kind, person)
  {
    var r := InDirectory(kind, person, names);
    forall e | e in r ensures |e| > 0 && e[..|e| - 1] == Directory(kind, person) {
      var k :| 0 <= k < |r| && r[k] == e;
      assert e == Directory(kind, person) + [names[k]];
    }
  }

  // ------------------------------------------------------------ AuDataset

  /** The dataset object over one group's file lists; the transform hook is not part of the index mapping. */
  datatype AuDataset = AuDataset(images: seq<Entry>, meshes: seq<Entry>, labels: seq<Entry>) {
    /** __len__: the number of meshes. */
    function Len(): nat {
      |meshes|
    }

    /**
     * __getitem__: the same Python index into all three lists; negative
     * indices count from the end of each list, and an index outside any of
     * them raises IndexError.
     */
    function GetItem(index: int): (r: Result<(Entry, Entry, Entry)>)
      ensures r.Ok? <==> -|images| <= index < |images| && -|meshes| <= index < |meshes| && -|labels| <= index < |labels|
      ensures r.Ok? ==> r.value == (PyIndex(images, index).value, PyIndex(meshes, index).value, PyIndex(labels, index).value)
      ensures r.Err? ==> r.error == IndexError
    {
      match PyIndex(images, index)
      case Err(e) => Err(e)
      case Ok(img) =>
        match PyIndex(meshes, index)
        case Err(e) => Err(e)
        case Ok(mesh) =>
          match PyIndex(labels, index)
          case Err(e) => Err(e)
          case Ok(units) => Ok((img, mesh, units))
    }
  }

  /** The dataset load_data's lists make. */
  function FromCorpus(c: Corpus): AuDataset {
    AuDataset(c.images, c.meshes, c.labels)
  }

  /**
   * When the three lists are equally long, every index below __len__, and
   * every negative index down to -__len__, reads position k of each list;
   * every other index raises IndexError.
   */
  lemma GetItemAligned(d: AuDataset, index: int)
    requires |d.images| == |d.meshes| == |d.labels|
    ensures d.GetItem(index).Ok? <==> -(d.Len() as int) <= index < d.Len()
    ensures 0 <= index < d.Len() ==> d.GetItem(index) == Ok((d.images[index], d.meshes[index], d.labels[index]))
    ensures -(d.Len() as int) <= index < 0 ==>
              var k: int := d.Len() + index;
              d.GetItem(index) == Ok((d.images[k], d.meshes[k], d.labels[k]))
  {
  }

  /** With more meshes than labels, an index below __len__ raises IndexError. */
  lemma GetItemShortLabels(d: AuDataset)
    requires |d.labels| < |d.meshes| <= |d.images|
    ensures d.GetItem(|d.labels|) == Err(IndexError)
    ensures |d.labels| < d.Len()
  {
  }
}
