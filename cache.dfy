/**
 * What the cache directories list once preprocessing has written them, and
 * how the three lists load_data builds from them line up with the frames
 * they came from.
 */
module CacheListing {
  import opened Wrappers
  import opened PyStr
  import opened PySort
  import opened Artifacts
  import opened CorpusLoader
  import FrameExtractor
  import LabelAligner
  import Pipeline

  /** Indices below this have four-digit names, so within a directory name order is index order. */
  const IndexLimit: nat := 10000

  // ------------------------------------------------------------ order of zero-padded names

  lemma LexLeReflexive(a: string)
    ensures LexLe(a, a)
  {
    LexLeTotal(a, a);
  }

  lemma {:induction false} LexLeCommonPrefix(c: string, a: string, b: string)
    requires LexLe(a, b)
    ensures LexLe(c + a, c + b)
    decreases |c|
  {
    if |c| == 0 {
      assert c + a == a && c + b == b;
    } else {
      assert (c + a)[0] == c[0] && (c + b)[0] == c[0];
      assert (c + a)[1..] == c[1..] + a && (c + b)[1..] == c[1..] + b;
      LexLeCommonPrefix(c[1..], a, b);
    }
  }

  /** Two different strings of one length are ordered by their first difference, whatever follows them. */
  lemma {:induction false} LexLeFirstDifference(x: string, y: string, u: string, v: string)
    requires |x| == |y| && x != y && LexLe(x, y)
    ensures LexLe(x + u, y + v)
    decreases |x|
  {
    assert |x| > 0;
    assert (x + u)[0] == x[0] && (y + v)[0] == y[0];
    if x[0] == y[0] {
      assert x == [x[0]] + x[1..] && y == [y[0]] + y[1..];
      assert (x + u)[1..] == x[1..] + u && (y + v)[1..] == y[1..] + v;
      LexLeFirstDifference(x[1..], y[1..], u, v);
    }
  }

  /** Digit strings of one length with one value are equal. */
  lemma {:induction false} DigitsEqual(x: string, y: string)
    requires |x| == |y| && AllDigits(x) && AllDigits(y) && DigitsValue(x) == DigitsValue(y)
    ensures x == y
    decreases |x|
  {
    if |x| > 0 {
      var n := |x| - 1;
      assert AllDigits(x[..n]) && AllDigits(y[..n]);
      assert 10 * DigitsValue(x[..n]) + DigitValue(x[n]) == 10 * DigitsValue(y[..n]) + DigitValue(y[n]);
      LastDigit(DigitsValue(x[..n]), DigitValue(x[n]), DigitsValue(y[..n]), DigitValue(y[n]));
      DigitsEqual(x[..n], y[..n]);
      assert x == x[..n] + [x[n]] && y == y[..n] + [y[n]];
    }
  }

  /** A number written as 10 * a + d with a digit d determines a and d. */
  lemma LastDigit(a: nat, d: nat, b: nat, e: nat)
    requires d < 10 && e < 10 && 10 * a + d == 10 * b + e
    ensures a == b && d == e
  {
  }

  /** Among digit strings of one length, the smaller value comes first in code-point order. */
  lemma {:induction false} DigitsOrder(x: string, y: string)
    requires |x| == |y| && AllDigits(x) && AllDigits(y) && DigitsValue(x) < DigitsValue(y)
    ensures x != y && LexLe(x, y)
    decreases |x|
  {
    var n := |x| - 1;
    assert AllDigits(x[..n]) && AllDigits(y[..n]);
    assert x == x[..n] + [x[n]] && y == y[..n] + [y[n]];
    if DigitsValue(x[..n]) < DigitsValue(y[..n]) {
      DigitsOrder(x[..n], y[..n]);
      LexLeFirstDifference(x[..n], y[..n], [x[n]], [y[n]]);
    } else {
      assert DigitsValue(x[..n]) == DigitsValue(y[..n]);
      DigitsEqual(x[..n], y[..n]);
      assert x[n] < y[n];
      assert LexLe([x[n]], [y[n]]);
      LexLeCommonPrefix(x[..n], [x[n]], [y[n]]);
    }
  }

  /** Within one directory, file names of four-digit indices sort in index order. */
  lemma FileNameOrder(kind: Kind, person: string, i: nat, j: nat)
    requires i <= j < IndexLimit
    ensures LexLe(FileName(Path(kind, person, i)), FileName(Path(kind, person, j)))
  {
    if i == j {
      LexLeReflexive(FileName(Path(kind, person, i)));
    } else {
      var c, e := person + Infix(kind), Extension(kind);
      var x, y := ZeroPad4(i), ZeroPad4(j);
      PaddedOrder(i, j);
      LexLeFirstDifference(x, y, e, e);
      LexLeCommonPrefix(c, x + e, y + e);
      assert FileName(Path(kind, person, i)) == c + (x + e);
      assert FileName(Path(kind, person, j)) == c + (y + e);
    }
  }

  /** Padded forms of two different indices below the limit have one length and sort in index order. */
  lemma PaddedOrder(i: nat, j: nat)
    requires i < j < IndexLimit
    ensures |ZeroPad4(i)| == |ZeroPad4(j)| && ZeroPad4(i) != ZeroPad4(j) && LexLe(ZeroPad4(i), ZeroPad4(j))
  {
    ZeroPad4Length(i);
    ZeroPad4Length(j);
    ZeroPad4Value(i);
    ZeroPad4Value(j);
    DigitsOrder(ZeroPad4(i), ZeroPad4(j));
  }

  // ------------------------------------------------------------ the cache's own listing

  /** Which artifacts of a frame an index list asks for: one kind, or all three kinds a training item is made of. */
  datatype Want = Only(kind: Kind) | Item

  /** The frame has the artifacts w asks for. */
  predicate Has(files: map<Path, Blob>, w: Want, person: string, i: nat) {
    match w
    case Only(k) => Path(k, person, i) in files
    case Item => Path(Crop, person, i) in files && Path(Mesh, person, i) in files && Path(Label, person, i) in files
  }

  /**
   * The indices below bound whose frame has what w asks for, in strictly
   * increasing order: each such index, and nothing else.
   */
  function Indices(files: map<Path, Blob>, w: Want, person: string, bound: nat): (r: seq<nat>)
    ensures forall k :: 0 <= k < |r| ==> r[k] < bound
    ensures forall k :: 0 <= k < |r| ==> Has(files, w, person, r[k])
    ensures forall i :: 0 <= i < bound && Has(files, w, person, i) ==> i in r
    ensures forall k, l :: 0 <= k < l < |r| ==> r[k] < r[l]
    decreases bound
  {
    if bound == 0 then []
    else Indices(files, w, person, bound - 1) + (if Has(files, w, person, bound - 1) then [bound - 1] else [])
  }

  /** [os.path.join(dir, name)] for the given frames of one kind of one subject. */
  function Entries(kind: Kind, person: string, ix: seq<nat>): seq<Entry> {
    seq(|ix|, k requires 0 <= k < |ix| => FullPath(Path(kind, person, ix[k])))
  }

  /** The names of a subject's files of one kind, in index order. */
  function CacheNames(files: map<Path, Blob>, kind: Kind, person: string): seq<string> {
    var ix := Indices(files, Only(kind), person, IndexLimit);
    seq(|ix|, k requires 0 <= k < |ix| => FileName(Path(kind, person, ix[k])))
  }

  /** Every artifact in the cache has a four-digit index (each DISFA video has fewer than 10000 frames). */
  predicate FourDigitIndices(files: map<Path, Blob>) {
    forall p :: p in files ==> p.index < IndexLimit
  }

  /** The directory exists and os.listdir gives exactly the subject's files of that kind, in some order. */
  predicate Lists(files: map<Path, Blob>, listings: Listings, kind: Kind, person: string) {
    (kind, person) in listings && multiset(listings[(kind, person)]) == multiset(CacheNames(files, kind, person))
  }

  /** The listings are those of the cache for every subject asked for. */
  predicate ListsCache(files: map<Path, Blob>, listings: Listings, persons: seq<string>) {
    FourDigitIndices(files) &&
    forall p :: p in persons ==> Lists(files, listings, Crop, p) && Lists(files, listings, Mesh, p) && Lists(files, listings, Label, p)
  }

  /** sorted(os.listdir(dir)) of a cache directory is the subject's files of that kind in index order. */
  lemma SortedCacheListing(files: map<Path, Blob>, listings: Listings, kind: Kind, person: string)
    requires Lists(files, listings, kind, person)
    ensures SortNames(listings[(kind, person)]) == CacheNames(files, kind, person)
  {
    CacheNamesSorted(files, kind, person);
    SortedNamesUnique(SortNames(listings[(kind, person)]), CacheNames(files, kind, person));
  }

  lemma CacheNamesSorted(files: map<Path, Blob>, kind: Kind, person: string)
    ensures var names := CacheNames(files, kind, person);
            forall a, b :: 0 <= a <= b < |names| ==> LexLe(names[a], names[b])
  {
    var names := CacheNames(files, kind, person);
    var ix := Indices(files, Only(kind), person, IndexLimit);
    forall a, b | 0 <= a <= b < |names| ensures LexLe(names[a], names[b]) {
      assert a == b || ix[a] < ix[b];
      assert ix[b] < IndexLimit;
      FileNameOrder(kind, person, ix[a], ix[b]);
      assert names[a] == FileName(Path(kind, person, ix[a])) && names[b] == FileName(Path(kind, person, ix[b]));
    }
  }

  /** The cache entries of one kind of one subject, in index order. */
  function CacheEntries(files: map<Path, Blob>, kind: Kind, person: string): seq<Entry> {
    Entries(kind, person, Indices(files, Only(kind), person, IndexLimit))
  }

  /** What load_data returns for a cache that was listed faithfully: each subject's files of each kind in index order. */
  function CacheCorpus(files: map<Path, Blob>, persons: seq<string>): Corpus
    decreases |persons|
  {
    if |persons| == 0 then Corpus([], [], [])
    else
      var p := persons[|persons| - 1];
      Concat(CacheCorpus(files, persons[..|persons| - 1]),
             Corpus(CacheEntries(files, Crop, p), CacheEntries(files, Mesh, p), CacheEntries(files, Label, p)))
  }

  lemma ListedFromCache(files: map<Path, Blob>, listings: Listings, kind: Kind, person: string)
    requires Lists(files, listings, kind, person)
    ensures Listed(listings, kind, person) == Ok(CacheEntries(files, kind, person))
  {
    SortedCacheListing(files, listings, kind, person);
    var names := CacheNames(files, kind, person);
    var listed, cached := InDirectory(kind, person, names), CacheEntries(files, kind, person);
    var ix := Indices(files, Only(kind), person, IndexLimit);
    assert |listed| == |cached|;
    forall k | 0 <= k < |listed| ensures listed[k] == cached[k] {
      assert listed[k] == Directory(kind, person) + [FileName(Path(kind, person, ix[k]))];
    }
    assert listed == cached;
    assert Listed(listings, kind, person) == Ok(listed);
  }

  /** Over the cache's own listings load_data succeeds and returns every subject's files in index order. */
  lemma {:induction false} LoadFromCache(files: map<Path, Blob>, listings: Listings, persons: seq<string>)
    requires ListsCache(files, listings, persons)
    ensures Load(listings, persons) == Ok(CacheCorpus(files, persons))
    decreases |persons|
  {
    if |persons| > 0 {
      var n := |persons| - 1;
      var p := persons[n];
      assert forall q :: q in persons[..n] ==> q in persons;
      LoadFromCache(files, listings, persons[..n]);
      PersonFromCache(files, listings, p);
    }
  }

  /** One subject whose three directories the listings list as the cache holds them loads its own files in index order. */
  lemma PersonFromCache(files: map<Path, Blob>, listings: Listings, person: string)
    requires Lists(files, listings, Crop, person) && Lists(files, listings, Mesh, person) && Lists(files, listings, Label, person)
    ensures LoadPerson(listings, person) ==
            Ok(Corpus(CacheEntries(files, Crop, person), CacheEntries(files, Mesh, person), CacheEntries(files, Label, person)))
  {
    ListedFromCache(files, listings, Crop, person);
    ListedFromCache(files, listings, Mesh, person);
    ListedFromCache(files, listings, Label, person);
  }

  // ------------------------------------------------------------ pairing by position

  /** The smallest index present heads the index list. */
  lemma FirstIndex(files: map<Path, Blob>, kind: Kind, person: string, first: nat)
    requires first < IndexLimit && Path(kind, person, first) in files
    requires forall i :: 0 <= i < first ==> Path(kind, person, i) !in files
    ensures |Indices(files, Only(kind), person, IndexLimit)| > 0
    ensures Indices(files, Only(kind), person, IndexLimit)[0] == first
  {
    FirstIndexBelow(files, kind, person, IndexLimit, first);
  }

  lemma FirstIndexBelow(files: map<Path, Blob>, kind: Kind, person: string, bound: nat, first: nat)
    requires first < bound && Path(kind, person, first) in files
    requires forall i :: 0 <= i < first ==> Path(kind, person, i) !in files
    ensures |Indices(files, Only(kind), person, bound)| > 0
    ensures Indices(files, Only(kind), person, bound)[0] == first
  {
    var r := Indices(files, Only(kind), person, bound);
    assert Has(files, Only(kind), person, first);
    var k :| 0 <= k < |r| && r[k] == first;
    assert r[0] <= r[k];
    assert Has(files, Only(kind), person, r[0]);
    assert Path(kind, person, r[0]) in files;
  }

  /**
   * As written, the lists are paired by position. A subject whose frames
   * before frame first > 0 had no face has no crop and no mesh for them,
   * but has labels from frame 0: item 0 of the dataset then pairs frame
   * first's crop and mesh with frame 0's action units.
   */
  lemma PositionalPairingMisaligns(files: map<Path, Blob>, listings: Listings, person: string, first: nat)
    requires ListsCache(files, listings, [person])
    requires 0 < first
    requires Path(Crop, person, first) in files && Path(Mesh, person, first) in files
    requires forall i :: 0 <= i < first ==> Path(Crop, person, i) !in files && Path(Mesh, person, i) !in files
    requires Path(Label, person, 0) in files
    ensures Load(listings, [person]).Ok?
    ensures FromCorpus(Load(listings, [person]).value).GetItem(0)
            == Ok((FullPath(Path(Crop, person, first)), FullPath(Path(Mesh, person, first)), FullPath(Path(Label, person, 0))))
  {
    assert person in [person];
    LoadFromCache(files, listings, [person]);
    assert [person][..0] == [];
    FirstIndex(files, Crop, person, first);
    FirstIndex(files, Mesh, person, first);
    FirstIndex(files, Label, person, 0);
  }

  // ------------------------------------------------------------ pairing by frame

  /** One subject's frames with all three artifacts, as (subject, index) pairs. */
  function Block(p: string, ix: seq<nat>): seq<(string, nat)> {
    seq(|ix|, k requires 0 <= k < |ix| => (p, ix[k]))
  }

  /** The frames that have a crop, a mesh and labels, subject by subject and in index order within a subject. */
  function Frames(files: map<Path, Blob>, persons: seq<string>): seq<(string, nat)>
    decreases |persons|
  {
    if |persons| == 0 then []
    else
      var p := persons[|persons| - 1];
      Frames(files, persons[..|persons| - 1]) + Block(p, Indices(files, Item, p, IndexLimit))
  }

  /** Every pair of fr is a frame, below the index limit, of one of persons that has all three artifacts. */
  predicate CompleteFrames(files: map<Path, Blob>, persons: seq<string>, fr: seq<(string, nat)>) {
    forall n :: 0 <= n < |fr| ==> fr[n].0 in persons && fr[n].1 < IndexLimit && Has(files, Item, fr[n].0, fr[n].1)
  }

  /** Every pair in Frames is a frame of a subject asked for that has all three artifacts. */
  lemma {:induction false} FramesSound(files: map<Path, Blob>, persons: seq<string>)
    ensures CompleteFrames(files, persons, Frames(files, persons))
    decreases |persons|
  {
    if |persons| > 0 {
      var m := |persons| - 1;
      var before := Frames(files, persons[..m]);
      var block := Block(persons[m], Indices(files, Item, persons[m], IndexLimit));
      assert Frames(files, persons) == before + block;
      FramesSound(files, persons[..m]);
      CompleteFramesWiden(files, persons, m, before);
      BlockComplete(files, persons, m);
      CompleteFramesConcat(files, persons, before, block);
    }
  }

  lemma CompleteFramesWiden(files: map<Path, Blob>, persons: seq<string>, m: nat, fr: seq<(string, nat)>)
    requires m <= |persons|
    requires CompleteFrames(files, persons[..m], fr)
    ensures CompleteFrames(files, persons, fr)
  {
    assert forall q :: q in persons[..m] ==> q in persons;
  }

  lemma BlockComplete(files: map<Path, Blob>, persons: seq<string>, m: nat)
    requires m < |persons|
    ensures CompleteFrames(files, persons, Block(persons[m], Indices(files, Item, persons[m], IndexLimit)))
  {
  }

  lemma CompleteFramesConcat(files: map<Path, Blob>, persons: seq<string>, a: seq<(string, nat)>, b: seq<(string, nat)>)
    requires CompleteFrames(files, persons, a) && CompleteFrames(files, persons, b)
    ensures CompleteFrames(files, persons, a + b)
  {
    forall n | 0 <= n < |a + b|
      ensures (a + b)[n].0 in persons && (a + b)[n].1 < IndexLimit && Has(files, Item, (a + b)[n].0, (a + b)[n].1)
    {
      if n < |a| {
        assert (a + b)[n] == a[n];
      } else {
        assert (a + b)[n] == b[n - |a|];
      }
    }
  }

  /** Every frame of a subject asked for that has all three artifacts is among Frames. */
  lemma {:induction false} FramesCover(files: map<Path, Blob>, persons: seq<string>, p: string, i: nat)
    requires p in persons && i < IndexLimit && Has(files, Item, p, i)
    ensures (p, i) in Frames(files, persons)
    decreases |persons|
  {
    var n := |persons| - 1;
    var before := Frames(files, persons[..n]);
    var block := Block(persons[n], Indices(files, Item, persons[n], IndexLimit));
    assert Frames(files, persons) == before + block;
    if p == persons[n] {
      BlockCovers(files, p, i);
    } else {
      InPrefix(persons, p);
      FramesCover(files, persons[..n], p, i);
    }
    InConcat(before, block, (p, i));
  }

  /** A subject other than the last is in the list without its last entry. */
  lemma InPrefix(persons: seq<string>, p: string)
    requires p in persons && p != persons[|persons| - 1]
    ensures p in persons[..|persons| - 1]
  {
    var n := |persons| - 1;
    assert persons == persons[..n] + [persons[n]];
  }

  lemma InConcat<T>(a: seq<T>, b: seq<T>, x: T)
    requires x in a || x in b
    ensures x in a + b
  {
  }

  lemma BlockCovers(files: map<Path, Blob>, p: string, i: nat)
    requires i < IndexLimit && Has(files, Item, p, i)
    ensures (p, i) in Block(p, Indices(files, Item, p, IndexLimit))
  {
    var ix := Indices(files, Item, p, IndexLimit);
    var k :| 0 <= k < |ix| && ix[k] == i;
    assert Block(p, ix)[k] == (p, i);
  }

  /** The files of one kind for a list of frames. */
  function ItemFiles(kind: Kind, frames: seq<(string, nat)>): seq<Entry> {
    seq(|frames|, n requires 0 <= n < |frames| => FullPath(Path(kind, frames[n].0, frames[n].1)))
  }

  /** The corrected loader: item n is the crop, the mesh and the labels of the n-th frame of Frames. */
  function LoadAligned(files: map<Path, Blob>, persons: seq<string>): Corpus {
    var fr := Frames(files, persons);
    Corpus(ItemFiles(Crop, fr), ItemFiles(Mesh, fr), ItemFiles(Label, fr))
  }

  /**
   * The intended pairing: every item of the corrected dataset is the crop,
   * the mesh and the labels of one and the same frame, that frame has all
   * three in the cache, and every such frame of the subjects asked for is
   * an item.
   */
  lemma AlignedItems(files: map<Path, Blob>, persons: seq<string>)
    ensures var fr := Frames(files, persons);
            var d := FromCorpus(LoadAligned(files, persons));
            d.Len() == |fr| &&
            (forall n :: 0 <= n < |fr| ==>
               d.GetItem(n) == Ok((FullPath(Path(Crop, fr[n].0, fr[n].1)), FullPath(Path(Mesh, fr[n].0, fr[n].1)),
                                   FullPath(Path(Label, fr[n].0, fr[n].1)))) &&
               fr[n].0 in persons && Path(Crop, fr[n].0, fr[n].1) in files &&
               Path(Mesh, fr[n].0, fr[n].1) in files && Path(Label, fr[n].0, fr[n].1) in files) &&
            (forall p, i: nat :: p in persons && i < IndexLimit && Has(files, Item, p, i) ==> (p, i) in fr)
  {
    var fr := Frames(files, persons);
    var d := FromCorpus(LoadAligned(files, persons));
    FramesSound(files, persons);
    forall n | 0 <= n < |fr|
      ensures Path(Crop, fr[n].0, fr[n].1) in files && Path(Mesh, fr[n].0, fr[n].1) in files && Path(Label, fr[n].0, fr[n].1) in files
    {
      assert Has(files, Item, fr[n].0, fr[n].1);
    }
    forall p, i: nat | p in persons && i < IndexLimit && Has(files, Item, p, i) ensures (p, i) in fr {
      FramesCover(files, persons, p, i);
    }
  }

  lemma ItemFilesConcat(kind: Kind, x: seq<(string, nat)>, y: seq<(string, nat)>)
    ensures ItemFiles(kind, x + y) == ItemFiles(kind, x) + ItemFiles(kind, y)
  {
    assert ItemFiles(kind, x + y) == ItemFiles(kind, x) + ItemFiles(kind, y);
  }

  lemma ItemFilesBlock(kind: Kind, p: string, ix: seq<nat>)
    ensures ItemFiles(kind, Block(p, ix)) == Entries(kind, p, ix)
  {
  }

  /** The corrected loader also works subject by subject. */
  lemma LoadAlignedStep(files: map<Path, Blob>, persons: seq<string>)
    requires |persons| > 0
    ensures var p := persons[|persons| - 1];
            var ix := Indices(files, Item, p, IndexLimit);
            LoadAligned(files, persons)
              == Concat(LoadAligned(files, persons[..|persons| - 1]), Corpus(Entries(Crop, p, ix), Entries(Mesh, p, ix), Entries(Label, p, ix)))
  {
    var p := persons[|persons| - 1];
    var ix := Indices(files, Item, p, IndexLimit);
    var before := Frames(files, persons[..|persons| - 1]);
    assert Frames(files, persons) == before + Block(p, ix);
    ItemFilesConcat(Crop, before, Block(p, ix));
    ItemFilesConcat(Mesh, before, Block(p, ix));
    ItemFilesConcat(Label, before, Block(p, ix));
    ItemFilesBlock(Crop, p, ix);
    ItemFilesBlock(Mesh, p, ix);
    ItemFilesBlock(Label, p, ix);
  }

  /** Two wants that hold of the same frames give the same index list. */
  lemma {:induction false} IndicesAgree(files: map<Path, Blob>, w: Want, v: Want, person: string, bound: nat)
    requires forall i :: Has(files, w, person, i) <==> Has(files, v, person, i)
    ensures Indices(files, w, person, bound) == Indices(files, v, person, bound)
    decreases bound
  {
    if bound > 0 {
      IndicesAgree(files, w, v, person, bound - 1);
    }
  }

  /** Every frame of the subject that has any of crop, mesh and labels has all three. */
  ghost predicate NothingMissing(files: map<Path, Blob>, person: string) {
    forall i :: (Path(Crop, person, i) in files <==> Path(Label, person, i) in files) &&
                (Path(Mesh, person, i) in files <==> Path(Label, person, i) in files)
  }

  /**
   * Pairing by position is right exactly where no frame misses a kind:
   * load_data as written then returns what the corrected loader returns.
   */
  lemma {:induction false} PositionalPairingAlignedWhenNothingMissing(files: map<Path, Blob>, listings: Listings, persons: seq<string>)
    requires ListsCache(files, listings, persons)
    requires forall p :: p in persons ==> NothingMissing(files, p)
    ensures Load(listings, persons) == Ok(LoadAligned(files, persons))
    decreases |persons|
  {
    LoadFromCache(files, listings, persons);
    CacheCorpusAligned(files, persons);
  }

  lemma {:induction false} CacheCorpusAligned(files: map<Path, Blob>, persons: seq<string>)
    requires forall p :: p in persons ==> NothingMissing(files, p)
    ensures CacheCorpus(files, persons) == LoadAligned(files, persons)
    decreases |persons|
  {
    if |persons| == 0 {
      assert Frames(files, persons) == [];
    } else {
      var n := |persons| - 1;
      var p := persons[n];
      assert forall q :: q in persons[..n] ==> q in persons;
      CacheCorpusAligned(files, persons[..n]);
      LoadAlignedStep(files, persons);
      NothingMissingIndices(files, p);
    }
  }

  /** With nothing missing, each kind's index list is the list of frames with all three. */
  lemma NothingMissingIndices(files: map<Path, Blob>, p: string)
    requires NothingMissing(files, p)
    ensures var ix := Indices(files, Item, p, IndexLimit);
            CacheEntries(files, Crop, p) == Entries(Crop, p, ix) &&
            CacheEntries(files, Mesh, p) == Entries(Mesh, p, ix) &&
            CacheEntries(files, Label, p) == Entries(Label, p, ix)
  {
    forall i: nat ensures Has(files, Only(Crop), p, i) <==> Has(files, Item, p, i) {
      assert Has(files, Item, p, i) <==> Path(Crop, p, i) in files && Path(Mesh, p, i) in files && Path(Label, p, i) in files;
    }
    forall i: nat ensures Has(files, Only(Mesh), p, i) <==> Has(files, Item, p, i) {
      assert Has(files, Item, p, i) <==> Path(Crop, p, i) in files && Path(Mesh, p, i) in files && Path(Label, p, i) in files;
    }
    forall i: nat ensures Has(files, Only(Label), p, i) <==> Has(files, Item, p, i) {
      assert Has(files, Item, p, i) <==> Path(Crop, p, i) in files && Path(Mesh, p, i) in files && Path(Label, p, i) in files;
    }
    IndicesAgree(files, Only(Crop), Item, p, IndexLimit);
    IndicesAgree(files, Only(Mesh), Item, p, IndexLimit);
    IndicesAgree(files, Only(Label), Item, p, IndexLimit);
  }

  /** Frame extraction for a fresh subject whose face is first detected in the second frame. */
  lemma FaceFoundInSecondFrame(files0: map<Path, Blob>, id: string, frames: seq<Pixels>,
                               detect: FrameExtractor.Detector, crop: FrameExtractor.Cropper)
    requires forall k: Kind, j: nat :: Path(k, id, j) !in files0
    requires |frames| >= 2
    requires detect(frames[..1]).None?
    requires detect(frames[..2]).Some?
    ensures var mid := FrameExtractor.Run(files0, id, frames, detect, crop).files;
            Path(Crop, id, 0) !in mid && Path(Mesh, id, 0) !in mid &&
            Path(Crop, id, 1) in mid && Path(Mesh, id, 1) in mid
  {
    FrameExtractor.FreshExtraction(files0, id, frames, detect, crop, 0);
    FrameExtractor.FreshExtraction(files0, id, frames, detect, crop, 1);
  }

  /**
   * How preprocessing leaves such a cache: a subject with no earlier
   * artifacts whose first frame shows no face and whose second does ends
   * with no crop or mesh for frame 0, a crop and a mesh for frame 1 and a
   * label record for frame 0, which is the situation of
   * PositionalPairingMisaligns with first == 1.
   */
  lemma FaceMissedInFirstFrame(st: Pipeline.RunState, data: Pipeline.Dataset, id: string,
                               detect: FrameExtractor.Detector, crop: FrameExtractor.Cropper)
    requires forall k: Kind, j: nat :: Path(k, id, j) !in st.files
    requires |Pipeline.VideoFrames(data, id)| >= 2
    requires detect(Pipeline.VideoFrames(data, id)[..1]).None?
    requires detect(Pipeline.VideoFrames(data, id)[..2]).Some?
    requires Pipeline.SubjectLabels(data, id).Ok? && |Pipeline.SubjectLabels(data, id).value| > 0
    ensures var files := Pipeline.ProcessPerson(st, data, id, detect, crop).files;
            Path(Crop, id, 0) !in files && Path(Mesh, id, 0) !in files &&
            Path(Crop, id, 1) in files && Path(Mesh, id, 1) in files && Path(Label, id, 0) in files
  {
    var frames := Pipeline.VideoFrames(data, id);
    var recs := Pipeline.SubjectLabels(data, id).value;
    var mid := FrameExtractor.Run(st.files, id, frames, detect, crop).files;
    Pipeline.ProcessPersonFiles(st, data, id, detect, crop);
    FaceFoundInSecondFrame(st.files, id, frames, detect, crop);
    LabelAligner.SavedLabels(mid, id, recs, Path(Crop, id, 0));
    LabelAligner.SavedLabels(mid, id, recs, Path(Mesh, id, 0));
    LabelAligner.SavedLabels(mid, id, recs, Path(Crop, id, 1));
    LabelAligner.SavedLabels(mid, id, recs, Path(Mesh, id, 1));
    LabelAligner.SavedLabels(mid, id, recs, Path(Label, id, 0));
  }
}
