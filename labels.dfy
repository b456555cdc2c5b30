/**
 * The label aligner (read_save_action_units): reads one subject's label
 * files, one per action unit with one "frame,intensity" line per frame,
 * and saves one record per frame index mapping each action unit to its
 * intensity.
 */
module LabelAligner {
  import opened Wrappers
  import opened PyStr
  import opened PySort
  import opened Artifacts

  /** len('SN001_'): the subject prefix of a label file name. */
  const PrefixLength := 6

  /** len('.txt') */
  const SuffixLength := 4

  /** A subject's label directory: os.listdir's names, in its order, and each file's lines as readlines() gives them. */
  datatype AuSource = AuSource(listing: seq<string>, contents: map<string, seq<string>>)

  /** x[len('SN001_'):-len('.txt')]: the action-unit name inside a label file name. */
  function AuName(file: string): string {
    PySlice(file, PrefixLength, -SuffixLength)
  }

  /** f"{person}_{au}.txt": the file read for an action unit. */
  function AuFile(person: string, au: string): string {
    person + "_" + au + ".txt"
  }

  /** With a five-character subject id such as SN001, the name taken from a label file is the action unit it names. */
  lemma AuNameOfAuFile(person: string, au: string)
    requires |person| == 5
    ensures AuName(AuFile(person, au)) == au
  {
    var f := AuFile(person, au);
    PySliceCut(f, PrefixLength, SuffixLength);
    assert f[6..|f| - 4] == au;
  }

  /** Conversely, a label file named <person>_<au>.txt is the file read back for its name. */
  lemma AuFileOfAuName(person: string, file: string)
    requires |person| == 5 && |file| >= 10
    requires file[..6] == person + "_" && file[|file| - 4..] == ".txt"
    ensures AuFile(person, AuName(file)) == file
  {
    assert AuName(file) == file[6..|file| - 4];
    assert file == file[..6] + file[6..|file| - 4] + file[|file| - 4..];
  }

  /** int(u[2:]): the number of an action-unit name such as AU12. */
  function AuNumber(au: string): Option<int> {
    ParseInt(PySlice(au, 2, |au|))
  }

  /** The sort key of an action-unit name (only used once every number parsed). */
  function AuOrder(au: string): Key {
    IntKey(if AuNumber(au).Some? then AuNumber(au).value else 0)
  }

  function Names(files: seq<string>): (names: seq<string>)
    ensures |names| == |files|
    ensures forall k :: 0 <= k < |files| ==> names[k] == AuName(files[k])
  {
    seq(|files|, k requires 0 <= k < |files| => AuName(files[k]))
  }

  /**
   * sorted([x[6:-4] for x in files], key=lambda u: int(u[2:])): every key is
   * computed first, and a name whose number does not parse raises.
   */
  function SortedAus(files: seq<string>): Result<seq<string>> {
    var names := Names(files);
    if exists k :: 0 <= k < |names| && AuNumber(names[k]).None? then Err(ValueError)
    else Ok(Sort(names, AuOrder))
  }

  /**
   * The action units come out as a permutation of the names in the listing,
   * ordered by their numbers; the sort fails iff some number is not an integer.
   */
  lemma SortedAusSpec(files: seq<string>)
    ensures SortedAus(files).Ok? <==> forall k :: 0 <= k < |files| ==> AuNumber(AuName(files[k])).Some?
    ensures SortedAus(files).Err? ==> SortedAus(files).error == ValueError
    ensures SortedAus(files).Ok? ==>
      var aus := SortedAus(files).value;
      multiset(aus) == multiset(Names(files)) &&
      (forall i :: 0 <= i < |aus| ==> AuNumber(aus[i]).Some?) &&
      (forall i, j :: 0 <= i <= j < |aus| ==> AuNumber(aus[i]).value <= AuNumber(aus[j]).value)
  {
    var names := Names(files);
    if SortedAus(files).Ok? {
      var aus := SortedAus(files).value;
      forall i | 0 <= i < |aus| ensures AuNumber(aus[i]).Some? {
        assert aus[i] in multiset(names);
      }
      forall i, j | 0 <= i <= j < |aus| ensures AuNumber(aus[i]).value <= AuNumber(aus[j]).value {
        SortedAllPairs(aus, AuOrder, i, j);
      }
    }
  }

  // ------------------------------------------------------------ one label file

  /** int(line.strip().split(",")[1]): the intensity field of one line. */
  function Intensity(line: string): Result<int> {
    var fields := Split(Strip(line), ',');
    if |fields| < 2 then Err(IndexError)
    else
      match ParseInt(fields[1])
      case None => Err(ValueError)
      case Some(v) => Ok(v)
  }

  lemma DigitsHaveNoComma(s: string)
    requires AllDigits(s)
    ensures ',' !in s
  {
    forall k | 0 <= k < |s| ensures s[k] != ',' {
      assert IsDigit(s[k]);
    }
  }

  /** A label line as the dataset writes it, "<frame>,<intensity>\n", yields its intensity. */
  lemma IntensityOfLabelLine(frame: nat, v: int)
    ensures Intensity(Decimal(frame) + "," + IntToString(v) + "\n") == Ok(v)
  {
    LabelLineFields(frame, v);
    ParseIntToString(v);
  }

  /** Stripped and split at commas, such a line is its two fields. */
  lemma LabelLineFields(frame: nat, v: int)
    ensures Split(Strip(Decimal(frame) + "," + IntToString(v) + "\n"), ',') == [Decimal(frame), IntToString(v)]
  {
    var d, w := Decimal(frame), IntToString(v);
    var s := d + "," + w;
    IntStringShape(v);
    assert s[0] == d[0] && s[|s| - 1] == w[|w| - 1];
    StripLine(s);
    DigitsHaveNoComma(d);
    SplitJoin([d, w], ',');
    assert Join([d, w], ',') == s;
  }

  /** str(v) has no comma and ends in a digit. */
  lemma IntStringShape(v: int)
    ensures ',' !in IntToString(v) && IsDigit(IntToString(v)[|IntToString(v)| - 1])
  {
    var w := IntToString(v);
    if v < 0 {
      var d := Decimal(-v);
      assert w == "-" + d;
      DigitsHaveNoComma(d);
      assert w[|w| - 1] == d[|d| - 1];
    } else {
      DigitsHaveNoComma(w);
    }
  }

  /** A line without a comma after stripping raises IndexError; a line with one is decided by int() of its second field. */
  lemma IntensityFailure(line: string)
    ensures Intensity(line) == Err(IndexError) <==> ',' !in Strip(line)
    ensures ',' in Strip(line) ==>
      (Intensity(line).Ok? <==> ParseInt(Split(Strip(line), ',')[1]).Some?)
  {
    SplitHasSecondField(Strip(line), ',');
  }

  /**
   * [f(x) for x in xs] where f may raise: the results in order, or the
   * exception of the first element that raises.
   */
  function EachOk<T, U>(f: T -> Result<U>, xs: seq<T>): (r: Result<seq<U>>)
    ensures r.Ok? <==> forall k :: 0 <= k < |xs| ==> f(xs[k]).Ok?
    ensures r.Ok? ==> |r.value| == |xs| && forall k :: 0 <= k < |xs| ==> f(xs[k]) == Ok(r.value[k])
    decreases |xs|
  {
    if |xs| == 0 then Ok([])
    else
      var n := |xs| - 1;
      var prefix := EachOk(f, xs[..n]);
      assert forall k :: 0 <= k < n ==> xs[..n][k] == xs[k];
      if prefix.Err? then Err(prefix.error)
      else
        match f(xs[n])
        case Err(e) => Err(e)
        case Ok(v) => Ok(prefix.value + [v])
  }

  /** An exception among the first k elements is the outcome for the whole list. */
  lemma {:induction false} EachOkFailsEarly<T, U>(f: T -> Result<U>, xs: seq<T>, k: nat)
    requires k <= |xs|
    requires EachOk(f, xs[..k]).Err?
    ensures EachOk(f, xs) == EachOk(f, xs[..k])
    decreases |xs|
  {
    if k < |xs| {
      var n := |xs| - 1;
      assert xs[..n][..k] == xs[..k];
      EachOkFailsEarly(f, xs[..n], k);
    } else {
      assert xs[..k] == xs;
    }
  }

  /** The exception raised is that of the first element that raises. */
  lemma {:induction false} EachOkFirstError<T, U>(f: T -> Result<U>, xs: seq<T>, k: nat)
    requires k < |xs| && f(xs[k]).Err?
    requires forall j :: 0 <= j < k ==> f(xs[j]).Ok?
    ensures EachOk(f, xs) == Err(f(xs[k]).error)
  {
    assert xs[..k + 1][..k] == xs[..k];
    assert forall j :: 0 <= j < k ==> xs[..k][j] == xs[j];
    assert EachOk(f, xs[..k]).Ok?;
    assert xs[..k + 1][k] == xs[k];
    EachOkFailsEarly(f, xs, k + 1);
  }

  /** [int(line.strip().split(",")[1]) for line in lines]: the first failing line raises. */
  function Column(lines: seq<string>): (r: Result<seq<int>>)
    ensures r.Ok? <==> forall k :: 0 <= k < |lines| ==> Intensity(lines[k]).Ok?
    ensures r.Ok? ==> |r.value| == |lines| && forall k :: 0 <= k < |lines| ==> Intensity(lines[k]) == Ok(r.value[k])
  {
    EachOk(Intensity, lines)
  }

  /** The exception of a column is that of its first malformed line. */
  lemma ColumnError(lines: seq<string>, k: nat)
    requires k < |lines| && Intensity(lines[k]).Err?
    requires forall j :: 0 <= j < k ==> Intensity(lines[j]).Ok?
    ensures Column(lines) == Err(Intensity(lines[k]).error)
  {
    EachOkFirstError(Intensity, lines, k);
  }

  // ------------------------------------------------------------ all label files

  /** The lines of the file read for an action unit. */
  function LinesOf(src: AuSource, person: string, au: string): seq<string>
    requires AuFile(person, au) in src.contents
  {
    src.contents[AuFile(person, au)]
  }

  /** Opening and parsing the file of one action unit; a missing file raises FileNotFoundError. */
  function ReadAu(src: AuSource, person: string, au: string): Result<seq<int>> {
    var path := AuFile(person, au);
    if path !in src.contents then Err(FileNotFound(path)) else Column(src.contents[path])
  }

  /** The file read for au exists and every line of it parses. */
  predicate Readable(src: AuSource, person: string, au: string) {
    AuFile(person, au) in src.contents && Column(LinesOf(src, person, au)).Ok?
  }

  /** The loop over the action units: each file opened and parsed in turn; the first failure raises. */
  function Columns(aus: seq<string>, person: string, src: AuSource): (r: Result<seq<seq<int>>>)
    ensures r.Ok? <==> forall j :: 0 <= j < |aus| ==> Readable(src, person, aus[j])
    ensures r.Ok? ==> |r.value| == |aus|
    ensures r.Ok? ==> forall j :: 0 <= j < |aus| ==> Column(LinesOf(src, person, aus[j])) == Ok(r.value[j])
  {
    var r := EachOk(au => ReadAu(src, person, au), aus);
    assert forall j :: 0 <= j < |aus| ==> (ReadAu(src, person, aus[j]).Ok? <==> Readable(src, person, aus[j]));
    r
  }

  /** An exception while reading the first k files is the exception of the whole loop. */
  lemma ColumnsFailEarly(aus: seq<string>, person: string, src: AuSource, k: nat)
    requires k <= |aus|
    requires Columns(aus[..k], person, src).Err?
    ensures Columns(aus, person, src) == Columns(aus[..k], person, src)
  {
    EachOkFailsEarly(au => ReadAu(src, person, au), aus, k);
  }

  /** The number of entries of the shortest column; zip() of no columns is empty. */
  function MinLength(cols: seq<seq<int>>): (n: nat)
    ensures forall j :: 0 <= j < |cols| ==> n <= |cols[j]|
    ensures |cols| == 0 ==> n == 0
    ensures |cols| > 0 ==> exists j :: 0 <= j < |cols| && n == |cols[j]|
  {
    if |cols| == 0 then 0
    else if |cols| == 1 then |cols[0]|
    else
      var m := MinLength(cols[1..]);
      if |cols[0]| < m then |cols[0]| else m
  }

  /** zip(*cols): row i holds element i of every column, as many rows as the shortest column has entries. */
  function Zip(cols: seq<seq<int>>): (rows: seq<seq<int>>)
    ensures |rows| == MinLength(cols)
    ensures forall i :: 0 <= i < |rows| ==> |rows[i]| == |cols|
  {
    seq(MinLength(cols), i requires 0 <= i < MinLength(cols) =>
      seq(|cols|, j requires 0 <= j < |cols| => cols[j][i]))
  }

  /** dict(zip(keys, values)) for lists of equal length: a later key overrides an earlier one. */
  function ToDict(keys: seq<string>, values: seq<int>): map<string, int>
    requires |keys| == |values|
  {
    if |keys| == 0 then map[]
    else
      var n := |keys| - 1;
      ToDict(keys[..n], values[..n])[keys[n] := values[n]]
  }

  /** The dictionary has exactly the given keys. */
  lemma {:induction false} ToDictKeys(keys: seq<string>, values: seq<int>)
    requires |keys| == |values|
    ensures ToDict(keys, values).Keys == set k | k in keys
  {
    if |keys| > 0 {
      var n := |keys| - 1;
      ToDictKeys(keys[..n], values[..n]);
      assert keys == keys[..n] + [keys[n]];
    }
  }

  /** The value of a key is the value paired with its last occurrence. */
  lemma {:induction false} ToDictValue(keys: seq<string>, values: seq<int>, j: nat)
    requires |keys| == |values| && j < |keys|
    requires forall j' :: j < j' < |keys| ==> keys[j'] != keys[j]
    ensures keys[j] in ToDict(keys, values) && ToDict(keys, values)[keys[j]] == values[j]
  {
    var n := |keys| - 1;
    if j < n {
      ToDictValue(keys[..n], values[..n], j);
    }
  }

  /** [dict(zip(aus, frame)) for frame in zip(*cols)] */
  function Records(aus: seq<string>, cols: seq<seq<int>>): seq<map<string, int>>
    requires |cols| == |aus|
  {
    var rows := Zip(cols);
    seq(|rows|, i requires 0 <= i < |rows| => ToDict(aus, rows[i]))
  }

  /** The per-frame records of a subject, or the exception reading its label files raises. */
  function AlignLabels(src: AuSource, person: string): Result<seq<map<string, int>>> {
    match SortedAus(src.listing)
    case Err(e) => Err(e)
    case Ok(aus) =>
      match Columns(aus, person, src)
      case Err(e) => Err(e)
      case Ok(cols) => Ok(Records(aus, cols))
  }

  /** Records has one record per row of the zip, each keyed by every action unit. */
  lemma RecordsShape(aus: seq<string>, cols: seq<seq<int>>)
    requires |cols| == |aus|
    ensures |Records(aus, cols)| == MinLength(cols)
    ensures forall i :: 0 <= i < |Records(aus, cols)| ==> Records(aus, cols)[i].Keys == set a | a in aus
  {
    var rows := Zip(cols);
    forall i | 0 <= i < |rows| ensures Records(aus, cols)[i].Keys == set a | a in aus {
      ToDictKeys(aus, rows[i]);
    }
  }

  /** Record i maps the action unit of column j to entry i of that column, unless a later column has the same name. */
  lemma RecordsValue(aus: seq<string>, cols: seq<seq<int>>, i: nat, j: nat)
    requires |cols| == |aus|
    requires i < MinLength(cols) && j < |aus|
    requires forall j' :: j < j' < |aus| ==> aus[j'] != aus[j]
    ensures i < |Records(aus, cols)| && aus[j] in Records(aus, cols)[i]
    ensures Records(aus, cols)[i][aus[j]] == cols[j][i]
  {
    var rows := Zip(cols);
    ToDictValue(aus, rows[i], j);
  }

  /**
   * Alignment, counts: there are as many records as the shortest label
   * file has lines (zip stops at the shortest), and none without files.
   */
  lemma AlignmentCount(src: AuSource, person: string)
    requires AlignLabels(src, person).Ok?
    ensures SortedAus(src.listing).Ok?
    ensures var aus := SortedAus(src.listing).value;
            var recs := AlignLabels(src, person).value;
            (forall j :: 0 <= j < |aus| ==> AuFile(person, aus[j]) in src.contents) &&
            (forall j :: 0 <= j < |aus| ==> |recs| <= |LinesOf(src, person, aus[j])|) &&
            (|aus| == 0 ==> |recs| == 0) &&
            (|aus| > 0 ==> exists j :: 0 <= j < |aus| && |recs| == |LinesOf(src, person, aus[j])|)
  {
    var aus := SortedAus(src.listing).value;
    var cols := Columns(aus, person, src).value;
    RecordsShape(aus, cols);
    assert forall j :: 0 <= j < |aus| ==> Readable(src, person, aus[j]);
    forall j | 0 <= j < |aus| ensures |cols[j]| == |LinesOf(src, person, aus[j])| {
      assert Column(LinesOf(src, person, aus[j])) == Ok(cols[j]);
    }
    if |aus| > 0 {
      var j :| 0 <= j < |cols| && MinLength(cols) == |cols[j]|;
      assert |AlignLabels(src, person).value| == |LinesOf(src, person, aus[j])|;
    }
  }

  /**
   * Alignment, contents: every record has every action unit as a key, and
   * record i maps an action unit to the intensity on line i of its file
   * (for a name listed twice, the later file's).
   */
  lemma AlignmentValues(src: AuSource, person: string, i: nat, j: nat)
    requires AlignLabels(src, person).Ok?
    requires i < |AlignLabels(src, person).value|
    ensures SortedAus(src.listing).Ok?
    ensures AlignLabels(src, person).value[i].Keys == set a | a in SortedAus(src.listing).value
    ensures var aus := SortedAus(src.listing).value;
            var rec := AlignLabels(src, person).value[i];
            j < |aus| && (forall j' :: j < j' < |aus| ==> aus[j'] != aus[j]) ==>
              AuFile(person, aus[j]) in src.contents && i < |LinesOf(src, person, aus[j])| &&
              Intensity(LinesOf(src, person, aus[j])[i]) == Ok(rec[aus[j]])
  {
    var aus := SortedAus(src.listing).value;
    var cols := Columns(aus, person, src).value;
    RecordsShape(aus, cols);
    if j < |aus| && (forall j' :: j < j' < |aus| ==> aus[j'] != aus[j]) {
      RecordsValue(aus, cols, i, j);
      assert Readable(src, person, aus[j]);
      assert Column(LinesOf(src, person, aus[j])) == Ok(cols[j]);
    }
  }

  /** Reading the label files fails iff a name's number is not an integer, a file is missing, or a line is malformed. */
  lemma AlignLabelsFails(src: AuSource, person: string)
    ensures AlignLabels(src, person).Ok? <==>
      SortedAus(src.listing).Ok? &&
      forall j :: 0 <= j < |SortedAus(src.listing).value| ==> Readable(src, person, SortedAus(src.listing).value[j])
  {
  }

  // ------------------------------------------------------------ saving

  /** np.save of record i under index i, for every record in order. */
  function SaveLabels(files: map<Path, Blob>, person: string, records: seq<map<string, int>>): map<Path, Blob>
    decreases |records|
  {
    if |records| == 0 then files
    else
      var n := |records| - 1;
      SaveLabels(files, person, records[..n])[Path(Label, person, n) := Record(records[n])]
  }

  /** Records are saved under indices 0 .. count - 1 of the subject's label directory, and no other file changes. */
  lemma {:induction false} SavedLabels(files: map<Path, Blob>, person: string, records: seq<map<string, int>>, p: Path)
    ensures var r := SaveLabels(files, person, records);
            (p.kind == Label && p.person == person && p.index < |records| ==>
               p in r && r[p] == Record(records[p.index])) &&
            (!(p.kind == Label && p.person == person && p.index < |records|) ==> Agree(r, files, p))
    decreases |records|
  {
    if |records| > 0 {
      var n := |records| - 1;
      SavedLabels(files, person, records[..n], p);
    }
  }

  /** The loop `for au in aus` opening and parsing each label file in turn. */
  method ReadColumns(aus: seq<string>, person: string, src: AuSource) returns (r: Result<seq<seq<int>>>)
    ensures r == Columns(aus, person, src)
  {
    var allAu: seq<seq<int>> := [];
    var k := 0;
    while k < |aus|
      invariant 0 <= k <= |aus|
      invariant Columns(aus[..k], person, src) == Ok(allAu)
    {
      assert aus[..k + 1][..k] == aus[..k];
      var path := AuFile(person, aus[k]);
      if path !in src.contents {
        ColumnsFailEarly(aus, person, src, k + 1);
        return Err(FileNotFound(path));
      }
      var column := Column(src.contents[path]);
      if column.Err? {
        ColumnsFailEarly(aus, person, src, k + 1);
        return Err(column.error);
      }
      allAu := allAu + [column.value];
      k := k + 1;
    }
    assert aus[..k] == aus;
    return Ok(allAu);
  }

  /** The loop `for i, file_ in enumerate(au_per_frame)` saving record i under index i. */
  method SaveRecords(disk: Disk, person: string, records: seq<map<string, int>>)
    modifies disk
    ensures disk.files == SaveLabels(old(disk.files), person, records)
    ensures disk.status == old(disk.status)
  {
    var i := 0;
    while i < |records|
      invariant 0 <= i <= |records|
      invariant disk.files == SaveLabels(old(disk.files), person, records[..i])
      invariant disk.status == old(disk.status)
    {
      assert records[..i + 1][..i] == records[..i];
      disk.Save(Path(Label, person, i), Record(records[i]));
      i := i + 1;
    }
    assert records[..i] == records;
  }

  /**
   * read_save_action_units: parses the label files and saves one record
   * per frame index; an exception leaves the cache untouched.
   */
  method ReadSaveActionUnits(disk: Disk, src: AuSource, person: string) returns (r: Result<()>)
    modifies disk
    ensures var aligned := AlignLabels(src, person);
            r == (if aligned.Ok? then Ok(()) else Err(aligned.error)) &&
            disk.files == (if aligned.Ok? then SaveLabels(old(disk.files), person, aligned.value) else old(disk.files))
    ensures disk.status == old(disk.status)
  {
    var sorted := SortedAus(src.listing);
    if sorted.Err? {
      return Err(sorted.error);
    }
    var aus := sorted.value;
    var columns := ReadColumns(aus, person, src);
    if columns.Err? {
      return Err(columns.error);
    }
    var records := Records(aus, columns.value);
    SaveRecords(disk, person, records);
    return Ok(());
  }
}
