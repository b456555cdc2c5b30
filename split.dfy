/**
 * The cross-validation split of the subjects (split_persons): the shuffled
 * subject list is cut into folds of len(persons) // sum(folds) subjects;
 * the test block starts at fold current_fold and spans folds[1] folds, and
 * every other subject is a training subject.
 */
module PersonSplit {
  import opened Wrappers
  import opened PyStr

  datatype Split = Split(train: seq<string>, test: seq<string>)

  /** Python's sum over a list of ints. */
  function Sum(xs: seq<int>): int
    decreases |xs|
  {
    if |xs| == 0 then 0 else Sum(xs[..|xs| - 1]) + xs[|xs| - 1]
  }

  /** [p for p in persons if p not in test], in the order of persons. */
  function Without(persons: seq<string>, test: seq<string>): (r: seq<string>)
    ensures forall p :: p in r <==> p in persons && p !in test
    ensures |r| <= |persons|
    decreases |persons|
  {
    if |persons| == 0 then []
    else (if persons[0] in test then [] else [persons[0]]) + Without(persons[1..], test)
  }

  /** No two positions of s hold the same subject, as for the names of one directory listing. */
  predicate Distinct(s: seq<string>) {
    forall i, j :: 0 <= i < j < |s| ==> s[i] != s[j]
  }

  /**
   * split_persons, given the list after np.random.shuffle: sum(folds) is
   * taken first (ZeroDivisionError when it is zero), then folds[1] (an
   * IndexError when there is no such fold).
   */
  function SplitPersons(shuffled: seq<string>, folds: seq<int>, currentFold: int): (r: Result<Split>)
    ensures r.Err? <==> Sum(folds) == 0 || |folds| < 2
    ensures Sum(folds) == 0 ==> r == Err(ZeroDivisionError)
    ensures Sum(folds) != 0 && |folds| < 2 ==> r == Err(IndexError)
  {
    var total := Sum(folds);
    if total == 0 then Err(ZeroDivisionError)
    else
      var perFold := FloorDiv(|shuffled|, total);
      match PyIndex(folds, 1)
      case Err(e) => Err(e)
      case Ok(testFolds) =>
        var start := currentFold * perFold;
        var test := PySlice(shuffled, start, start + perFold * testFolds);
        Ok(Split(Without(shuffled, test), test))
  }

  /** The bounds of the test block within the shuffled list, once Python has normalised them. */
  function TestBlock(n: nat, folds: seq<int>, currentFold: int): (b: (nat, nat))
    requires Sum(folds) != 0 && |folds| >= 2
    ensures b.0 <= b.1 <= n
  {
    var perFold := FloorDiv(n, Sum(folds));
    var start := currentFold * perFold;
    var lo := SliceBound(start, n);
    var hi := SliceBound(start + perFold * folds[1], n);
    (lo, if lo < hi then hi else lo)
  }

  /** The test set is one contiguous block of the shuffled list; nobody is in both sets and nobody is lost. */
  lemma SplitPartition(shuffled: seq<string>, folds: seq<int>, currentFold: int)
    requires SplitPersons(shuffled, folds, currentFold).Ok?
    ensures var s := SplitPersons(shuffled, folds, currentFold).value;
            var (lo, hi) := TestBlock(|shuffled|, folds, currentFold);
            s.test == shuffled[lo..hi] &&
            (forall p :: p in s.train ==> p !in s.test) &&
            (forall p :: p in shuffled <==> p in s.train || p in s.test)
  {
    var s := SplitPersons(shuffled, folds, currentFold).value;
    var (lo, hi) := TestBlock(|shuffled|, folds, currentFold);
    assert s.test == shuffled[lo..hi];
    forall p | p in s.test ensures p in shuffled {
      var k :| 0 <= k < |s.test| && s.test[k] == p;
      assert shuffled[lo + k] == p;
    }
  }

  lemma {:induction false} WithoutConcat(a: seq<string>, b: seq<string>, t: seq<string>)
    ensures Without(a + b, t) == Without(a, t) + Without(b, t)
    decreases |a|
  {
    if |a| == 0 {
      assert a + b == b;
    } else {
      assert (a + b)[0] == a[0];
      assert (a + b)[1..] == a[1..] + b;
      WithoutConcat(a[1..], b, t);
    }
  }

  lemma {:induction false} WithoutKeeps(x: seq<string>, t: seq<string>)
    requires forall i :: 0 <= i < |x| ==> x[i] !in t
    ensures Without(x, t) == x
    decreases |x|
  {
    if |x| > 0 {
      WithoutKeeps(x[1..], t);
    }
  }

  lemma {:induction false} WithoutDrops(x: seq<string>, t: seq<string>)
    requires forall i :: 0 <= i < |x| ==> x[i] in t
    ensures Without(x, t) == []
    decreases |x|
  {
    if |x| > 0 {
      WithoutDrops(x[1..], t);
    }
  }

  /**
   * For distinct subjects the training set is the shuffled list with the
   * test block cut out, in shuffled order; the two sets together hold every
   * subject exactly once.
   */
  lemma TrainIsComplement(shuffled: seq<string>, folds: seq<int>, currentFold: int)
    requires Distinct(shuffled)
    requires SplitPersons(shuffled, folds, currentFold).Ok?
    ensures var s := SplitPersons(shuffled, folds, currentFold).value;
            var (lo, hi) := TestBlock(|shuffled|, folds, currentFold);
            s.train == shuffled[..lo] + shuffled[hi..] &&
            |s.train| + |s.test| == |shuffled| &&
            multiset(s.train) + multiset(s.test) == multiset(shuffled)
  {
    var s := SplitPersons(shuffled, folds, currentFold).value;
    var (lo, hi) := TestBlock(|shuffled|, folds, currentFold);
    var before, block, after := shuffled[..lo], shuffled[lo..hi], shuffled[hi..];
    assert s.test == block;
    assert shuffled == before + block + after;
    OutsideBlock(shuffled, lo, hi);
    forall i | 0 <= i < |block| ensures block[i] in block {
    }
    WithoutConcat(before + block, after, block);
    WithoutConcat(before, block, block);
    WithoutKeeps(before, block);
    WithoutDrops(block, block);
    WithoutKeeps(after, block);
    assert before + [] == before;
    assert s.train == before + after;
  }

  /** In a list without repetitions, nothing before or after a block occurs in the block. */
  lemma OutsideBlock(shuffled: seq<string>, lo: nat, hi: nat)
    requires Distinct(shuffled) && lo <= hi <= |shuffled|
    ensures forall i :: 0 <= i < lo ==> shuffled[..lo][i] !in shuffled[lo..hi]
    ensures forall i :: 0 <= i < |shuffled| - hi ==> shuffled[hi..][i] !in shuffled[lo..hi]
  {
    var block := shuffled[lo..hi];
    forall i, k | 0 <= i < lo && 0 <= k < |block| ensures block[k] != shuffled[..lo][i] {
      assert block[k] == shuffled[lo + k];
    }
    forall i, k | 0 <= i < |shuffled| - hi && 0 <= k < |block| ensures block[k] != shuffled[hi..][i] {
      assert block[k] == shuffled[lo + k] && shuffled[hi..][i] == shuffled[hi + i];
    }
  }

  /** With non-negative block bounds the test set has min(perFold * folds[1], max(0, n - start)) subjects. */
  lemma TestSize(shuffled: seq<string>, folds: seq<int>, currentFold: int)
    requires SplitPersons(shuffled, folds, currentFold).Ok?
    requires var perFold := FloorDiv(|shuffled|, Sum(folds));
             currentFold * perFold >= 0 && perFold * folds[1] >= 0
    ensures var perFold := FloorDiv(|shuffled|, Sum(folds));
            var start, want := currentFold * perFold, perFold * folds[1];
            |SplitPersons(shuffled, folds, currentFold).value.test|
              == if want < |shuffled| - start then want else if |shuffled| - start < 0 then 0 else |shuffled| - start
  {
    var perFold := FloorDiv(|shuffled|, Sum(folds));
    var start := currentFold * perFold;
    PySliceLength(shuffled, start, start + perFold * folds[1]);
  }

  /**
   * Two positive fold weights [a, b] and a current fold 0 <= c <= a: the
   * test block is exactly (n // (a + b)) * b subjects, and for distinct
   * subjects the remaining n - (n // (a + b)) * b, rounding remainder
   * included, are training subjects.
   */
  lemma TwoFoldSizes(shuffled: seq<string>, a: int, b: int, currentFold: int)
    requires 0 < a && 0 < b && 0 <= currentFold <= a
    ensures SplitPersons(shuffled, [a, b], currentFold).Ok?
    ensures var s := SplitPersons(shuffled, [a, b], currentFold).value;
            var perFold := |shuffled| / (a + b);
            |s.test| == perFold * b &&
            (Distinct(shuffled) ==> |s.train| == perFold * a + |shuffled| % (a + b))
  {
    var folds := [a, b];
    assert folds[..1] == [a];
    assert [a][..0] == [];
    assert Sum([a]) == a;
    assert Sum(folds) == Sum([a]) + b;
    var n := |shuffled|;
    var perFold := n / (a + b);
    assert FloorDiv(n, Sum(folds)) == perFold;
    BlockFits(n, a, b, currentFold);
    TestSize(shuffled, folds, currentFold);
    if Distinct(shuffled) {
      TrainIsComplement(shuffled, folds, currentFold);
    }
  }

  /** The arithmetic of a two-weight split: fold c's block lies inside the list and the rest is n - perFold * b. */
  lemma BlockFits(n: nat, a: int, b: int, c: int)
    requires 0 < a && 0 < b && 0 <= c <= a
    ensures var perFold := n / (a + b);
            0 <= c * perFold && 0 <= perFold * b && c * perFold + perFold * b <= n &&
            n - perFold * b == perFold * a + n % (a + b)
  {
    var perFold := n / (a + b);
    assert perFold >= 0;
    assert c * perFold <= a * perFold by {
      assert (a - c) * perFold >= 0;
    }
    assert perFold * (a + b) == perFold * a + perFold * b;
    assert n == perFold * (a + b) + n % (a + b);
  }

  /** The default folds [2, 1] with fold 0: the first third (rounded down) is tested, the rest trained on. */
  lemma DefaultSplit(shuffled: seq<string>)
    requires Distinct(shuffled)
    ensures SplitPersons(shuffled, [2, 1], 0).Ok?
    ensures var s := SplitPersons(shuffled, [2, 1], 0).value;
            s.test == shuffled[..|shuffled| / 3] && s.train == shuffled[|shuffled| / 3..]
  {
    TwoFoldSizes(shuffled, 2, 1, 0);
    SplitPartition(shuffled, [2, 1], 0);
    TrainIsComplement(shuffled, [2, 1], 0);
    var (lo, hi) := TestBlock(|shuffled|, [2, 1], 0);
    assert lo == 0 && hi == |shuffled| / 3;
    assert shuffled[..0] + shuffled[hi..] == shuffled[hi..];
  }
}
