/**
 * Python's sorted() for the two orders the preprocessing code uses: strings
 * by code points (sorted(os.listdir(...))) and records by an integer key
 * (sorted(..., key=lambda u: int(u[2:]))).
 */
module PySort {

  /** A sort key: an int, or a str compared code point by code point. */
  datatype Key = IntKey(i: int) | StrKey(s: string)

  /** a <= b on Python strings: lexicographic on code points, a prefix first. */
  predicate LexLe(a: string, b: string)
    decreases |a|
  {
    |a| == 0 || (|b| > 0 && (a[0] < b[0] || (a[0] == b[0] && LexLe(a[1..], b[1..]))))
  }

  lemma {:induction false} LexLeTotal(a: string, b: string)
    ensures LexLe(a, b) || LexLe(b, a)
    decreases |a|
  {
    if |a| > 0 && |b| > 0 && a[0] == b[0] {
      LexLeTotal(a[1..], b[1..]);
    }
  }

  lemma {:induction false} LexLeAntisymmetric(a: string, b: string)
    requires LexLe(a, b) && LexLe(b, a)
    ensures a == b
    decreases |a|
  {
    if |a| > 0 {
      LexLeAntisymmetric(a[1..], b[1..]);
      assert a == [a[0]] + a[1..] && b == [b[0]] + b[1..];
    }
  }

  lemma {:induction false} LexLeTransitive(a: string, b: string, c: string)
    requires LexLe(a, b) && LexLe(b, c)
    ensures LexLe(a, c)
    decreases |a|
  {
    if |a| > 0 && a[0] == b[0] && b[0] == c[0] {
      LexLeTransitive(a[1..], b[1..], c[1..]);
    }
  }

  /** The order of keys; ints and strings never meet in one sort, so their relative order is arbitrary. */
  predicate KeyLe(a: Key, b: Key) {
    match (a, b)
    case (IntKey(x), IntKey(y)) => x <= y
    case (StrKey(x), StrKey(y)) => LexLe(x, y)
    case (IntKey(_), StrKey(_)) => true
    case (StrKey(_), IntKey(_)) => false
  }

  lemma KeyLeTotal(a: Key, b: Key)
    ensures KeyLe(a, b) || KeyLe(b, a)
  {
    if a.StrKey? && b.StrKey? {
      LexLeTotal(a.s, b.s);
    }
  }

  lemma KeyLeTransitive(a: Key, b: Key, c: Key)
    requires KeyLe(a, b) && KeyLe(b, c)
    ensures KeyLe(a, c)
  {
    if a.StrKey? && b.StrKey? && c.StrKey? {
      LexLeTransitive(a.s, b.s, c.s);
    }
  }

  /** Neighbours are in key order; with a transitive order, so is every pair. */
  predicate SortedBy<T>(s: seq<T>, key: T -> Key) {
    forall i :: 0 < i < |s| ==> KeyLe(key(s[i - 1]), key(s[i]))
  }

  /** Inserts x into sorted s after every element whose key is not greater. */
  function Insert<T>(x: T, s: seq<T>, key: T -> Key): (r: seq<T>)
    requires SortedBy(s, key)
    ensures multiset(r) == multiset(s) + multiset{x}
    ensures SortedBy(r, key)
    ensures |r| == |s| + 1
    ensures |s| > 0 ==> r[0] == x || r[0] == s[0]
  {
    if |s| == 0 then [x]
    else if !KeyLe(key(s[0]), key(x)) then
      KeyLeTotal(key(x), key(s[0]));
      [x] + s
    else
      assert s == [s[0]] + s[1..];
      [s[0]] + Insert(x, s[1..], key)
  }

  /** sorted(s, key=key): a permutation of s in key order. */
  function Sort<T>(s: seq<T>, key: T -> Key): (r: seq<T>)
    ensures multiset(r) == multiset(s)
    ensures |r| == |s|
    ensures SortedBy(r, key)
  {
    if |s| == 0 then []
    else
      assert s == s[..|s| - 1] + [s[|s| - 1]];
      Insert(s[|s| - 1], Sort(s[..|s| - 1], key), key)
  }

  /** In a sorted sequence under a transitive order, every earlier key is at most every later one. */
  lemma {:induction false} SortedAllPairs<T>(s: seq<T>, key: T -> Key, i: int, j: int)
    requires SortedBy(s, key)
    requires 0 <= i <= j < |s|
    ensures KeyLe(key(s[i]), key(s[j]))
    decreases j - i
  {
    if i == j {
      KeyLeTotal(key(s[i]), key(s[i]));
    } else {
      SortedAllPairs(s, key, i, j - 1);
      KeyLeTransitive(key(s[i]), key(s[j - 1]), key(s[j]));
    }
  }

  /** The string key of a name: the name itself. */
  function NameKey(name: string): Key {
    StrKey(name)
  }

  /** sorted() on a list of strings. */
  function SortNames(names: seq<string>): (r: seq<string>)
    ensures multiset(r) == multiset(names)
    ensures forall i, j :: 0 <= i <= j < |r| ==> LexLe(r[i], r[j])
  {
    var r := Sort(names, NameKey);
    forall i, j | 0 <= i <= j < |r| ensures LexLe(r[i], r[j]) {
      SortedAllPairs(r, NameKey, i, j);
    }
    r
  }

  /**
   * Two string sequences in order with the same elements are equal: the
   * sorted listing does not depend on the order os.listdir returned.
   */
  lemma {:induction false} SortedNamesUnique(a: seq<string>, b: seq<string>)
    requires multiset(a) == multiset(b)
    requires forall i, j :: 0 <= i <= j < |a| ==> LexLe(a[i], a[j])
    requires forall i, j :: 0 <= i <= j < |b| ==> LexLe(b[i], b[j])
    ensures a == b
    decreases |a|
  {
    assert |a| == |multiset(a)| == |b|;
    if |a| > 0 {
      assert a[0] in multiset(b);
      var j :| 0 <= j < |b| && b[j] == a[0];
      assert b[0] in multiset(a);
      var i :| 0 <= i < |a| && a[i] == b[0];
      assert LexLe(a[0], a[i]) && LexLe(b[0], b[j]);
      LexLeAntisymmetric(a[0], b[0]);
      MultisetTail(a, b);
      LexSortedTail(a);
      LexSortedTail(b);
      SortedNamesUnique(a[1..], b[1..]);
      assert a == [a[0]] + a[1..] && b == [b[0]] + b[1..];
    }
  }

  /** Dropping the same first element from two lists with the same elements leaves the same elements. */
  lemma MultisetTail(a: seq<string>, b: seq<string>)
    requires multiset(a) == multiset(b) && |a| > 0 && |b| > 0 && a[0] == b[0]
    ensures multiset(a[1..]) == multiset(b[1..])
  {
    assert a == [a[0]] + a[1..] && b == [b[0]] + b[1..];
    assert multiset(a) == multiset{a[0]} + multiset(a[1..]);
    assert multiset(b) == multiset{b[0]} + multiset(b[1..]);
    assert multiset(a[1..]) == multiset(a) - multiset{a[0]};
    assert multiset(b[1..]) == multiset(b) - multiset{b[0]};
  }

  /** The tail of a list in code-point order is in code-point order. */
  lemma LexSortedTail(s: seq<string>)
    requires |s| > 0
    requires forall i, j :: 0 <= i <= j < |s| ==> LexLe(s[i], s[j])
    ensures forall i, j :: 0 <= i <= j < |s[1..]| ==> LexLe(s[1..][i], s[1..][j])
  {
    forall i, j | 0 <= i <= j < |s[1..]| ensures LexLe(s[1..][i], s[1..][j]) {
      assert s[1..][i] == s[i + 1] && s[1..][j] == s[j + 1];
    }
  }

  /** sorted(os.listdir(d)) is the same whatever order the listing came in. */
  lemma SortNamesDeterministic(a: seq<string>, b: seq<string>)
    requires multiset(a) == multiset(b)
    ensures SortNames(a) == SortNames(b)
  {
    SortedNamesUnique(SortNames(a), SortNames(b));
  }
}
