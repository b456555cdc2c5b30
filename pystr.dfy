/**
 * The Python string and integer built-ins the preprocessing code relies on:
 * str.strip(), str.split(sep), int(str), str(int), the `:04d` format,
 * slicing with clamped and negative bounds, list indexing and floor division.
 */
module PyStr {
  import opened Wrappers

  // ---------------------------------------------------------------- whitespace

  /** str.isspace() restricted to the ASCII range: \t \n \v \f \r, \x1c-\x1f and space. */
  predicate IsSpace(c: char) {
    var k := c as int;
    (9 <= k <= 13) || (28 <= k <= 32)
  }

  /** The number of whitespace characters at the front of s. */
  function LeadingSpaces(s: string): (n: nat)
    ensures n <= |s|
    ensures forall k :: 0 <= k < n ==> IsSpace(s[k])
    ensures n < |s| ==> !IsSpace(s[n])
  {
    if |s| == 0 || !IsSpace(s[0]) then 0 else 1 + LeadingSpaces(s[1..])
  }

  /** The number of whitespace characters at the back of s. */
  function TrailingSpaces(s: string): (n: nat)
    ensures n <= |s|
    ensures forall k :: |s| - n <= k < |s| ==> IsSpace(s[k])
    ensures n < |s| ==> !IsSpace(s[|s| - 1 - n])
  {
    if |s| == 0 || !IsSpace(s[|s| - 1]) then 0 else 1 + TrailingSpaces(s[..|s| - 1])
  }

  /**
   * s.strip(): the infix of s left after removing whitespace at both ends.
   * What remains neither starts nor ends with whitespace, and everything
   * removed was whitespace.
   */
  function Strip(s: string): (r: string)
    ensures LeadingSpaces(s) + |r| <= |s|
    ensures r == s[LeadingSpaces(s)..LeadingSpaces(s) + |r|]
    ensures |r| > 0 ==> !IsSpace(r[0]) && !IsSpace(r[|r| - 1])
    ensures forall k :: 0 <= k < |s| && !(LeadingSpaces(s) <= k < LeadingSpaces(s) + |r|) ==> IsSpace(s[k])
  {
    var t := s[LeadingSpaces(s)..];
    t[..|t| - TrailingSpaces(t)]
  }

  /** A string that neither starts nor ends with whitespace is its own strip. */
  lemma StripUnpadded(s: string)
    requires |s| > 0 ==> !IsSpace(s[0]) && !IsSpace(s[|s| - 1])
    ensures Strip(s) == s
  {
    if |s| > 0 {
      assert LeadingSpaces(s) == 0;
      assert TrailingSpaces(s) == 0;
    }
  }

  /** strip() is idempotent. */
  lemma StripIdempotent(s: string)
    ensures Strip(Strip(s)) == Strip(s)
  {
    StripUnpadded(Strip(s));
  }

  /** Removing a trailing newline, as readlines() leaves it, is part of strip(). */
  lemma StripLine(s: string)
    requires |s| > 0 && !IsSpace(s[0]) && !IsSpace(s[|s| - 1])
    ensures Strip(s + "\n") == s
  {
    var t := s + "\n";
    assert LeadingSpaces(t) == 0;
    assert t[..|t| - 1] == s;
    assert TrailingSpaces(t) == 1;
  }

  // ---------------------------------------------------------------- split

  /** s.split(sep) for a one-character separator: the fields between separators. */
  function Split(s: string, sep: char): (r: seq<string>)
    ensures |r| >= 1
    ensures forall f :: f in r ==> sep !in f
  {
    if |s| == 0 then [""]
    else
      var rest := Split(s[1..], sep);
      if s[0] == sep then [""] + rest
      else [[s[0]] + rest[0]] + rest[1..]
  }

  /** sep.join(fs). */
  function Join(fs: seq<string>, sep: char): string
    requires |fs| >= 1
  {
    if |fs| == 1 then fs[0] else fs[0] + [sep] + Join(fs[1..], sep)
  }

  /** Joining the fields of a split gives the string back. */
  lemma {:induction false} JoinSplit(s: string, sep: char)
    ensures Join(Split(s, sep), sep) == s
  {
    if |s| > 0 {
      var rest := Split(s[1..], sep);
      JoinSplit(s[1..], sep);
      if s[0] == sep {
        assert ([""] + rest)[1..] == rest;
      } else {
        var fs := [[s[0]] + rest[0]] + rest[1..];
        if |rest| == 1 {
          assert fs == [[s[0]] + rest[0]];
        } else {
          assert fs[1..] == rest[1..];
          assert Join(rest, sep) == rest[0] + [sep] + Join(rest[1..], sep);
        }
      }
    }
  }

  /** Prepending separator-free text a extends the first field. */
  lemma {:induction false} SplitPrefix(a: string, rest: string, sep: char)
    requires sep !in a
    ensures Split(a + rest, sep) == [a + Split(rest, sep)[0]] + Split(rest, sep)[1..]
  {
    var r := Split(rest, sep);
    if |a| > 0 {
      var s := a + rest;
      assert s[0] == a[0] && s[0] != sep;
      assert s[1..] == a[1..] + rest;
      assert sep !in a[1..] by {
        assert forall k :: 0 <= k < |a[1..]| ==> a[1..][k] == a[k + 1];
      }
      SplitPrefix(a[1..], rest, sep);
      var tail := Split(a[1..] + rest, sep);
      assert Split(s, sep) == [[s[0]] + tail[0]] + tail[1..];
      assert tail[0] == a[1..] + r[0] && tail[1..] == r[1..];
      assert [a[0]] + (a[1..] + r[0]) == a + r[0];
    } else {
      assert a + rest == rest;
      assert a + r[0] == r[0];
      assert r == [r[0]] + r[1..];
    }
  }

  lemma {:induction false} SplitJoin(fs: seq<string>, sep: char)
    requires |fs| >= 1
    requires forall k :: 0 <= k < |fs| ==> sep !in fs[k]
    ensures Split(Join(fs, sep), sep) == fs
  {
    if |fs| == 1 {
      SplitPrefix(fs[0], "", sep);
      assert fs[0] + "" == fs[0];
      assert Split("", sep) == [""];
    } else {
      var tail := Join(fs[1..], sep);
      SplitJoin(fs[1..], sep);
      SplitPrefix(fs[0], [sep] + tail, sep);
      assert fs[0] + [sep] + tail == fs[0] + ([sep] + tail);
      assert ([sep] + tail)[1..] == tail;
      assert Split([sep] + tail, sep) == [""] + fs[1..];
      assert fs[0] + "" == fs[0];
      assert fs == [fs[0]] + fs[1..];
    }
  }

  /** A second field exists exactly when the separator occurs. */
  lemma SplitHasSecondField(s: string, sep: char)
    ensures |Split(s, sep)| >= 2 <==> sep in s
  {
    JoinSplit(s, sep);
    if sep !in s {
      SplitJoin([s], sep);
    }
  }

  // ---------------------------------------------------------------- digits

  predicate IsDigit(c: char) {
    '0' <= c <= '9'
  }

  predicate AllDigits(s: string) {
    forall k :: 0 <= k < |s| ==> IsDigit(s[k])
  }

  function DigitValue(c: char): (d: nat)
    requires IsDigit(c)
    ensures d < 10
  {
    (c as int) - ('0' as int)
  }

  function Digit(d: nat): (c: char)
    requires d < 10
    ensures IsDigit(c) && DigitValue(c) == d
  {
    (('0' as int) + d) as char
  }

  /** The value of a string of decimal digits, most significant first. */
  function DigitsValue(s: string): nat
    requires AllDigits(s)
  {
    if |s| == 0 then 0 else 10 * DigitsValue(s[..|s| - 1]) + DigitValue(s[|s| - 1])
  }

  /** str(n) for a natural number n: its shortest decimal representation. */
  function Decimal(n: nat): (s: string)
    ensures |s| >= 1 && AllDigits(s)
    ensures |s| > 1 ==> s[0] != '0'
  {
    if n < 10 then [Digit(n)] else Decimal(n / 10) + [Digit(n % 10)]
  }

  lemma {:induction false} DecimalValue(n: nat)
    ensures DigitsValue(Decimal(n)) == n
  {
    if n >= 10 {
      var s := Decimal(n);
      assert s[..|s| - 1] == Decimal(n / 10);
      DecimalValue(n / 10);
    }
  }

  /** A number below 10000 has at most four digits. */
  lemma DecimalBelow10000(n: nat)
    requires n < 10000
    ensures |Decimal(n)| <= 4
  {
    if n >= 10 {
      assert |Decimal(n)| == |Decimal(n / 10)| + 1;
      if n / 10 >= 10 {
        assert |Decimal(n / 10)| == |Decimal(n / 100)| + 1;
        if n / 100 >= 10 {
          assert n / 100 / 10 < 10;
        }
      }
    }
  }

  /** str(i) for any integer i. */
  function IntToString(i: int): (s: string)
    ensures |s| >= 1
  {
    if i < 0 then "-" + Decimal(-i) else Decimal(i)
  }

  function Zeros(k: nat): (s: string)
    ensures |s| == k
    ensures forall j :: 0 <= j < k ==> s[j] == '0'
  {
    seq(k, _ => '0')
  }

  /** f"{n:04d}" for a natural number n: at least four digits, padded with zeros. */
  function ZeroPad4(n: nat): (s: string)
    ensures AllDigits(s)
    ensures |s| == if |Decimal(n)| < 4 then 4 else |Decimal(n)|
  {
    var d := Decimal(n);
    if |d| < 4 then Zeros(4 - |d|) + d else d
  }

  lemma {:induction false} ZerosValue(k: nat)
    ensures DigitsValue(Zeros(k)) == 0
  {
    if k > 0 {
      assert Zeros(k)[..k - 1] == Zeros(k - 1);
      ZerosValue(k - 1);
    }
  }

  /** Leading zeros do not change the value of a digit string. */
  lemma {:induction false} LeadingZerosValue(k: nat, s: string)
    requires AllDigits(s)
    ensures AllDigits(Zeros(k) + s)
    ensures DigitsValue(Zeros(k) + s) == DigitsValue(s)
    decreases |s|
  {
    var t := Zeros(k) + s;
    if |s| == 0 {
      assert t == Zeros(k);
      ZerosValue(k);
    } else {
      assert t[..|t| - 1] == Zeros(k) + s[..|s| - 1];
      LeadingZerosValue(k, s[..|s| - 1]);
    }
  }

  /** The padded index denotes the index: reading it back gives n. */
  lemma ZeroPad4Value(n: nat)
    ensures DigitsValue(ZeroPad4(n)) == n
  {
    DecimalValue(n);
    var d := Decimal(n);
    if |d| < 4 {
      LeadingZerosValue(4 - |d|, d);
    }
  }

  /** Below 10000 the padded index is exactly four characters long. */
  lemma ZeroPad4Length(n: nat)
    requires n < 10000
    ensures |ZeroPad4(n)| == 4
  {
    DecimalBelow10000(n);
  }

  /** Distinct indices get distinct padded forms. */
  lemma ZeroPad4Injective(m: nat, n: nat)
    requires ZeroPad4(m) == ZeroPad4(n)
    ensures m == n
  {
    ZeroPad4Value(m);
    ZeroPad4Value(n);
  }

  // ---------------------------------------------------------------- int()

  /** An optional sign followed by at least one ASCII digit, read as an integer. */
  function ParseSigned(t: string): Option<int>
  {
    if |t| == 0 then None
    else
      var d := if t[0] == '+' || t[0] == '-' then t[1..] else t;
      if |d| > 0 && AllDigits(d) then
        var v: int := DigitsValue(d);
        Some(if t[0] == '-' then -v else v)
      else None
  }

  /**
   * int(s) for a str: surrounding whitespace, an optional sign and at least
   * one ASCII digit; anything else raises ValueError (None here).
   */
  function ParseInt(s: string): Option<int>
  {
    ParseSigned(Strip(s))
  }

  /** The signed-digits reader accepts exactly a sign of "", "+" or "-" followed by digits. */
  lemma ParseSignedAccepts(t: string)
    ensures ParseSigned(t).Some? <==>
      exists sign, d :: sign in {"", "+", "-"} && |d| > 0 && AllDigits(d) && t == sign + d
  {
    if exists sign, d :: sign in {"", "+", "-"} && |d| > 0 && AllDigits(d) && t == sign + d {
      var sign, d :| sign in {"", "+", "-"} && |d| > 0 && AllDigits(d) && t == sign + d;
      if sign == "" {
        assert t == d;
        assert IsDigit(t[0]);
      } else {
        assert t[0] == sign[0];
        assert t[1..] == d;
      }
    }
    if ParseSigned(t).Some? {
      if t[0] == '+' || t[0] == '-' {
        assert t == [t[0]] + t[1..];
        assert t == (if t[0] == '+' then "+" else "-") + t[1..];
      } else {
        assert t == "" + t;
      }
    }
  }

  /** int() accepts exactly the strings that strip to a signed run of digits. */
  lemma ParseIntAccepts(s: string)
    ensures ParseInt(s).Some? <==>
      exists sign, d :: sign in {"", "+", "-"} && |d| > 0 && AllDigits(d) && Strip(s) == sign + d
  {
    ParseSignedAccepts(Strip(s));
  }

  /** The signed-digits reader reads back what str() writes. */
  lemma ParseSignedToString(i: int)
    ensures ParseSigned(IntToString(i)) == Some(i)
  {
    var s := IntToString(i);
    if i < 0 {
      DecimalValue(-i);
      assert s[0] == '-' && s[1..] == Decimal(-i);
    } else {
      DecimalValue(i);
      assert s == Decimal(i) && IsDigit(s[0]);
    }
  }

  /** int() reads back what str() writes: int(str(i)) == i. */
  lemma ParseIntToString(i: int)
    ensures ParseInt(IntToString(i)) == Some(i)
  {
    var s := IntToString(i);
    var d := Decimal(if i < 0 then -i else i);
    assert IsDigit(d[|d| - 1]) && s[|s| - 1] == d[|d| - 1];
    assert IsDigit(s[0]) || s[0] == '-';
    StripUnpadded(s);
    ParseSignedToString(i);
  }

  /** int() ignores surrounding whitespace. */
  lemma ParseIntStripped(s: string)
    ensures ParseInt(Strip(s)) == ParseInt(s)
  {
    StripIdempotent(s);
  }

  // ---------------------------------------------------------------- slicing

  /** Python's normalisation of a slice bound against a length n: negative counts from the end, then clamp. */
  function SliceBound(i: int, n: nat): (b: nat)
    ensures b <= n
  {
    if i < 0 then (if i + n < 0 then 0 else i + n) else if i < n then i else n
  }

  /** s[lo:hi] on a Python list or str. */
  function PySlice<T>(s: seq<T>, lo: int, hi: int): seq<T> {
    var a, b := SliceBound(lo, |s|), SliceBound(hi, |s|);
    if a < b then s[a..b] else []
  }

  /** With non-negative bounds a slice has min(hi - lo, max(0, |s| - lo)) elements. */
  lemma PySliceLength<T>(s: seq<T>, lo: int, hi: int)
    requires 0 <= lo <= hi
    ensures |PySlice(s, lo, hi)| == (if hi - lo < |s| - lo then hi - lo else if |s| - lo < 0 then 0 else |s| - lo)
  {
  }

  /** Bounds within the list select exactly the elements between them. */
  lemma PySliceWithin<T>(s: seq<T>, lo: int, hi: int)
    requires 0 <= lo <= hi <= |s|
    ensures PySlice(s, lo, hi) == s[lo..hi]
  {
  }

  /** s[lo:-k] for k > 0 drops the first lo and the last k elements, when there are that many. */
  lemma PySliceCut<T>(s: seq<T>, lo: int, k: int)
    requires 0 <= lo && 0 < k && lo + k <= |s|
    ensures PySlice(s, lo, -k) == s[lo..|s| - k]
  {
  }

  /** s[-k:] for 0 < k <= len(s) is the last k elements. */
  lemma PySliceLast<T>(s: seq<T>, k: int)
    requires 0 < k <= |s|
    ensures PySlice(s, -k, |s|) == s[|s| - k..]
  {
  }

  /** An upper bound past the end is the same as the end. */
  lemma PySliceClampsHigh<T>(s: seq<T>, lo: int, hi: int)
    requires hi >= |s|
    ensures PySlice(s, lo, hi) == PySlice(s, lo, |s|)
  {
  }

  /** s[i] on a Python list: negative indices count from the end, anything else raises IndexError. */
  function PyIndex<T>(s: seq<T>, i: int): (r: Result<T>)
    ensures r.Ok? <==> -|s| <= i < |s|
  {
    if 0 <= i < |s| then Ok(s[i]) else if -|s| <= i < 0 then Ok(s[|s| + i]) else Err(IndexError)
  }

  /** A negative index i - len(s) reads the same element as i. */
  lemma PyIndexFromEnd<T>(s: seq<T>, i: int)
    requires 0 <= i < |s|
    ensures PyIndex(s, i - |s|) == PyIndex(s, i) == Ok(s[i])
  {
  }

  /** An index outside -len(s) .. len(s) - 1 raises IndexError. */
  lemma PyIndexOutOfRange<T>(s: seq<T>, i: int)
    requires i < -|s| || |s| <= i
    ensures PyIndex(s, i) == Err(IndexError)
  {
  }

  // ---------------------------------------------------------------- floor division

  /** a // b: the quotient rounded towards minus infinity, for either sign of b. */
  function FloorDiv(a: int, b: int): (q: int)
    requires b != 0
    ensures b > 0 ==> q * b <= a < q * b + b
    ensures b < 0 ==> q * b >= a > q * b + b
  {
    if b > 0 then a / b else (-a) / (-b)
  }
}
