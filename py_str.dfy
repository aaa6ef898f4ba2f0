/**
 * The two Python `str` methods that the country rule is built from:
 * `strip()` with no argument and `split(sep)` with a one-character separator.
 */
module PyStr {

  /** Python's `str.isspace()` on one character: the whitespace set that
      `strip()` with no argument removes. */
  predicate IsSpace(c: char) {
    || ('\t' <= c <= '\r')            // tab, line feed, vertical tab, form feed, carriage return
    || ('\U{1C}' <= c <= ' ')         // file, group, record and unit separators, space
    || c == '\U{85}' || c == '\U{A0}' || c == '\U{1680}'
    || ('\U{2000}' <= c <= '\U{200A}')
    || c == '\U{2028}' || c == '\U{2029}' || c == '\U{202F}' || c == '\U{205F}' || c == '\U{3000}'
  }

  predicate AllSpace(s: string) {
    forall i :: 0 <= i < |s| ==> IsSpace(s[i])
  }

  /** Every character of `s` from index `lo` up to `hi` is whitespace: the
      same as `AllSpace(s[lo..hi])`, in index form so that proofs about the
      strip bounds need not take slices. */
  predicate SpaceBetween(s: string, lo: int, hi: int)
    requires 0 <= lo && hi <= |s|
  {
    forall k :: lo <= k < hi ==> IsSpace(s[k])
  }

  /** Neither end of `s` is whitespace (vacuously true of the empty string). */
  predicate Trimmed(s: string) {
    s == [] || (!IsSpace(s[0]) && !IsSpace(s[|s| - 1]))
  }

  /** Where `s.lstrip()` cuts: the first non-whitespace index at or after `lo`
      (or `|s|` if there is none). */
  function FirstNonSpace(s: string, lo: nat): (i: nat)
    requires lo <= |s|
    ensures lo <= i <= |s| && SpaceBetween(s, lo, i)
    ensures i < |s| ==> !IsSpace(s[i])
    decreases |s| - lo
  {
    if lo < |s| && IsSpace(s[lo]) then FirstNonSpace(s, lo + 1) else lo
  }

  /** Where `s.rstrip()` cuts: the end of the last non-whitespace character
      before `hi`, searching no lower than `lo`. */
  function EndOfNonSpace(s: string, lo: nat, hi: nat): (j: nat)
    requires lo <= hi <= |s|
    ensures lo <= j <= hi && SpaceBetween(s, j, hi)
    ensures j > lo ==> !IsSpace(s[j - 1])
    decreases hi
  {
    if lo < hi && IsSpace(s[hi - 1]) then EndOfNonSpace(s, lo, hi - 1) else hi
  }

  /** `s.strip()`: `s` with its leading and trailing whitespace removed. The
      result is an infix of `s` with only whitespace on either side of it, it
      is trimmed at both ends, and it is empty exactly when `s` is all
      whitespace. */
  function Strip(s: string): (r: string)
    ensures |r| <= |s|
    ensures exists i :: 0 <= i <= |s| - |r| && r == s[i..i + |r|]
                        && AllSpace(s[..i]) && AllSpace(s[i + |r|..])
    ensures Trimmed(r)
    ensures r == [] <==> AllSpace(s)
  {
    var i := FirstNonSpace(s, 0);
    var j := EndOfNonSpace(s, i, |s|);
    StripBounds(s, i, j);
    s[i..j]
  }

  /** The facts `Strip` promises, for the bounds it computes. */
  lemma StripBounds(s: string, i: nat, j: nat)
    requires i == FirstNonSpace(s, 0) && j == EndOfNonSpace(s, i, |s|)
    ensures i <= j <= |s|
    ensures AllSpace(s[..i]) && AllSpace(s[j..])
    ensures Trimmed(s[i..j])
    ensures i == j <==> AllSpace(s)
  {
    if i < j {
      assert !IsSpace(s[i]);
    }
  }

  /** `strip()` leaves a string unchanged exactly when it is already trimmed. */
  lemma StripFixedPoint(s: string)
    ensures Strip(s) == s <==> Trimmed(s)
  {
    if Trimmed(s) {
      assert FirstNonSpace(s, 0) == 0;
      assert EndOfNonSpace(s, 0, |s|) == |s|;
      assert s[0..|s|] == s;
    }
  }

  /** `strip()` is idempotent. */
  lemma StripIdempotent(s: string)
    ensures Strip(Strip(s)) == Strip(s)
  {
    StripFixedPoint(Strip(s));
  }

  /** `FirstNonSpace` is the only index with its two properties. */
  lemma {:induction false} FirstNonSpaceIs(s: string, lo: nat, i: nat)
    requires lo <= i <= |s| && SpaceBetween(s, lo, i) && (i < |s| ==> !IsSpace(s[i]))
    ensures FirstNonSpace(s, lo) == i
    decreases i - lo
  {
    if lo < i {
      FirstNonSpaceIs(s, lo + 1, i);
    }
  }

  /** `EndOfNonSpace` is the only index with its two properties. */
  lemma {:induction false} EndOfNonSpaceIs(s: string, lo: nat, hi: nat, j: nat)
    requires lo <= j <= hi <= |s| && SpaceBetween(s, j, hi) && (j > lo ==> !IsSpace(s[j - 1]))
    ensures EndOfNonSpace(s, lo, hi) == j
    decreases hi - j
  {
    if j < hi {
      EndOfNonSpaceIs(s, lo, hi - 1, j);
    }
  }

  /** `strip()` is determined by its result: whitespace around a non-empty
      trimmed string is exactly what it removes. */
  lemma StripSurrounded(a: string, t: string, b: string)
    requires AllSpace(a) && AllSpace(b) && Trimmed(t) && t != []
    ensures Strip(a + t + b) == t
  {
    var s := a + t + b;
    var i, j := |a|, |a| + |t|;
    assert s[i] == t[0] && s[j - 1] == t[|t| - 1];
    assert SpaceBetween(s, 0, i) by {
      assert forall k :: 0 <= k < i ==> s[k] == a[k];
    }
    assert SpaceBetween(s, j, |s|) by {
      assert forall k :: j <= k < |s| ==> s[k] == b[k - j];
    }
    FirstNonSpaceIs(s, 0, i);
    EndOfNonSpaceIs(s, i, |s|, j);
    assert s[i..j] == t;
  }

  /** Python's `parts[-1]` on a non-empty list. */
  function Last<T>(parts: seq<T>): T
    requires |parts| >= 1
  {
    parts[|parts| - 1]
  }

  /** `s.split(sep)`: the pieces of `s` between occurrences of `sep`. There is
      always at least one piece and no piece contains `sep`; `Join` undoes it. */
  function Split(s: string, sep: char): (parts: seq<string>)
    ensures |parts| >= 1
    ensures forall i :: 0 <= i < |parts| ==> sep !in parts[i]
  {
    if s == [] then [[]]
    else
      var rest := Split(s[1..], sep);
      if s[0] == sep then [[]] + rest
      else [[s[0]] + rest[0]] + rest[1..]
  }

  /** `sep.join(parts)`. */
  function Join(parts: seq<string>, sep: char): string
    requires |parts| >= 1
  {
    if |parts| == 1 then parts[0] else parts[0] + [sep] + Join(parts[1..], sep)
  }

  /** Splitting at a separator splits the two sides independently. */
  lemma {:induction false} SplitAtSeparator(a: string, sep: char, b: string)
    ensures Split(a + [sep] + b, sep) == Split(a, sep) + Split(b, sep)
  {
    if a == [] {
      assert a + [sep] + b == [sep] + b;
      assert ([sep] + b)[1..] == b;
    } else {
      assert (a + [sep] + b)[1..] == a[1..] + [sep] + b;
      SplitAtSeparator(a[1..], sep, b);
    }
  }

  /** A string without the separator is a single piece. */
  lemma {:induction false} SplitWithoutSeparator(s: string, sep: char)
    requires sep !in s
    ensures Split(s, sep) == [s]
  {
    if s != [] {
      SplitWithoutSeparator(s[1..], sep);
      assert [s[0]] + s[1..] == s;
    }
  }

  /** Round trip: joining the pieces gives back the string. */
  lemma {:induction false} JoinSplit(s: string, sep: char)
    ensures Join(Split(s, sep), sep) == s
  {
    if s != [] {
      var rest := Split(s[1..], sep);
      JoinSplit(s[1..], sep);
      if s[0] != sep && |rest| > 1 {
        assert ([[s[0]] + rest[0]] + rest[1..])[1..] == rest[1..];
      }
      assert [s[0]] + s[1..] == s;
    }
  }

  /** Round trip the other way: pieces free of the separator are recovered
      by splitting their join. */
  lemma {:induction false} SplitJoin(parts: seq<string>, sep: char)
    requires |parts| >= 1
    requires forall i :: 0 <= i < |parts| ==> sep !in parts[i]
    ensures Split(Join(parts, sep), sep) == parts
  {
    SplitWithoutSeparator(parts[0], sep);
    if |parts| > 1 {
      SplitJoin(parts[1..], sep);
      SplitAtSeparator(parts[0], sep, Join(parts[1..], sep));
      assert [parts[0]] + parts[1..] == parts;
    }
  }

  /** `s.split(sep)[-1]` is the text after the last separator. */
  lemma SplitLastPiece(s: string, sep: char, k: nat)
    requires k < |s| && s[k] == sep && sep !in s[k + 1..]
    ensures Last(Split(s, sep)) == s[k + 1..]
  {
    assert s == s[..k] + [sep] + s[k + 1..];
    SplitAtSeparator(s[..k], sep, s[k + 1..]);
    SplitWithoutSeparator(s[k + 1..], sep);
  }
}
