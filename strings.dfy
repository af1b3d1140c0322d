/**
 * The handful of Python string operations the bot relies on, written out:
 * decimal text of integers, `str.split` on one separator, `str.strip` with
 * no argument, `in` on strings and `str.startswith`.
 */
module Strings {

  predicate IsDigit(c: char) { '0' <= c <= '9' }

  predicate AllDigits(s: string) { forall i :: 0 <= i < |s| ==> IsDigit(s[i]) }

  function DigitValue(c: char): (d: nat)
    requires IsDigit(c)
    ensures d < 10
  {
    (c as int) - ('0' as int)
  }

  function DigitChar(d: nat): (c: char)
    requires d < 10
    ensures IsDigit(c) && DigitValue(c) == d
  {
    (('0' as int) + d) as char
  }

  /** Python's `str(n)` for a non-negative integer: shortest decimal text. */
  function NatToString(n: nat): (s: string)
    ensures |s| >= 1 && AllDigits(s)
    ensures |s| > 1 ==> s[0] != '0'
    decreases n
  {
    if n < 10 then [DigitChar(n)] else NatToString(n / 10) + [DigitChar(n % 10)]
  }

  /** The value of a run of decimal digits, most significant first. */
  function DigitsValue(s: string): nat
    requires AllDigits(s)
  {
    if s == [] then 0 else DigitsValue(s[..|s| - 1]) * 10 + DigitValue(s[|s| - 1])
  }

  /** Reading back the decimal text of `n` gives `n`. */
  lemma {:induction false} DigitsValueOfNatToString(n: nat)
    ensures DigitsValue(NatToString(n)) == n
    decreases n
  {
    if n >= 10 {
      var s := NatToString(n);
      assert s[..|s| - 1] == NatToString(n / 10);
      DigitsValueOfNatToString(n / 10);
    }
  }

  /** Distinct numbers have distinct decimal texts. */
  lemma NatToStringInjective(m: nat, n: nat)
    requires NatToString(m) == NatToString(n)
    ensures m == n
  {
    DigitsValueOfNatToString(m);
    DigitsValueOfNatToString(n);
  }

  predicate StartsWith(s: string, prefix: string) {
    |prefix| <= |s| && s[..|prefix|] == prefix
  }

  /** `word` occurs in `s` at position `i`. */
  predicate OccursAt(s: string, word: string, i: nat) {
    i <= |s| && StartsWith(s[i..], word)
  }

  lemma OccursAtShift(s: string, word: string, i: nat)
    requires s != [] && i >= 1
    ensures OccursAt(s, word, i) <==> OccursAt(s[1..], word, i - 1)
  {
    if i <= |s| {
      assert s[i..] == s[1..][i - 1..];
    }
  }

  /** A prefix test, one character at a time. */
  lemma StartsWithCons(s: string, p: string)
    requires s != [] && p != []
    ensures StartsWith(s, p) <==> s[0] == p[0] && StartsWith(s[1..], p[1..])
  {
    if |p| <= |s| {
      assert s[..|p|] == [s[0]] + s[1..][..|p| - 1];
      assert p == [p[0]] + p[1..];
    }
  }

  /** Python's `word in s` for strings. */
  function Contains(s: string, word: string): bool
    decreases |s|
  {
    if StartsWith(s, word) then true
    else if s == [] then false
    else Contains(s[1..], word)
  }

  /** `word in s` holds exactly when `word` occurs at some position of `s`. */
  lemma {:induction false} ContainsOccurs(s: string, word: string)
    ensures Contains(s, word) <==> exists i: nat :: OccursAt(s, word, i)
    decreases |s|
  {
    assert s[0..] == s;
    if !StartsWith(s, word) && s != [] {
      ContainsOccurs(s[1..], word);
      forall i: nat | i >= 1
        ensures OccursAt(s, word, i) <==> OccursAt(s[1..], word, i - 1)
      {
        OccursAtShift(s, word, i);
      }
      if Contains(s, word) {
        var j: nat :| OccursAt(s[1..], word, j);
        assert OccursAt(s, word, j + 1);
      }
    } else if StartsWith(s, word) {
      assert OccursAt(s, word, 0);
    }
  }

  /** Python's `str.split(sep)`: the pieces between separators, at least one. */
  function Split(s: string, sep: char): (pieces: seq<string>)
    ensures |pieces| >= 1
    ensures forall k :: 0 <= k < |pieces| ==> sep !in pieces[k]
  {
    if s == [] then [""]
    else
      var rest := Split(s[1..], sep);
      if s[0] == sep then [""] + rest else [[s[0]] + rest[0]] + rest[1..]
  }

  /** `sep.join(pieces)`, for a non-empty list of pieces. */
  function Join(pieces: seq<string>, sep: char): string
    requires |pieces| >= 1
  {
    if |pieces| == 1 then pieces[0] else pieces[0] + [sep] + Join(pieces[1..], sep)
  }

  /** Joining the pieces again gives the original text back. */
  lemma {:induction false} JoinSplit(s: string, sep: char)
    ensures Join(Split(s, sep), sep) == s
  {
    if s != [] {
      JoinSplit(s[1..], sep);
      var rest := Split(s[1..], sep);
      if s[0] != sep {
        var pieces := Split(s, sep);
        assert pieces[1..] == rest[1..];
      }
    }
  }

  /** Splitting a join whose pieces hold no separator gives the pieces back. */
  lemma {:induction false} SplitJoin(pieces: seq<string>, sep: char)
    requires |pieces| >= 1
    requires forall k :: 0 <= k < |pieces| ==> sep !in pieces[k]
    ensures Split(Join(pieces, sep), sep) == pieces
    decreases |pieces|, |pieces[0]|
  {
    var p := pieces[0];
    if p == [] {
      if |pieces| > 1 {
        SplitJoin(pieces[1..], sep);
        assert Join(pieces, sep) == [sep] + Join(pieces[1..], sep);
        assert [sep] + Join(pieces[1..], sep) == [sep] + Join(pieces[1..], sep);
        assert [""] + pieces[1..] == pieces;
      }
    } else {
      var shorter := [p[1..]] + pieces[1..];
      SplitJoin(shorter, sep);
      assert Join(shorter, sep)
          == (if |pieces| == 1 then p[1..] else p[1..] + [sep] + Join(pieces[1..], sep));
      assert Join(pieces, sep) == [p[0]] + Join(shorter, sep);
      assert ([p[0]] + Join(shorter, sep))[1..] == Join(shorter, sep);
      assert [p[0]] + p[1..] == p;
      assert [[p[0]] + p[1..]] + pieces[1..] == pieces;
    }
  }

  /** A separator splits the text into the pieces before it and the pieces after it. */
  lemma {:induction false} SplitAround(a: string, b: string, sep: char)
    ensures Split(a + [sep] + b, sep) == Split(a, sep) + Split(b, sep)
    decreases |a|
  {
    if a == [] {
      assert a + [sep] + b == [sep] + b;
      assert ([sep] + b)[1..] == b;
    } else {
      var s := a + [sep] + b;
      assert s[0] == a[0] && s[1..] == a[1..] + [sep] + b;
      SplitAround(a[1..], b, sep);
      var ra, rb := Split(a[1..], sep), Split(b, sep);
      assert Split(s[1..], sep) == ra + rb;
      if a[0] != sep {
        assert (ra + rb)[0] == ra[0] && (ra + rb)[1..] == ra[1..] + rb;
        assert Split(s, sep) == [[a[0]] + ra[0]] + (ra[1..] + rb);
        assert Split(a, sep) == [[a[0]] + ra[0]] + ra[1..];
      } else {
        assert Split(s, sep) == [""] + (ra + rb);
        assert Split(a, sep) == [""] + ra;
      }
    }
  }

  /** Python's `str.isspace` for one character (the `strip()` set). */
  predicate IsSpace(c: char) {
    c == ' ' || ('\t' <= c <= '\r') || ('\U{1C}' <= c <= '\U{1F}')
    || c == '\U{85}' || c == '\U{A0}' || c == '\U{1680}'
    || ('\U{2000}' <= c <= '\U{200A}') || c == '\U{2028}' || c == '\U{2029}'
    || c == '\U{202F}' || c == '\U{205F}' || c == '\U{3000}'
  }

  /** Where the run of white space that starts at `i` ends. */
  function LeadEnd(s: string, i: nat): (j: nat)
    requires i <= |s|
    ensures i <= j <= |s| && forall k :: i <= k < j ==> IsSpace(s[k])
    ensures j < |s| ==> !IsSpace(s[j])
    decreases |s| - i
  {
    if i == |s| || !IsSpace(s[i]) then i else LeadEnd(s, i + 1)
  }

  /** Where the run of white space that ends at `j` starts, looking no further back than `lo`. */
  function TrailStart(s: string, lo: nat, j: nat): (r: nat)
    requires lo <= j <= |s|
    ensures lo <= r <= j && forall k :: r <= k < j ==> IsSpace(s[k])
    ensures lo < r ==> !IsSpace(s[r - 1])
    decreases j - lo
  {
    if j == lo || !IsSpace(s[j - 1]) then j else TrailStart(s, lo, j - 1)
  }

  /** Where the text that `str.strip()` keeps starts and ends. */
  function StripBounds(s: string): (b: (nat, nat))
    ensures b.0 <= b.1 <= |s|
    ensures forall k :: 0 <= k < b.0 ==> IsSpace(s[k])
    ensures forall k :: b.1 <= k < |s| ==> IsSpace(s[k])
    ensures b.0 < b.1 ==> !IsSpace(s[b.0]) && !IsSpace(s[b.1 - 1])
  {
    var i := LeadEnd(s, 0);
    (i, TrailStart(s, i, |s|))
  }

  /**
   * Python's `str.strip()`: `s` without its leading and trailing white
   * space. Everything cut off is white space, and what is kept neither
   * starts nor ends with white space.
   */
  function Strip(s: string): (r: string)
    ensures var (i, j) := StripBounds(s);
            r == s[i..j] && (r == [] || (!IsSpace(r[0]) && !IsSpace(r[|r| - 1])))
  {
    var (i, j) := StripBounds(s);
    s[i..j]
  }

  /** Stripping twice strips nothing more. */
  lemma StripIdempotent(s: string)
    ensures Strip(Strip(s)) == Strip(s)
  {
    var r := Strip(s);
    if r != [] {
      assert LeadEnd(r, 0) == 0;
      assert TrailStart(r, 0, |r|) == |r|;
      assert r[0..|r|] == r;
    }
  }

  /** An occurrence of `word` found at position `i`, character by character. */
  lemma OccurrenceAt(s: string, word: string, i: nat)
    requires i <= |s| && StartsWith(s[i..], word)
    ensures i + |word| <= |s| && forall k :: 0 <= k < |word| ==> s[i + k] == word[k]
  {
    assert forall k :: 0 <= k < |word| ==> s[i..][..|word|][k] == s[i + k];
  }

  /** An occurrence that lies inside a slice is an occurrence in that slice. */
  lemma OccurrenceInSlice(s: string, a: nat, e: nat, word: string, i: nat)
    requires a <= i && i + |word| <= e <= |s|
    requires forall k :: 0 <= k < |word| ==> s[i + k] == word[k]
    ensures Contains(s[a..e], word)
  {
    var r := s[a..e];
    var j := i - a;
    var occ := r[j..][..|word|];
    assert |occ| == |word|;
    assert forall k :: 0 <= k < |word| ==> occ[k] == s[i + k];
    assert occ == word;
    assert StartsWith(r[j..], word);
    assert OccursAt(r, word, j);
    ContainsOccurs(r, word);
  }

  /** Stripping cannot break up a word that holds no white space. */
  lemma StripKeepsWord(s: string, word: string)
    requires word != [] && forall k :: 0 <= k < |word| ==> !IsSpace(word[k])
    requires Contains(s, word)
    ensures Contains(Strip(s), word)
  {
    var (a, e) := StripBounds(s);
    ContainsOccurs(s, word);
    var i: nat :| OccursAt(s, word, i);
    OccurrenceAt(s, word, i);
    var w := |word|;
    assert !IsSpace(s[i]) && !IsSpace(s[i + w - 1]);
    OccurrenceInSlice(s, a, e, word, i);
  }
}
