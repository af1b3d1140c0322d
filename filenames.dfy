/**
 * `clean_filename`: every maximal run of the characters \ / : " * ? < > |
 * (those a file name may not hold) becomes one underscore.
 */
module Filenames {

  predicate Unsafe(c: char) {
    c == '\\' || c == '/' || c == ':' || c == '"' || c == '*'
    || c == '?' || c == '<' || c == '>' || c == '|'
  }

  predicate NoUnsafe(s: string) { forall i :: 0 <= i < |s| ==> !Unsafe(s[i]) }

  predicate AllUnsafe(s: string) { forall i :: 0 <= i < |s| ==> Unsafe(s[i]) }

  /** Where the run of unsafe characters that starts at `i` ends. */
  function RunEnd(s: string, i: nat): (j: nat)
    requires i <= |s|
    ensures i <= j <= |s| && forall k :: i <= k < j ==> Unsafe(s[k])
    ensures j < |s| ==> !Unsafe(s[j])
    decreases |s| - i
  {
    if i == |s| || !Unsafe(s[i]) then i else RunEnd(s, i + 1)
  }

  /** The end of a run is the one place where the unsafe characters stop. */
  lemma RunEndUnique(s: string, i: nat, j: nat)
    requires i <= j <= |s| && forall k :: i <= k < j ==> Unsafe(s[k])
    requires j < |s| ==> !Unsafe(s[j])
    ensures RunEnd(s, i) == j
  {
  }

  /** `s` without the run of unsafe characters it starts with. */
  function DropRun(s: string): (rest: string)
    ensures |rest| <= |s|
    ensures forall k :: 0 <= k < |rest| ==> rest[k] == s[|s| - |rest| + k]
    ensures forall k :: 0 <= k < |s| - |rest| ==> Unsafe(s[k])
    ensures rest == [] || !Unsafe(rest[0])
  {
    s[RunEnd(s, 0)..]
  }

  /**
   * Replaces every maximal run of unsafe characters by one underscore,
   * scanning left to right as a regular-expression substitution does.
   */
  function CleanFilename(s: string): (r: string)
    ensures NoUnsafe(r)
    ensures |r| <= |s|
    ensures r == [] <==> s == []
    decreases |s|
  {
    if s == [] then []
    else if Unsafe(s[0]) then "_" + CleanFilename(DropRun(s))
    else [s[0]] + CleanFilename(s[1..])
  }

  /** Cleaning adds no character but the underscore. */
  lemma {:induction false} CleanAddsOnlyUnderscore(s: string, c: char)
    requires c != '_' && c !in s
    ensures c !in CleanFilename(s)
    decreases |s|
  {
    if s != [] {
      if Unsafe(s[0]) {
        var rest := DropRun(s);
        assert c !in rest by {
          assert forall k :: 0 <= k < |rest| ==> rest[k] == s[|s| - |rest| + k];
        }
        CleanAddsOnlyUnderscore(rest, c);
      } else {
        assert c !in s[1..] by {
          assert forall k :: 0 <= k < |s| - 1 ==> s[1..][k] == s[k + 1];
        }
        CleanAddsOnlyUnderscore(s[1..], c);
      }
    }
  }

  /** A name that is already safe is left as it is. */
  lemma {:induction false} CleanSafeIsIdentity(s: string)
    requires NoUnsafe(s)
    ensures CleanFilename(s) == s
  {
    if s != [] {
      CleanSafeIsIdentity(s[1..]);
    }
  }

  /** Applying `clean_filename` twice gives what applying it once gives. */
  lemma CleanIdempotent(s: string)
    ensures CleanFilename(CleanFilename(s)) == CleanFilename(s)
  {
    CleanSafeIsIdentity(CleanFilename(s));
  }

  /** A non-empty run of unsafe characters alone becomes a single underscore. */
  lemma RunIsOneUnderscore(run: string)
    requires run != [] && AllUnsafe(run)
    ensures CleanFilename(run) == "_"
  {
    assert DropRun(run) == [];
  }

  /**
   * Cleaning works piece by piece: when the cut does not split a run of
   * unsafe characters, cleaning the whole is cleaning the two halves.
   */
  lemma {:induction false} CleanConcat(a: string, b: string)
    requires a == [] || b == [] || !Unsafe(a[|a| - 1]) || !Unsafe(b[0])
    ensures CleanFilename(a + b) == CleanFilename(a) + CleanFilename(b)
    decreases |a|
  {
    if a == [] {
      assert a + b == b;
    } else if !Unsafe(a[0]) {
      CleanConcat(a[1..], b);
      CleanSafeHead(a, b);
    } else if DropRun(a) == [] {
      CleanWholeRunThen(a, b);
    } else {
      var rest := DropRun(a);
      DropRunPrefix(a, b);
      assert rest[|rest| - 1] == a[|a| - 1];
      CleanConcat(rest, b);
      CleanRunThen(a, b);
    }
  }

  lemma CleanWholeRunThen(a: string, b: string)
    requires a != [] && Unsafe(a[0]) && DropRun(a) == []
    requires b == [] || !Unsafe(b[0])
    ensures CleanFilename(a + b) == CleanFilename(a) + CleanFilename(b)
  {
    DropRunEmpty(a);
    DropRunAllUnsafe(a, b);
    CleanUnsafeHead(a, b);
    assert CleanFilename(a) == "_";
  }

  lemma DropRunEmpty(a: string)
    requires DropRun(a) == []
    ensures AllUnsafe(a)
  {
  }

  lemma CleanRunThen(a: string, b: string)
    requires a != [] && Unsafe(a[0]) && DropRun(a) != []
    requires CleanFilename(DropRun(a) + b) == CleanFilename(DropRun(a)) + CleanFilename(b)
    ensures CleanFilename(a + b) == CleanFilename(a) + CleanFilename(b)
  {
    DropRunPrefix(a, b);
    CleanUnsafeHead(a, b);
  }

  lemma CleanSafeHead(a: string, b: string)
    requires a != [] && !Unsafe(a[0])
    ensures CleanFilename(a + b) == [a[0]] + CleanFilename(a[1..] + b)
  {
    assert (a + b)[1..] == a[1..] + b;
  }

  lemma CleanUnsafeHead(a: string, b: string)
    requires a != [] && Unsafe(a[0])
    ensures CleanFilename(a + b) == "_" + CleanFilename(DropRun(a + b))
  {
    assert (a + b)[0] == a[0];
  }

  lemma DropRunAllUnsafe(a: string, b: string)
    requires AllUnsafe(a) && (b == [] || !Unsafe(b[0]))
    ensures DropRun(a + b) == b
  {
    var ab := a + b;
    assert forall k :: 0 <= k < |a| ==> ab[k] == a[k];
    assert |a| < |ab| ==> ab[|a|] == b[0];
    RunEndUnique(ab, 0, |a|);
    assert ab[|a|..] == b;
  }

  lemma DropRunPrefix(a: string, b: string)
    requires DropRun(a) != []
    ensures DropRun(a + b) == DropRun(a) + b
  {
    var ab := a + b;
    var j := RunEnd(a, 0);
    assert forall k :: 0 <= k <= j ==> ab[k] == a[k];
    RunEndUnique(ab, 0, j);
    assert ab[j..] == a[j..] + b;
  }

  /**
   * Each maximal run of unsafe characters becomes exactly one underscore,
   * and the text on either side is cleaned on its own.
   */
  lemma MaximalRunBecomesUnderscore(a: string, run: string, b: string)
    requires run != [] && AllUnsafe(run)
    requires a == [] || !Unsafe(a[|a| - 1])
    requires b == [] || !Unsafe(b[0])
    ensures CleanFilename(a + run + b) == CleanFilename(a) + "_" + CleanFilename(b)
  {
    CleanConcat(a, run);
    assert (a + run)[|a + run| - 1] == run[|run| - 1];
    CleanConcat(a + run, b);
    RunIsOneUnderscore(run);
  }
}
