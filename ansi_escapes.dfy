/**
 * `remove_ansi_codes`: deletes the escape sequences of ECMA-48 (ISO/IEC
 * 6429) that the bot's pattern recognises, scanning left to right:
 *   - an Fe escape (section 5.3): ESC followed by one byte in 0x40-0x5A or
 *     0x5C-0x5F (0x5B, the `[`, is left to the next form);
 *   - a control sequence (section 5.4): ESC `[`, any parameter bytes
 *     0x30-0x3F, any intermediate bytes 0x20-0x2F, one final byte 0x40-0x7E.
 * Characters that do not start such a sequence are kept, a lone ESC included.
 */
module AnsiEscapes {
  import opened Wrappers

  const ESC: char := '\U{1B}'

  predicate FeByte(c: char) { ('@' <= c <= 'Z') || ('\\' <= c <= '_') }
  predicate ParameterByte(c: char) { '0' <= c <= '?' }
  predicate IntermediateByte(c: char) { ' ' <= c <= '/' }
  predicate FinalByte(c: char) { '@' <= c <= '~' }

  predicate AllParameter(s: string) { forall i :: 0 <= i < |s| ==> ParameterByte(s[i]) }
  predicate AllIntermediate(s: string) { forall i :: 0 <= i < |s| ==> IntermediateByte(s[i]) }

  ghost predicate IsFeEscape(e: string) {
    |e| == 2 && e[0] == ESC && FeByte(e[1])
  }

  ghost predicate IsControlSequence(e: string) {
    && |e| >= 3 && e[0] == ESC && e[1] == '[' && FinalByte(e[|e| - 1])
    && exists p :: 2 <= p <= |e| - 1 && AllParameter(e[2..p]) && AllIntermediate(e[p..|e| - 1])
  }

  /** The language of the pattern: exactly the strings it matches in full. */
  ghost predicate IsEscape(e: string) { IsFeEscape(e) || IsControlSequence(e) }

  /** The end of the run of parameter bytes starting at `i`. */
  function SkipParameters(s: string, i: nat): (j: nat)
    requires i <= |s|
    ensures i <= j <= |s| && AllParameter(s[i..j])
    ensures j < |s| ==> !ParameterByte(s[j])
    decreases |s| - i
  {
    if i < |s| && ParameterByte(s[i]) then
      var j := SkipParameters(s, i + 1);
      assert s[i..j] == [s[i]] + s[i + 1..j];
      j
    else i
  }

  /** The end of the run of intermediate bytes starting at `i`. */
  function SkipIntermediates(s: string, i: nat): (j: nat)
    requires i <= |s|
    ensures i <= j <= |s| && AllIntermediate(s[i..j])
    ensures j < |s| ==> !IntermediateByte(s[j])
    decreases |s| - i
  {
    if i < |s| && IntermediateByte(s[i]) then
      var j := SkipIntermediates(s, i + 1);
      assert s[i..j] == [s[i]] + s[i + 1..j];
      j
    else i
  }

  /**
   * The length of the escape sequence `s` starts with, if any. It is Some
   * exactly when some prefix of `s` is an escape sequence, and then it is
   * that prefix.
   */
  function MatchEscape(s: string): (m: Option<nat>)
    ensures m.Some? ==> 2 <= m.value <= |s| && IsEscape(s[..m.value])
    ensures m.None? ==> forall n :: 0 <= n <= |s| ==> !IsEscape(s[..n])
  {
    if |s| >= 2 && s[0] == ESC && FeByte(s[1]) then
      Some(2)
    else if |s| >= 2 && s[0] == ESC && s[1] == '[' then
      var p := SkipParameters(s, 2);
      var q := SkipIntermediates(s, p);
      if q < |s| && FinalByte(s[q]) then
        assert s[..q + 1][2..p] == s[2..p] && s[..q + 1][p..q] == s[p..q];
        Some(q + 1)
      else
        NoControlSequence(s, p, q);
        None
    else
      None
  }

  lemma NoControlSequence(s: string, p: nat, q: nat)
    requires |s| >= 2 && s[0] == ESC && s[1] == '['
    requires p == SkipParameters(s, 2) && q == SkipIntermediates(s, p)
    requires !(q < |s| && FinalByte(s[q]))
    ensures forall n :: 0 <= n <= |s| ==> !IsControlSequence(s[..n])
  {
    forall n | 0 <= n <= |s| && IsControlSequence(s[..n])
      ensures false
    {
      var e := s[..n];
      var p' :| 2 <= p' <= |e| - 1 && AllParameter(e[2..p']) && AllIntermediate(e[p'..|e| - 1]);
      assert e[2..p'] == s[2..p'] && e[p'..|e| - 1] == s[p'..n - 1];
      ControlSequenceSplit(s, n, p', p, q);
    }
  }

  /**
   * Inside a control sequence the three byte classes are disjoint, so the
   * greedy scan stops exactly where the sequence's own parts end.
   */
  lemma ControlSequenceSplit(s: string, n: nat, p': nat, p: nat, q: nat)
    requires 3 <= n <= |s| && FinalByte(s[n - 1])
    requires 2 <= p' <= n - 1 && AllParameter(s[2..p']) && AllIntermediate(s[p'..n - 1])
    requires p == SkipParameters(s, 2) && q == SkipIntermediates(s, p)
    ensures p == p' && q == n - 1
  {
    assert forall i :: 2 <= i < p' ==> ParameterByte(s[i]) by {
      forall i | 2 <= i < p' ensures ParameterByte(s[i]) { assert s[2..p'][i - 2] == s[i]; }
    }
    assert forall i :: p' <= i < n - 1 ==> IntermediateByte(s[i]) by {
      forall i | p' <= i < n - 1 ensures IntermediateByte(s[i]) { assert s[p'..n - 1][i - p'] == s[i]; }
    }
    assert forall i :: 2 <= i < p ==> ParameterByte(s[i]) by {
      forall i | 2 <= i < p ensures ParameterByte(s[i]) { assert s[2..p][i - 2] == s[i]; }
    }
    assert forall i :: p <= i < q ==> IntermediateByte(s[i]) by {
      forall i | p <= i < q ensures IntermediateByte(s[i]) { assert s[p..q][i - p] == s[i]; }
    }
    var c := s[p'];
    assert p' < p ==> ParameterByte(c);
  }

  /** No escape sequence is a proper prefix of another. */
  lemma EscapePrefixFree(s: string, n1: nat, n2: nat)
    requires n1 <= n2 <= |s| && IsEscape(s[..n1]) && IsEscape(s[..n2])
    ensures n1 == n2
  {
    var m := MatchEscape(s);
    assert m.Some?;
    EscapeMatchUnique(s, n1);
    EscapeMatchUnique(s, n2);
  }

  /** When a prefix of `s` is an escape sequence, it is the one `MatchEscape` finds. */
  lemma EscapeMatchUnique(s: string, n: nat)
    requires n <= |s| && IsEscape(s[..n])
    ensures MatchEscape(s) == Some(n)
  {
    var e := s[..n];
    if IsFeEscape(e) {
    } else {
      assert e[0] == ESC && e[1] == '[';
      assert !FeByte('[');
      var p' :| 2 <= p' <= |e| - 1 && AllParameter(e[2..p']) && AllIntermediate(e[p'..|e| - 1]);
      assert e[2..p'] == s[2..p'] && e[p'..|e| - 1] == s[p'..n - 1];
      var p := SkipParameters(s, 2);
      var q := SkipIntermediates(s, p);
      ControlSequenceSplit(s, n, p', p, q);
    }
  }

  /** `ansi_escape.sub('', text)`. */
  function RemoveAnsiCodes(s: string): (r: string)
    ensures |r| <= |s|
    decreases |s|
  {
    if s == [] then []
    else match MatchEscape(s)
      case Some(n) => RemoveAnsiCodes(s[n..])
      case None => [s[0]] + RemoveAnsiCodes(s[1..])
  }

  /** `idx` lists, in increasing order, positions of `s` holding the characters of `r`. */
  ghost predicate Embeds(idx: seq<nat>, r: string, s: string) {
    && |idx| == |r|
    && (forall k :: 0 <= k < |idx| ==> idx[k] < |s| && s[idx[k]] == r[k])
    && (forall k, l :: 0 <= k < l < |idx| ==> idx[k] < idx[l])
  }

  /** `r` is `s` with some characters deleted and the rest in their order. */
  ghost predicate IsSubsequence(r: string, s: string) {
    exists idx :: Embeds(idx, r, s)
  }

  lemma SubsequenceAfterPrefix(r: string, p: string, t: string)
    requires IsSubsequence(r, t)
    ensures IsSubsequence(r, p + t)
  {
    var idx :| Embeds(idx, r, t);
    var moved := seq(|idx|, k requires 0 <= k < |idx| => idx[k] + |p|);
    assert Embeds(moved, r, p + t);
  }

  lemma SubsequenceCons(c: char, r: string, t: string)
    requires IsSubsequence(r, t)
    ensures IsSubsequence([c] + r, [c] + t)
  {
    var idx :| Embeds(idx, r, t);
    var moved := [0] + seq(|idx|, k requires 0 <= k < |idx| => idx[k] + 1);
    assert Embeds(moved, [c] + r, [c] + t);
  }

  /** The output is the input with characters deleted, the rest in their order. */
  lemma {:induction false} RemoveIsSubsequence(s: string)
    ensures IsSubsequence(RemoveAnsiCodes(s), s)
    decreases |s|
  {
    if s == [] {
      assert Embeds([], [], s);
    } else {
      match MatchEscape(s)
      case Some(n) =>
        RemoveIsSubsequence(s[n..]);
        assert s == s[..n] + s[n..];
        SubsequenceAfterPrefix(RemoveAnsiCodes(s[n..]), s[..n], s[n..]);
      case None =>
        RemoveIsSubsequence(s[1..]);
        assert s == [s[0]] + s[1..];
        SubsequenceCons(s[0], RemoveAnsiCodes(s[1..]), s[1..]);
    }
  }

  /** Text without an ESC character passes through unchanged. */
  lemma {:induction false} NoEscapeUnchanged(s: string)
    requires ESC !in s
    ensures RemoveAnsiCodes(s) == s
    decreases |s|
  {
    if s != [] {
      assert s[0] != ESC;
      NoEscapeUnchanged(s[1..]);
    }
  }

  /** A leading escape sequence is deleted whole, and scanning resumes after it. */
  lemma RemoveLeadingEscape(e: string, t: string)
    requires IsEscape(e)
    ensures RemoveAnsiCodes(e + t) == RemoveAnsiCodes(t)
  {
    var s := e + t;
    assert s[..|e|] == e;
    EscapeMatchUnique(s, |e|);
    assert s[|e|..] == t;
  }

  /** Leading text without ESC is kept as it is, ahead of what follows. */
  lemma {:induction false} RemoveLeadingPlain(a: string, t: string)
    requires ESC !in a
    ensures RemoveAnsiCodes(a + t) == a + RemoveAnsiCodes(t)
    decreases |a|
  {
    if a != [] {
      var s := a + t;
      assert s[0] == a[0] && a[0] != ESC;
      RemoveLeadingPlain(a[1..], t);
      assert s[1..] == a[1..] + t;
    } else {
      assert a + t == t;
    }
  }

  /**
   * An ESC that ends the text, or is followed by neither a Fe byte nor `[`,
   * starts no escape sequence and is kept.
   */
  lemma LoneEscKept(t: string)
    requires t == [] || (!FeByte(t[0]) && t[0] != '[')
    ensures RemoveAnsiCodes([ESC] + t) == [ESC] + RemoveAnsiCodes(t)
  {
    var s := [ESC] + t;
    assert s[1..] == t;
    assert MatchEscape(s).None?;
  }

  /**
   * Deleting one sequence can bring an ESC next to a byte it did not
   * precede: ESC ESC `A` `B` loses ESC `A` and leaves the Fe escape ESC `B`,
   * so the output can still hold ESC and a second pass changes it again.
   */
  lemma RemovalCanLeaveEscape()
    ensures var s := [ESC, ESC, 'A', 'B'];
            && RemoveAnsiCodes(s) == [ESC, 'B']
            && IsEscape(RemoveAnsiCodes(s))
            && RemoveAnsiCodes(RemoveAnsiCodes(s)) == []
  {
    var s := [ESC, ESC, 'A', 'B'];
    assert MatchEscape(s) == None;
    assert s[1..] == [ESC, 'A', 'B'];
    assert MatchEscape(s[1..]) == Some(2);
    assert s[1..][2..] == ['B'];
    assert MatchEscape(['B']) == None;
    assert ['B'][1..] == [];
    assert RemoveAnsiCodes(['B']) == ['B'];
    assert RemoveAnsiCodes(s[1..]) == ['B'];
    assert RemoveAnsiCodes(s) == [ESC] + ['B'];
    assert MatchEscape([ESC, 'B']) == Some(2);
    assert [ESC, 'B'][2..] == [];
  }
}
