/**
 * The part of Python's `glob`/`fnmatch` used to find a job's files in the
 * downloads directory: `*` matches any text, `?` any one character, and
 * `[...]` one character of a set (`[!...]` one character outside it, `a-z`
 * a range); a `[` without a closing `]` is an ordinary character.
 * Only the final path component is matched, as `glob` does for patterns
 * whose directory part holds no wildcard.
 */
module GlobMatch {
  import opened Strings

  datatype ClassItem = Single(c: char) | Span(lo: char, hi: char)

  datatype Element =
    | Literal(c: char)
    | AnyChar
    | AnyText
    | CharSet(negated: bool, items: seq<ClassItem>)

  /** The index of the first `]` at or after `j`, or `|p|` when there is none. */
  function FindClose(p: string, j: nat): (k: nat)
    requires j <= |p|
    ensures j <= k <= |p| && (k < |p| ==> p[k] == ']')
    ensures forall m :: j <= m < k ==> p[m] != ']'
    decreases |p| - j
  {
    if j == |p| || p[j] == ']' then j else FindClose(p, j + 1)
  }

  /**
   * Where the set opened by a `[` ends, `i` being the index just after the
   * `[`: a leading `!` and then a leading `]` belong to the set.
   */
  function SetEnd(p: string, i: nat): (k: nat)
    requires i <= |p|
    ensures i <= k <= |p|
  {
    var j := if i < |p| && p[i] == '!' then i + 1 else i;
    var j' := if j < |p| && p[j] == ']' then j + 1 else j;
    FindClose(p, j')
  }

  /** The members of a set, read left to right; `x-y` is a range. */
  function ParseItems(body: string): seq<ClassItem>
    decreases |body|
  {
    if body == [] then []
    else if |body| >= 3 && body[1] == '-' then [Span(body[0], body[2])] + ParseItems(body[3..])
    else [Single(body[0])] + ParseItems(body[1..])
  }

  function SetOf(body: string): Element {
    if body != [] && body[0] == '!' then CharSet(true, ParseItems(body[1..]))
    else CharSet(false, ParseItems(body))
  }

  /** `fnmatch.translate`, as a list of pattern elements. */
  function Compile(p: string): seq<Element>
    decreases |p|
  {
    if p == [] then []
    else if p[0] == '*' then [AnyText] + Compile(p[1..])
    else if p[0] == '?' then [AnyChar] + Compile(p[1..])
    else if p[0] == '[' then
      var k := SetEnd(p, 1);
      if k == |p| then [Literal('[')] + Compile(p[1..])
      else [SetOf(p[1..k])] + Compile(p[k + 1..])
    else [Literal(p[0])] + Compile(p[1..])
  }

  predicate ItemHas(item: ClassItem, c: char) {
    match item
    case Single(x) => c == x
    case Span(lo, hi) => lo <= c <= hi
  }

  predicate SetHas(items: seq<ClassItem>, c: char) {
    exists k :: 0 <= k < |items| && ItemHas(items[k], c)
  }

  /** Whether the elements match the whole of `s`. */
  predicate Match(elems: seq<Element>, s: string)
    decreases |elems|, |s|
  {
    if elems == [] then s == []
    else match elems[0]
      case AnyText => Match(elems[1..], s) || (s != [] && Match(elems, s[1..]))
      case AnyChar => s != [] && Match(elems[1..], s[1..])
      case Literal(c) => s != [] && s[0] == c && Match(elems[1..], s[1..])
      case CharSet(negated, items) =>
        s != [] && SetHas(items, s[0]) != negated && Match(elems[1..], s[1..])
  }

  predicate HasNoWildcard(p: string) {
    forall k :: 0 <= k < |p| ==> p[k] != '*' && p[k] != '?' && p[k] != '['
  }

  function Literals(p: string): (elems: seq<Element>)
    ensures |elems| == |p|
  {
    if p == [] then [] else [Literal(p[0])] + Literals(p[1..])
  }

  /** A run of literals matches exactly its own text. */
  lemma {:induction false} MatchLiteralsExactly(p: string, s: string)
    ensures Match(Literals(p), s) <==> s == p
    decreases |p|
  {
    if p != [] {
      LiteralsCons(p, []);
      assert Literals(p[1..]) + [] == Literals(p[1..]) && Literals(p) + [] == Literals(p);
      MatchLiteralHead(p[0], Literals(p[1..]), s);
      if s != [] {
        MatchLiteralsExactly(p[1..], s[1..]);
        assert s == [s[0]] + s[1..] && p == [p[0]] + p[1..];
      }
    }
  }

  /** `fnmatch(name, pattern)`; a pattern without wildcards matches only itself. */
  predicate GlobMatches(pattern: string, name: string)
    ensures HasNoWildcard(pattern) ==> (GlobMatches(pattern, name) <==> name == pattern)
  {
    if HasNoWildcard(pattern) then
      assert pattern + "" == pattern;
      CompileLiteralPrefix(pattern, "");
      assert Compile(pattern) == Literals(pattern) + [] == Literals(pattern);
      MatchLiteralsExactly(pattern, name);
      Match(Compile(pattern), name)
    else Match(Compile(pattern), name)
  }

  /** A wildcard-free text compiles to one literal per character. */
  lemma {:induction false} CompileLiteralPrefix(p: string, rest: string)
    requires HasNoWildcard(p)
    ensures Compile(p + rest) == Literals(p) + Compile(rest)
  {
    if p == [] {
      assert p + rest == rest;
    } else {
      assert (p + rest)[0] == p[0] && (p + rest)[1..] == p[1..] + rest;
      CompileLiteralPrefix(p[1..], rest);
    }
  }

  lemma CompileLiteralThenStar(p: string)
    requires HasNoWildcard(p)
    ensures Compile(p + "*") == Literals(p) + [AnyText]
  {
    CompileLiteralPrefix(p, "*");
    assert "*"[1..] == [];
  }

  lemma MatchAnyText(s: string)
    ensures Match([AnyText], s)
    decreases |s|
  {
    if s != [] {
      MatchAnyText(s[1..]);
    }
  }

  lemma LiteralsCons(p: string, rest: seq<Element>)
    requires p != []
    ensures Literals(p) + rest == [Literal(p[0])] + (Literals(p[1..]) + rest)
  {
  }

  lemma MatchLiteralHead(c: char, rest: seq<Element>, s: string)
    ensures Match([Literal(c)] + rest, s) <==> s != [] && s[0] == c && Match(rest, s[1..])
  {
    var e := [Literal(c)] + rest;
    assert e[0] == Literal(c) && e[1..] == rest;
  }

  lemma {:induction false} MatchLiteralsThenStar(p: string, s: string)
    ensures Match(Literals(p) + [AnyText], s) <==> StartsWith(s, p)
    decreases |p|
  {
    if p == [] {
      assert Literals(p) + [AnyText] == [AnyText];
      MatchAnyText(s);
    } else {
      LiteralsCons(p, [AnyText]);
      MatchLiteralHead(p[0], Literals(p[1..]) + [AnyText], s);
      if s != [] {
        MatchLiteralsThenStar(p[1..], s[1..]);
        StartsWithCons(s, p);
      }
    }
  }

  /** Whatever follows a literal prefix of the pattern, a matching name starts with that prefix. */
  lemma {:induction false} MatchLiteralsPrefix(p: string, rest: seq<Element>, s: string)
    requires Match(Literals(p) + rest, s)
    ensures StartsWith(s, p)
    decreases |p|
  {
    if p != [] {
      LiteralsCons(p, rest);
      MatchLiteralHead(p[0], Literals(p[1..]) + rest, s);
      MatchLiteralsPrefix(p[1..], rest, s[1..]);
      StartsWithCons(s, p);
    }
  }

  /** A literal prefix of the pattern consumes the same prefix of the name. */
  lemma {:induction false} MatchAfterLiterals(p: string, rest: seq<Element>, s: string)
    requires StartsWith(s, p)
    ensures Match(Literals(p) + rest, s) == Match(rest, s[|p|..])
    decreases |p|
  {
    if p == [] {
      assert Literals(p) + rest == rest && s[0..] == s;
    } else {
      LiteralsCons(p, rest);
      MatchLiteralHead(p[0], Literals(p[1..]) + rest, s);
      StartsWithCons(s, p);
      MatchAfterLiterals(p[1..], rest, s[1..]);
      assert s[1..][|p| - 1..] == s[|p|..];
    }
  }

  /**
   * A pattern made of a wildcard-free text and a final `*` matches exactly
   * the names that start with that text.
   */
  lemma PrefixPattern(p: string, name: string)
    requires HasNoWildcard(p)
    ensures GlobMatches(p + "*", name) <==> StartsWith(name, p)
  {
    CompileLiteralThenStar(p);
    MatchLiteralsThenStar(p, name);
  }

  lemma PrefixPatternAll(p: string)
    requires HasNoWildcard(p)
    ensures forall name :: GlobMatches(p + "*", name) <==> StartsWith(name, p)
  {
    forall name {
      PrefixPattern(p, name);
    }
  }
}
