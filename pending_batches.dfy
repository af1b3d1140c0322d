/**
 * The per-user pending batch (`user_url`): `handle_urls` stores the links
 * found in a text message, `cb_handler` takes them out again when the user
 * picks a quality.
 */
module PendingBatches {
  import opened Strings

  type UserId = nat

  const HTTP: string := "http"

  /** One line's contribution: the line, stripped, when it contains "http". */
  function LinkOf(line: string): (urls: seq<string>)
    ensures |urls| <= 1
  {
    if Contains(line, HTTP) then [Strip(line)] else []
  }

  /** `f` applied to each element in turn, the results concatenated. */
  function FlatMap(f: string -> seq<string>, xs: seq<string>): seq<string> {
    if xs == [] then [] else f(xs[0]) + FlatMap(f, xs[1..])
  }

  lemma {:induction false} FlatMapAppend(f: string -> seq<string>, a: seq<string>, b: seq<string>)
    ensures FlatMap(f, a + b) == FlatMap(f, a) + FlatMap(f, b)
  {
    if a == [] {
      assert a + b == b;
    } else {
      assert (a + b)[0] == a[0] && (a + b)[1..] == a[1..] + b;
      FlatMapAppend(f, a[1..], b);
    }
  }

  /** Every element of the result comes from one of the inputs. */
  lemma {:induction false} FlatMapOrigin(f: string -> seq<string>, xs: seq<string>)
    ensures forall k :: 0 <= k < |FlatMap(f, xs)| ==>
              exists j :: 0 <= j < |xs| && FlatMap(f, xs)[k] in f(xs[j])
  {
    if xs != [] {
      FlatMapOrigin(f, xs[1..]);
      var h, r := f(xs[0]), FlatMap(f, xs[1..]);
      assert FlatMap(f, xs) == h + r;
      forall k | 0 <= k < |FlatMap(f, xs)|
        ensures exists j :: 0 <= j < |xs| && FlatMap(f, xs)[k] in f(xs[j])
      {
        if k < |h| {
          assert FlatMap(f, xs)[k] == h[k];
          assert FlatMap(f, xs)[k] in f(xs[0]);
        } else {
          assert FlatMap(f, xs)[k] == r[k - |h|];
          var j :| 0 <= j < |xs[1..]| && r[k - |h|] in f(xs[1..][j]);
          assert xs[1..][j] == xs[j + 1];
          assert FlatMap(f, xs)[k] in f(xs[j + 1]);
        }
      }
      assert forall k :: 0 <= k < |FlatMap(f, xs)| ==>
              exists j :: 0 <= j < |xs| && FlatMap(f, xs)[k] in f(xs[j]);
    } else {
      assert FlatMap(f, xs) == [];
    }
  }

  /** The links of a message's lines, in order. */
  function LinksOf(lines: seq<string>): seq<string> {
    FlatMap(LinkOf, lines)
  }

  /**
   * The links `handle_urls` finds in a message: split at line breaks, keep
   * and strip. Each is a stripped line holding "http"; there are no more of
   * them than lines.
   */
  function ExtractUrls(text: string): (urls: seq<string>)
    ensures |urls| <= |Split(text, '\n')|
    ensures forall k :: 0 <= k < |urls| ==> IsLink(urls[k])
  {
    ExtractedAreLinks(Split(text, '\n'));
    LinksOfLength(Split(text, '\n'));
    LinksOf(Split(text, '\n'))
  }

  lemma {:induction false} LinksOfLength(lines: seq<string>)
    ensures |LinksOf(lines)| <= |lines|
  {
    if lines != [] {
      LinksOfLength(lines[1..]);
    }
  }

  lemma LinksOfAppend(a: seq<string>, b: seq<string>)
    ensures LinksOf(a + b) == LinksOf(a) + LinksOf(b)
  {
    FlatMapAppend(LinkOf, a, b);
  }

  lemma SplitNoSeparator(s: string, sep: char)
    requires sep !in s
    ensures Split(s, sep) == [s]
  {
    SplitJoin([s], sep);
  }

  /** A message of one line yields that line, stripped, when it contains "http", and nothing otherwise. */
  lemma ExtractUrlsOneLine(text: string)
    requires '\n' !in text
    ensures ExtractUrls(text) == if Contains(text, HTTP) then [Strip(text)] else []
  {
    SplitNoSeparator(text, '\n');
    assert ExtractUrls(text) == LinkOf(text) + FlatMap(LinkOf, []);
  }

  /** The links of two lines of text are those of the first line, then those of the second. */
  lemma ExtractUrlsLines(a: string, b: string)
    ensures ExtractUrls(a + "\n" + b) == ExtractUrls(a) + ExtractUrls(b)
  {
    SplitAround(a, b, '\n');
    LinksOfAppend(Split(a, '\n'), Split(b, '\n'));
  }

  /** A stored link contains "http", holds no line break and has no surrounding white space. */
  predicate IsLink(u: string) {
    Contains(u, HTTP) && '\n' !in u && u == Strip(u)
  }

  lemma LinkOfIsLink(line: string)
    requires '\n' !in line
    ensures forall k :: 0 <= k < |LinkOf(line)| ==> IsLink(LinkOf(line)[k])
  {
    if Contains(line, HTTP) {
      StripKeepsWord(line, HTTP);
      StripIsStripped(line);
    }
  }

  lemma ExtractedAreLinks(lines: seq<string>)
    requires forall k :: 0 <= k < |lines| ==> '\n' !in lines[k]
    ensures forall k :: 0 <= k < |LinksOf(lines)| ==> IsLink(LinksOf(lines)[k])
  {
    FlatMapOrigin(LinkOf, lines);
    forall k | 0 <= k < |LinksOf(lines)|
      ensures IsLink(LinksOf(lines)[k])
    {
      var j :| 0 <= j < |lines| && LinksOf(lines)[k] in LinkOf(lines[j]);
      LinkOfIsLink(lines[j]);
    }
  }

  lemma StripIsStripped(s: string)
    requires '\n' !in s
    ensures '\n' !in Strip(s) && Strip(Strip(s)) == Strip(s)
  {
    StripIdempotent(s);
  }


  /** What a quality choice finds for its user. */
  datatype Selection = Batch(urls: seq<string>) | SessionExpired

  /** The store after `handle_urls`: a message with links replaces the sender's batch. */
  function AfterSubmit(pending: map<UserId, seq<string>>, user: UserId, text: string): (after: map<UserId, seq<string>>)
    ensures ExtractUrls(text) == [] ==> after == pending
    ensures ExtractUrls(text) != [] ==> user in after && after[user] == ExtractUrls(text)
    ensures forall u :: u != user ==> (u in after <==> u in pending)
    ensures forall u :: u != user && u in after ==> after[u] == pending[u]
  {
    var urls := ExtractUrls(text);
    if urls == [] then pending else pending[user := urls]
  }

  /** `cb_handler`: the user's batch, if there is one, and the store without it. */
  function TakeBatch(pending: map<UserId, seq<string>>, user: UserId): (r: (map<UserId, seq<string>>, Selection))
    ensures r.1.Batch? <==> user in pending && pending[user] != []
    ensures r.1.Batch? ==> r.1.urls == pending[user] && user !in r.0
    ensures r.1.SessionExpired? ==> r.0 == pending
    ensures forall u :: u != user ==> (u in r.0 <==> u in pending)
    ensures forall u :: u != user && u in r.0 ==> r.0[u] == pending[u]
  {
    if user in pending && pending[user] != [] then (pending - {user}, Batch(pending[user]))
    else (pending, SessionExpired)
  }

  /** Last batch wins: a second message with links replaces the first one's batch. */
  lemma LastBatchWins(pending: map<UserId, seq<string>>, user: UserId, first: string, second: string)
    requires ExtractUrls(second) != []
    ensures AfterSubmit(AfterSubmit(pending, user, first), user, second)
         == AfterSubmit(pending, user, second)
  {
  }

  /** Submitting and then choosing a quality hands back exactly the submitted links, and forgets them. */
  lemma SubmitThenTake(pending: map<UserId, seq<string>>, user: UserId, text: string)
    requires ExtractUrls(text) != []
    ensures TakeBatch(AfterSubmit(pending, user, text), user)
         == (pending - {user}, Batch(ExtractUrls(text)))
  {
    assert pending[user := ExtractUrls(text)] - {user} == pending - {user};
  }

  /** Taking a batch touches no other user's entry. */
  lemma TakeLeavesOthers(pending: map<UserId, seq<string>>, user: UserId, other: UserId)
    requires other != user
    ensures var after := TakeBatch(pending, user).0;
            (other in after <==> other in pending)
            && (other in pending ==> after[other] == pending[other])
  {
  }

  /** Once taken, a batch cannot be taken again: the next choice finds the session expired. */
  lemma TakeTwiceExpires(pending: map<UserId, seq<string>>, user: UserId)
    ensures TakeBatch(TakeBatch(pending, user).0, user).1 == SessionExpired
  {
  }

  /** The `user_url` dictionary. */
  class BatchStore {
    var pending: map<UserId, seq<string>>

    /** No entry holds an empty list: `handle_urls` never stores one. */
    ghost predicate Valid()
      reads this
    {
      forall u :: u in pending ==> pending[u] != []
    }

    constructor ()
      ensures Valid() && pending == map[]
    {
      pending := map[];
    }

    /** `handle_urls`: returns the links found; stores them for `user` unless there are none. */
    method Submit(user: UserId, text: string) returns (urls: seq<string>)
      requires Valid()
      modifies this
      ensures Valid()
      ensures urls == ExtractUrls(text)
      ensures pending == AfterSubmit(old(pending), user, text)
    {
      urls := ExtractUrls(text);
      if urls == [] {
        return;
      }
      pending := pending[user := urls];
    }

    /** `cb_handler`: read the entry, refuse with "Session expired" if there is none, else delete it. */
    method Select(user: UserId) returns (selection: Selection)
      requires Valid()
      modifies this
      ensures Valid()
      ensures (pending, selection) == TakeBatch(old(pending), user)
      ensures selection == SessionExpired <==> user !in old(pending)
    {
      var urls := if user in pending then pending[user] else [];
      if urls == [] {
        return SessionExpired;
      }
      pending := map u | u in pending && u != user :: pending[u];
      selection := Batch(urls);
      assert pending == old(pending) - {user};
    }
  }
}
