/** The recent-searches list of the search bar (`addToSearchHistory`): the
    term just searched moves to the front, any earlier copy of it is dropped,
    and only the ten most recent entries are kept. */
module SearchHistory {

  /** Number of searches remembered. */
  const MaxHistory: nat := 10

  /** No entry occurs twice. */
  ghost predicate NoDuplicates(s: seq<string>)
  {
    forall i, j :: 0 <= i < j < |s| ==> s[i] != s[j]
  }

  /** `a` is `b` with some entries deleted and the rest in their original order. */
  ghost predicate IsSubsequence(a: seq<string>, b: seq<string>)
    decreases |b|
  {
    a == [] || (b != [] && ((a[0] == b[0] && IsSubsequence(a[1..], b[1..])) || IsSubsequence(a, b[1..])))
  }

  /** `history.filter(item => item !== term)`. */
  function Without(history: seq<string>, term: string): (r: seq<string>)
    ensures |r| <= |history|
    ensures forall x :: x in r <==> x in history && x != term
    ensures IsSubsequence(r, history)
    ensures NoDuplicates(history) ==> NoDuplicates(r)
    ensures multiset(r) == multiset(history)[term := 0]
  {
    if history == [] then
      []
    else
      var rest := Without(history[1..], term);
      assert history == [history[0]] + history[1..];
      if history[0] == term then
        rest
      else
        assert NoDuplicates(history) ==> history[0] !in history[1..] && NoDuplicates(history[1..]) by {
          if NoDuplicates(history) {
            forall i | 0 <= i < |history[1..]|
              ensures history[1..][i] != history[0]
            {
              assert history[1..][i] == history[i + 1];
            }
          }
        }
        [history[0]] + rest
  }

  /** `[term, ...filtered].slice(0, 10)`: the history after searching `term`. */
  function AddToHistory(history: seq<string>, term: string): (r: seq<string>)
    ensures |r| > 0 && r[0] == term
    ensures term !in r[1..]
    ensures |r| == if |Without(history, term)| + 1 < MaxHistory then |Without(history, term)| + 1 else MaxHistory
    ensures r[1..] <= Without(history, term)
  {
    var rest := Without(history, term);
    var entries := [term] + rest;
    var r := entries[..if |entries| < MaxHistory then |entries| else MaxHistory];
    assert r[1..] == rest[..|r| - 1];
    assert term !in rest;
    r
  }

  /** Removing a term that is absent changes nothing. */
  lemma {:induction false} WithoutAbsent(s: seq<string>, term: string)
    requires term !in s
    ensures Without(s, term) == s
  {
    if s != [] {
      WithoutAbsent(s[1..], term);
      assert s == [s[0]] + s[1..];
    }
  }

  /** A leading prefix of a subsequence is still a subsequence. */
  lemma {:induction false} PrefixOfSubsequence(a: seq<string>, b: seq<string>, n: nat)
    requires IsSubsequence(a, b)
    requires n <= |a|
    ensures IsSubsequence(a[..n], b)
    decreases |b|
  {
    if n > 0 {
      if a[0] == b[0] && IsSubsequence(a[1..], b[1..]) {
        PrefixOfSubsequence(a[1..], b[1..], n - 1);
        assert a[..n][1..] == a[1..][..n - 1];
      } else {
        PrefixOfSubsequence(a, b[1..], n);
      }
    }
  }

  /** After a search the term heads the list exactly once, at most ten
      entries remain, and the entries after it are earlier entries in their
      earlier order. */
  lemma AddKeepsOrder(history: seq<string>, term: string)
    ensures var r := AddToHistory(history, term);
            && |r| <= MaxHistory
            && r[0] == term
            && (forall i :: 1 <= i < |r| ==> r[i] != term)
            && IsSubsequence(r[1..], history)
  {
    var r := AddToHistory(history, term);
    var w := Without(history, term);
    assert r[1..] == w[..|r| - 1];
    PrefixOfSubsequence(w, history, |r| - 1);
  }

  /** A list without duplicates stays without duplicates. */
  lemma AddKeepsNoDuplicates(history: seq<string>, term: string)
    requires NoDuplicates(history)
    ensures NoDuplicates(AddToHistory(history, term))
  {
    var r := AddToHistory(history, term);
    var w := Without(history, term);
    assert r[1..] == w[..|r| - 1];
    forall i, j | 0 <= i < j < |r|
      ensures r[i] != r[j]
    {
      if i > 0 {
        assert r[i] == w[i - 1] && r[j] == w[j - 1];
      } else {
        assert r[j] in r[1..];
      }
    }
  }

  /** While there is room nothing is evicted: the list holds exactly the
      term and the earlier entries. */
  lemma AddKeepsEverythingWhileRoom(history: seq<string>, term: string)
    requires |Without(history, term)| < MaxHistory
    ensures forall x :: x in AddToHistory(history, term) <==> x == term || x in history
  {
    var r := AddToHistory(history, term);
    assert r == [term] + Without(history, term);
  }

  /** Searching the same term twice in a row leaves the same list as searching it once. */
  lemma AddIdempotent(history: seq<string>, term: string)
    ensures AddToHistory(AddToHistory(history, term), term) == AddToHistory(history, term)
  {
    var r := AddToHistory(history, term);
    assert r == [term] + r[1..];
    assert Without(r, term) == Without(r[1..], term);
    WithoutAbsent(r[1..], term);
  }
}
