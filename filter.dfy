// The result filter of the lookup: which candidates a search shows, and in
// what order. `SearchResults` is the reference definition that the
// component's `UpdateSearchResults` loop is proved against.

module Filter {
  import opened Text
  import opened Seqs
  import opened Candidates

  /** What a search filters by: the selection mode, the current selection
      (excluded in multiple mode), the properties to search and the
      lower-cased search text. */
  datatype Criteria = Criteria(
    multiple: bool,
    selected: seq<Candidate>,
    properties: seq<string>,
    searchTextLower: string)

  /** Some searched property of `item`, lower-cased, contains the search
      text. */
  predicate SearchMatch(item: Candidate, properties: seq<string>, searchTextLower: string)
  {
    exists k :: 0 <= k < |properties| && Contains(Lower(Property(item, properties[k])), searchTextLower)
  }

  /** A candidate the search may show: it matches, and in multiple mode it is
      not selected yet. */
  predicate Qualifies(c: Criteria, item: Candidate)
  {
    (!c.multiple || item !in c.selected) && SearchMatch(item, c.properties, c.searchTextLower)
  }

  /** All qualifying candidates of `data`, in data order. */
  function Matches(c: Criteria, data: seq<Candidate>): (r: seq<Candidate>)
    ensures |r| <= |data|
  {
    if data == [] then []
    else Matches(c, data[..|data| - 1]) + (if Qualifies(c, data[|data| - 1]) then [data[|data| - 1]] else [])
  }

  /** How many of `available` matches a results limit keeps. A limit of 0 is
      an unset (falsy) limit and keeps all; a negative limit is truthy and
      already reached before the first candidate, so it keeps none. */
  function Kept(limit: int, available: nat): (n: nat)
    ensures n <= available
  {
    if limit == 0 then available
    else if limit < 0 then 0
    else if limit < available then limit
    else available
  }

  /** The results of a search: the first qualifying candidates of `data`, cut
      off at the results limit. */
  function SearchResults(c: Criteria, data: seq<Candidate>, limit: int): (r: seq<Candidate>)
    ensures limit > 0 ==> |r| <= limit
    ensures limit < 0 ==> r == []
  {
    var m := Matches(c, data);
    m[..Kept(limit, |m|)]
  }

  /** The search ignores case: a candidate whose searched property contains
      the text as typed, in any mix of ASCII case, matches the lower-cased
      search text. */
  lemma ExactOccurrenceMatches(item: Candidate, properties: seq<string>, text: string, k: nat)
    requires k < |properties| && Contains(Property(item, properties[k]), text)
    ensures SearchMatch(item, properties, Lower(text))
  {
    LowerPreservesContains(Property(item, properties[k]), text);
  }

  /** Filtering distributes over concatenation. */
  lemma {:induction false} MatchesAppend(c: Criteria, a: seq<Candidate>, b: seq<Candidate>)
    ensures Matches(c, a + b) == Matches(c, a) + Matches(c, b)
    decreases |b|
  {
    if b == [] {
      assert a + b == a;
    } else {
      var b' := b[..|b| - 1];
      assert (a + b)[..|a + b| - 1] == a + b';
      assert (a + b)[|a + b| - 1] == b[|b| - 1];
      MatchesAppend(c, a, b');
    }
  }

  /** A candidate is among the matches exactly when it is in `data` and
      qualifies. */
  lemma {:induction false} MatchesMembership(c: Criteria, data: seq<Candidate>, x: Candidate)
    ensures x in Matches(c, data) <==> x in data && Qualifies(c, x)
    decreases |data|
  {
    if data != [] {
      var d' := data[..|data| - 1];
      MatchesMembership(c, d', x);
      assert data == d' + [data[|data| - 1]];
    }
  }

  /** The matches keep the order of `data`. */
  lemma {:induction false} MatchesSubsequence(c: Criteria, data: seq<Candidate>)
    ensures IsSubsequence(Matches(c, data), data)
    decreases |data|
  {
    if data != [] {
      var d' := data[..|data| - 1];
      var m' := Matches(c, d');
      MatchesSubsequence(c, d');
      var m := Matches(c, data);
      if Qualifies(c, data[|data| - 1]) {
        assert m[..|m| - 1] == m';
      } else {
        assert m == m';
      }
    }
  }

  /** What the results of a search are: an order-preserving subsequence of
      `data`; each one matches the search text; in multiple mode none is
      already selected; there are at most `limit` of them when a limit is
      set, and without a limit they are exactly the qualifying candidates. */
  lemma SearchResultsProperties(c: Criteria, data: seq<Candidate>, limit: int)
    ensures IsSubsequence(SearchResults(c, data, limit), data)
    ensures forall x :: x in SearchResults(c, data, limit) ==> SearchMatch(x, c.properties, c.searchTextLower)
    ensures c.multiple ==> forall x :: x in SearchResults(c, data, limit) ==> x !in c.selected
    ensures limit != 0 ==> |SearchResults(c, data, limit)| <= if limit < 0 then 0 else limit
    ensures limit == 0 ==> forall x :: x in SearchResults(c, data, limit) <==> x in data && Qualifies(c, x)
  {
    var m := Matches(c, data);
    var r := SearchResults(c, data, limit);
    MatchesSubsequence(c, data);
    SubsequencePrefix(m, data, Kept(limit, |m|));
    forall x | x in r ensures x in data && Qualifies(c, x) {
      assert x in m;
      MatchesMembership(c, data, x);
    }
    if limit == 0 {
      assert r == m;
      forall x ensures x in r <==> x in data && Qualifies(c, x) {
        MatchesMembership(c, data, x);
      }
    }
  }

  /** The limit is a hard cut, not a ranking: a qualifying candidate is left
      out only when the results are already full. */
  lemma SearchResultsComplete(c: Criteria, data: seq<Candidate>, limit: int, x: Candidate)
    requires x in data && Qualifies(c, x)
    requires x !in SearchResults(c, data, limit)
    ensures limit != 0 && |SearchResults(c, data, limit)| == if limit < 0 then 0 else limit
  {
    MatchesMembership(c, data, x);
    assert SearchResults(c, data, limit) != Matches(c, data);
  }

  /** First-match order wins: the results are all the matches found in some
      prefix of `data`, so an earlier qualifying candidate is never passed
      over in favour of a later one. */
  lemma {:induction false} SearchResultsFirstMatches(c: Criteria, data: seq<Candidate>, limit: int)
    ensures exists p :: 0 <= p <= |data| && SearchResults(c, data, limit) == Matches(c, data[..p])
    decreases |data|
  {
    var m := Matches(c, data);
    var r := SearchResults(c, data, limit);
    if r == m {
      assert data[..|data|] == data;
    } else {
      var d' := data[..|data| - 1];
      var m' := Matches(c, d');
      var n := Kept(limit, |m|);
      assert r == m[..n] && n < |m| <= |m'| + 1;
      assert m[..n] == m'[..n];
      assert Kept(limit, |m'|) == n;
      SearchResultsFirstMatches(c, d', limit);
      var p :| 0 <= p <= |d'| && SearchResults(c, d', limit) == Matches(c, d'[..p]);
      assert d'[..p] == data[..p];
    }
  }

  /** Walking `data` in order and stopping either at the end or as soon as a
      set limit is reached yields the search results: the matches of the
      prefix walked so far. */
  lemma SearchResultsStopAtLimit(c: Criteria, data: seq<Candidate>, limit: int, i: nat)
    requires i <= |data|
    requires i == |data| || (limit != 0 && |Matches(c, data[..i])| >= limit)
    requires limit > 0 ==> |Matches(c, data[..i])| <= limit
    requires limit < 0 ==> i == 0
    ensures SearchResults(c, data, limit) == Matches(c, data[..i])
  {
    var a := Matches(c, data[..i]);
    if i == |data| {
      assert data[..i] == data;
    } else if limit < 0 {
      assert a == [];
    } else {
      MatchesAppend(c, data[..i], data[i..]);
      assert data[..i] + data[i..] == data;
      var m := Matches(c, data);
      assert |a| == limit && m == a + Matches(c, data[i..]);
      assert m[..limit] == a;
    }
  }

  /** When `data` holds no candidate twice, neither do the results. */
  lemma SearchResultsDistinct(c: Criteria, data: seq<Candidate>, limit: int)
    requires NoDuplicates(data)
    ensures NoDuplicates(SearchResults(c, data, limit))
  {
    SearchResultsProperties(c, data, limit);
    SubsequenceNoDuplicates(SearchResults(c, data, limit), data);
  }

  /** Searching for a candidate's own descriptor text finds it, when the
      descriptor is one of the searched properties, no limit is set and (in
      multiple mode) it is not selected yet. */
  lemma DescriptorSearchFindsItem(c: Criteria, data: seq<Candidate>, item: Candidate, descriptor: string)
    requires item in data && descriptor in c.properties
    requires c.searchTextLower == Lower(Property(item, descriptor))
    requires c.multiple ==> item !in c.selected
    ensures item in SearchResults(c, data, 0)
  {
    var k :| 0 <= k < |c.properties| && c.properties[k] == descriptor;
    ContainsSelf(Lower(Property(item, descriptor)));
    assert SearchMatch(item, c.properties, c.searchTextLower);
    SearchResultsProperties(c, data, 0);
  }
}
