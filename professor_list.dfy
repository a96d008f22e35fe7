/**
 * The professor list of the index page. With a search query: the professors
 * whose lower-cased name contains the lower-cased query, then, when there
 * are fewer than 15 of those, the professors named in the fuzzy matcher's
 * result that are not already listed. Without a query: up to 15 rated
 * professors, best first, filled up to 15 with unrated ones.
 *
 * The fuzzy matcher and the database's ordering (including ORDER BY RANDOM())
 * are not modelled: their results are inputs.
 */
module ProfessorList {
  import opened Text

  datatype Professor = Professor(id: int, name: string, designation: string, photo: string,
                                 avgRating: real, numRatings: nat, profile: string)

  /** The number of professors the index page aims to show. */
  const PageSize: nat := 15

  /** `search_query in prof['Name'].lower()` (the query is lower-cased by the route). */
  predicate NameMatches(p: Professor, query: string) {
    Contains(Lower(p.name), query)
  }

  /** The rows of `all` that satisfy `keep`, in table order: a list
      comprehension with a condition. */
  function Select(all: seq<Professor>, keep: Professor -> bool): (r: seq<Professor>)
    ensures |r| <= |all|
    ensures forall p {:trigger p in r} :: p in r <==> p in all && keep(p)
  {
    if all == [] then []
    else
      var last := all[|all| - 1];
      assert all == all[..|all| - 1] + [last];
      Select(all[..|all| - 1], keep) + (if keep(last) then [last] else [])
  }

  /** The positions of the rows `Select` keeps, in ascending order. */
  function SelectIndices(all: seq<Professor>, keep: Professor -> bool): (idx: seq<nat>)
    ensures forall j :: 0 <= j < |idx| ==> idx[j] < |all| && keep(all[idx[j]])
    ensures forall j, j' :: 0 <= j < j' < |idx| ==> idx[j] < idx[j']
    ensures forall k :: 0 <= k < |all| && keep(all[k]) ==> k in idx
  {
    if all == [] then []
    else
      var n := |all| - 1;
      SelectIndices(all[..n], keep) + (if keep(all[n]) then [n] else [])
  }

  /** The j-th row `Select` keeps is the row at the j-th kept position, so
      the selection keeps table order. */
  lemma {:induction false} SelectInOrder(all: seq<Professor>, keep: Professor -> bool)
    ensures var r := Select(all, keep);
      var idx := SelectIndices(all, keep);
      |r| == |idx| && forall j :: 0 <= j < |r| ==> r[j] == all[idx[j]]
  {
    if all != [] {
      var n := |all| - 1;
      SelectInOrder(all[..n], keep);
      var r0 := Select(all[..n], keep);
      var idx0 := SelectIndices(all[..n], keep);
      forall j | 0 <= j < |r0| ensures r0[j] == all[idx0[j]] {
        assert all[..n][idx0[j]] == all[idx0[j]];
      }
    }
  }

  /** No row occurs twice. */
  predicate Distinct(s: seq<Professor>) {
    forall i, j :: 0 <= i < j < |s| ==> s[i] != s[j]
  }

  /** A selection from a table without repeated rows has none either. */
  lemma {:induction false} SelectDistinct(all: seq<Professor>, keep: Professor -> bool)
    requires Distinct(all)
    ensures Distinct(Select(all, keep))
  {
    if all != [] {
      var n := |all| - 1;
      SelectDistinct(all[..n], keep);
      assert all[n] !in all[..n];
      assert all[n] !in Select(all[..n], keep);
    }
  }

  /** The condition of the exact-match comprehension. */
  function MatchesQuery(query: string): Professor -> bool {
    p => NameMatches(p, query)
  }

  /** The condition of the fuzzy comprehension: named by the matcher and not
      already an exact match. */
  function IsFuzzyExtra(fuzzyNames: seq<string>, exact: seq<Professor>): Professor -> bool {
    (p: Professor) => p.name in fuzzyNames && p !in exact
  }

  /** The exact matches, in table order. */
  function ExactMatches(all: seq<Professor>, query: string): (r: seq<Professor>)
    ensures |r| <= |all|
    ensures forall p {:trigger p in r} :: p in r <==> p in all && NameMatches(p, query)
  {
    Select(all, MatchesQuery(query))
  }

  /** The professors named by the fuzzy matcher that are not exact matches, in table order. */
  function FuzzyExtras(all: seq<Professor>, fuzzyNames: seq<string>, exact: seq<Professor>): (r: seq<Professor>)
    ensures forall p {:trigger p in r} :: p in r <==> p in all && p.name in fuzzyNames && p !in exact
  {
    Select(all, IsFuzzyExtra(fuzzyNames, exact))
  }

  /** The list for a non-empty query: only rows of the table, and every exact
      match among them. `SearchMembers`, `SearchExactFirst` and
      `SearchExtrasInOrder` say exactly which rows and in what order. */
  function SearchResults(all: seq<Professor>, query: string, fuzzyNames: seq<string>): (r: seq<Professor>)
    ensures forall p {:trigger p in r} :: p in r ==> p in all
    ensures forall p {:trigger p in all} :: p in all && NameMatches(p, query) ==> p in r
  {
    var exact := ExactMatches(all, query);
    if |exact| < PageSize then exact + FuzzyExtras(all, fuzzyNames, exact) else exact
  }

  /** Who is on the search list: every exact match, and the fuzzy-named
      professors only when the exact matches are fewer than 15. */
  lemma SearchMembers(all: seq<Professor>, query: string, fuzzyNames: seq<string>, p: Professor)
    ensures p in SearchResults(all, query, fuzzyNames) <==>
      p in all && (NameMatches(p, query)
                   || (|ExactMatches(all, query)| < PageSize && p.name in fuzzyNames))
  {
  }

  /** The exact matches come first, in table order, and are not cut at 15. */
  lemma {:induction false} SearchExactFirst(all: seq<Professor>, query: string, fuzzyNames: seq<string>)
    ensures var r := SearchResults(all, query, fuzzyNames);
      var exact := ExactMatches(all, query);
      var idx := SelectIndices(all, MatchesQuery(query));
      && |r| >= |exact| == |idx|
      && (forall j :: 0 <= j < |exact| ==> r[j] == all[idx[j]])
      && (|exact| >= PageSize ==> r == exact)
  {
    var r := SearchResults(all, query, fuzzyNames);
    var exact := ExactMatches(all, query);
    var idx := SelectIndices(all, MatchesQuery(query));
    SelectInOrder(all, MatchesQuery(query));
    assert r[..|exact|] == exact;
    forall j | 0 <= j < |exact| ensures r[j] == all[idx[j]] {
      assert r[j] == r[..|exact|][j] == exact[j];
    }
  }

  /** Below 15 exact matches the fuzzy extras follow them, in table order. */
  lemma {:induction false} SearchExtrasInOrder(all: seq<Professor>, query: string, fuzzyNames: seq<string>)
    requires |ExactMatches(all, query)| < PageSize
    ensures var r := SearchResults(all, query, fuzzyNames);
      var exact := ExactMatches(all, query);
      var extras := FuzzyExtras(all, fuzzyNames, exact);
      var xidx := SelectIndices(all, IsFuzzyExtra(fuzzyNames, exact));
      && r[|exact|..] == extras
      && |extras| == |xidx| && forall j :: 0 <= j < |xidx| ==> extras[j] == all[xidx[j]]
  {
    var exact := ExactMatches(all, query);
    SelectInOrder(all, IsFuzzyExtra(fuzzyNames, exact));
    assert SearchResults(all, query, fuzzyNames) == exact + FuzzyExtras(all, fuzzyNames, exact);
  }

  lemma SearchDistinct(all: seq<Professor>, query: string, fuzzyNames: seq<string>)
    requires Distinct(all)
    ensures Distinct(SearchResults(all, query, fuzzyNames))
  {
    var exact := ExactMatches(all, query);
    SelectDistinct(all, MatchesQuery(query));
    var extras := FuzzyExtras(all, fuzzyNames, exact);
    SelectDistinct(all, IsFuzzyExtra(fuzzyNames, exact));
    var r := SearchResults(all, query, fuzzyNames);
    if |exact| < PageSize {
      assert r == exact + extras;
      forall i, j | 0 <= i < j < |r| ensures r[i] != r[j] {
        if j < |exact| {
          assert r[i] == exact[i] && r[j] == exact[j];
        } else if i < |exact| {
          assert r[j] == extras[j - |exact|];
          assert r[j] in extras;
          assert r[i] == exact[i];
          assert r[i] in exact;
        } else {
          assert r[i] == extras[i - |exact|] && r[j] == extras[j - |exact|];
        }
      }
    } else {
      assert r == exact;
    }
  }

  function Min(a: nat, b: nat): nat {
    if a <= b then a else b
  }

  /** The list without a query: `rated` is the rated query's result (at most
      15 rows), `unrated` the unrated professors in the order the database
      drew them; the first 15 - |rated| of them fill the page. */
  function TopList(rated: seq<Professor>, unrated: seq<Professor>): (r: seq<Professor>)
    requires |rated| <= PageSize
    ensures |r| == Min(PageSize, |rated| + |unrated|)
    ensures r[..|rated|] == rated
    ensures r[|rated|..] == unrated[..|r| - |rated|]
  {
    if |rated| < PageSize then
      var needed := PageSize - |rated|;
      rated + unrated[..Min(needed, |unrated|)]
    else rated
  }

  /** When the two queries return what they select, the rated professors on
      the page are exactly the rated query's result, in its order. */
  lemma TopListRatedPart(rated: seq<Professor>, unrated: seq<Professor>, i: nat)
    requires |rated| <= PageSize
    requires forall k :: 0 <= k < |rated| ==> rated[k].numRatings > 0
    requires forall k :: 0 <= k < |unrated| ==> unrated[k].numRatings == 0
    requires i < |TopList(rated, unrated)|
    ensures TopList(rated, unrated)[i].numRatings > 0 <==> i < |rated|
  {
    var r := TopList(rated, unrated);
    if i >= |rated| {
      assert r[i] == r[|rated|..][i - |rated|] == unrated[i - |rated|];
    } else {
      assert r[i] == r[..|rated|][i];
    }
  }
}
