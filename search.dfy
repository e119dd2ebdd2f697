/** The search list (`updateFilteredRecipe` in picker.go): every recipe
    whose name the fuzzy matcher accepts for the query, carrying the
    matcher's rank as its similarity, ordered by similarity. The matcher
    itself is the parameter `rank`; a rank of -1 means "no match". */
module Search {
  import opened Catalog

  /** The recipes of `all` the matcher accepts, in the order of `all`, each
      with its similarity set to its rank. */
  function Ranked(all: seq<Recipe>, query: string, rank: (string, string) -> int): (r: seq<Recipe>)
    ensures |r| <= |all|
    ensures forall k :: 0 <= k < |r| ==> r[k].similarity == rank(query, r[k].name) > -1
  {
    if all == [] then []
    else
      var x := all[|all| - 1];
      var rest := Ranked(all[..|all| - 1], query, rank);
      if rank(query, x.name) > -1 then rest + [x.(similarity := rank(query, x.name))] else rest
  }

  /** Exactly the accepted recipes are kept, and nothing but their
      similarity is changed. */
  lemma {:induction false} RankedMembers(all: seq<Recipe>, query: string, rank: (string, string) -> int, x: Recipe)
    ensures x in Ranked(all, query, rank)
            <==> exists i :: 0 <= i < |all| && rank(query, all[i].name) > -1
                             && x == all[i].(similarity := rank(query, all[i].name))
  {
    if all != [] {
      var init := all[..|all| - 1];
      RankedMembers(init, query, rank, x);
      assert forall i :: 0 <= i < |init| ==> init[i] == all[i];
      var y := all[|all| - 1];
      if x == y.(similarity := rank(query, y.name)) && rank(query, y.name) > -1 {
        assert x in Ranked(all, query, rank);
      }
    }
  }

  predicate SortedBySimilarity(s: seq<Recipe>) {
    forall i, j :: 0 <= i < j < |s| ==> s[i].similarity <= s[j].similarity
  }

  function InsertBySimilarity(x: Recipe, s: seq<Recipe>): (r: seq<Recipe>)
    requires SortedBySimilarity(s)
    ensures SortedBySimilarity(r)
    ensures multiset(r) == multiset(s) + multiset{x}
  {
    if s == [] then [x]
    else if x.similarity <= s[0].similarity then [x] + s
    else
      var t := InsertBySimilarity(x, s[1..]);
      assert s == [s[0]] + s[1..];
      assert forall j :: 0 <= j < |t| ==> s[0].similarity <= t[j].similarity by {
        forall j | 0 <= j < |t| ensures s[0].similarity <= t[j].similarity {
          assert t[j] in multiset(t);
          if t[j] != x {
            assert t[j] in multiset(s[1..]);
            var m :| 0 <= m < |s[1..]| && s[1..][m] == t[j];
            assert s[m + 1] == t[j];
          }
        }
      }
      [s[0]] + t
  }

  /** A permutation ordered by similarity (one of the orders the unstable
      library sort may produce). */
  function SortBySimilarity(s: seq<Recipe>): (r: seq<Recipe>)
    ensures SortedBySimilarity(r)
    ensures multiset(r) == multiset(s)
  {
    if s == [] then []
    else
      assert s == [s[0]] + s[1..];
      InsertBySimilarity(s[0], SortBySimilarity(s[1..]))
  }

  /** What the search list is for a query: the accepted recipes, with their
      ranks, in non-decreasing similarity order. */
  predicate IsRankedFilter(filtered: seq<Recipe>, all: seq<Recipe>, query: string, rank: (string, string) -> int) {
    SortedBySimilarity(filtered) && multiset(filtered) == multiset(Ranked(all, query, rank))
  }

  /** A list satisfying the description holds exactly the accepted
      recipes, each carrying its rank. */
  lemma RankedFilterMembers(filtered: seq<Recipe>, all: seq<Recipe>, query: string, rank: (string, string) -> int, x: Recipe)
    requires IsRankedFilter(filtered, all, query, rank)
    ensures x in filtered
            <==> exists i :: 0 <= i < |all| && rank(query, all[i].name) > -1
                             && x == all[i].(similarity := rank(query, all[i].name))
  {
    assert x in filtered <==> x in multiset(filtered);
    assert x in Ranked(all, query, rank) <==> x in multiset(Ranked(all, query, rank));
    RankedMembers(all, query, rank, x);
  }

  /** The loop over all recipes, then the sort by similarity. */
  method FilterRecipes(all: seq<Recipe>, query: string, rank: (string, string) -> int) returns (filtered: seq<Recipe>)
    ensures IsRankedFilter(filtered, all, query, rank)
  {
    var collected: seq<Recipe> := [];
    var i := 0;
    while i < |all|
      invariant 0 <= i <= |all|
      invariant collected == Ranked(all[..i], query, rank)
    {
      var r := all[i];
      assert all[..i + 1][..i] == all[..i] && all[..i + 1][i] == r;
      var score := rank(query, r.name);
      if score > -1 {
        r := r.(similarity := score);
        collected := collected + [r];
      }
      i := i + 1;
    }
    assert all[..i] == all;
    filtered := SortBySimilarity(collected);
  }

  /** With a matcher that rejects everything, the search list is empty. */
  lemma NothingMatches(all: seq<Recipe>, query: string, rank: (string, string) -> int, filtered: seq<Recipe>)
    requires forall name :: rank(query, name) == -1
    requires IsRankedFilter(filtered, all, query, rank)
    ensures filtered == []
  {
    RankedNone(all, query, rank);
    assert |filtered| == |multiset(filtered)| == |multiset(Ranked(all, query, rank))| == 0;
  }

  lemma {:induction false} RankedNone(all: seq<Recipe>, query: string, rank: (string, string) -> int)
    requires forall name :: rank(query, name) == -1
    ensures Ranked(all, query, rank) == []
  {
    if all != [] {
      RankedNone(all[..|all| - 1], query, rank);
    }
  }
}
