/**
  What the topic catalog promises: the characterisation of the two array
  operations it is built from, the invariants of the literal table, and what
  follows from them for the three lookups.
*/
module CatalogProperties {
  import opened Wrappers
  import opened TopicCatalog

  /** No two topics of `s` share a slug. */
  ghost predicate SlugsDistinct(s: seq<Topic>)
  {
    forall i, j :: 0 <= i < j < |s| ==> s[i].slug != s[j].slug
  }

  /** No name occurs twice in `names`. */
  ghost predicate NamesDistinct(names: seq<string>)
  {
    forall i, j :: 0 <= i < j < |names| ==> names[i] != names[j]
  }

  // ---------------------------------------------------------------------------
  // Array.prototype.filter

  /** A topic is kept by `Filter` exactly when it occurs in `s` and satisfies `c`. */
  lemma {:induction false} FilterContains(s: seq<Topic>, c: Criterion, t: Topic)
    ensures t in Filter(s, c) <==> t in s && Matches(c, t)
    decreases |s|
  {
    if |s| > 0 {
      FilterContains(s[1..], c, t);
      assert s == [s[0]] + s[1..];
    }
  }

  /** A subsequence made only of topics satisfying `c` is no longer than their count. */
  lemma {:induction false} SubsequenceBound(r: seq<Topic>, s: seq<Topic>, c: Criterion)
    requires IsSubsequence(r, s)
    requires forall i :: 0 <= i < |r| ==> Matches(c, r[i])
    ensures |r| <= Count(s, c)
    decreases |s|
  {
    if |r| == 0 {
    } else if r[0] == s[0] && IsSubsequence(r[1..], s[1..]) {
      SubsequenceBound(r[1..], s[1..], c);
    } else {
      SubsequenceBound(r, s[1..], c);
    }
  }

  /**
    `Filter(s, c)` is the only subsequence of `s` that consists of topics
    satisfying `c` and is as long as the number of such topics in `s`.
  */
  lemma {:induction false} FilterUnique(r: seq<Topic>, s: seq<Topic>, c: Criterion)
    requires IsSubsequence(r, s)
    requires forall i :: 0 <= i < |r| ==> Matches(c, r[i])
    requires |r| == Count(s, c)
    ensures r == Filter(s, c)
    decreases |s|
  {
    if |s| == 0 {
    } else if Matches(c, s[0]) {
      if |r| == 0 {
      } else if r[0] == s[0] && IsSubsequence(r[1..], s[1..]) {
        FilterUnique(r[1..], s[1..], c);
        assert r == [r[0]] + r[1..];
      } else {
        SubsequenceBound(r, s[1..], c);
        assert false;
      }
    } else {
      if |r| > 0 {
        assert r[0] != s[0] by { assert Matches(c, r[0]); }
      }
      FilterUnique(r, s[1..], c);
    }
  }

  /** `Filter` is characterised, in both directions, by the three properties above. */
  lemma FilterCharacterization(r: seq<Topic>, s: seq<Topic>, c: Criterion)
    ensures r == Filter(s, c) <==>
      && IsSubsequence(r, s)
      && (forall i :: 0 <= i < |r| ==> Matches(c, r[i]))
      && |r| == Count(s, c)
  {
    if IsSubsequence(r, s) && (forall i :: 0 <= i < |r| ==> Matches(c, r[i])) && |r| == Count(s, c) {
      FilterUnique(r, s, c);
    }
  }

  /** Filtering a concatenation filters each part and keeps the parts in order. */
  lemma {:induction false} FilterConcat(a: seq<Topic>, b: seq<Topic>, c: Criterion)
    ensures Filter(a + b, c) == Filter(a, c) + Filter(b, c)
    decreases |a|
  {
    if |a| == 0 {
      assert a + b == b;
    } else {
      assert (a + b)[1..] == a[1..] + b;
      FilterConcat(a[1..], b, c);
    }
  }

  /** When every topic satisfies `c`, `Filter` returns its input unchanged. */
  lemma {:induction false} FilterKeepsAll(s: seq<Topic>, c: Criterion)
    requires forall i :: 0 <= i < |s| ==> Matches(c, s[i])
    ensures Filter(s, c) == s
    decreases |s|
  {
    if |s| > 0 {
      FilterKeepsAll(s[1..], c);
      assert s == [s[0]] + s[1..];
    }
  }

  /** When no topic satisfies `c`, `Filter` returns the empty sequence. */
  lemma {:induction false} FilterDropsAll(s: seq<Topic>, c: Criterion)
    requires forall i :: 0 <= i < |s| ==> !Matches(c, s[i])
    ensures Filter(s, c) == []
    decreases |s|
  {
    if |s| > 0 {
      FilterDropsAll(s[1..], c);
    }
  }

  // ---------------------------------------------------------------------------
  // Invariants of the literal table

  /** The slugs of the table are pairwise distinct. */
  lemma TableSlugsDistinct()
    ensures SlugsDistinct(Topics)
  {
  }

  /** Every topic's category is one of the listed categories. */
  lemma TableCategoriesListed()
    ensures forall i :: 0 <= i < |Topics| ==> Topics[i].category in Categories
  {
  }

  /** The category names are pairwise distinct. */
  lemma CategoriesDistinct()
    ensures NamesDistinct(Categories)
  {
  }

  // ---------------------------------------------------------------------------
  // getTopicBySlug

  /** Every topic of the table is what the lookup returns for its own slug. */
  lemma GetTopicBySlugUnique(t: Topic)
    requires t in Topics
    ensures GetTopicBySlug(t.slug) == Some(t)
  {
    var k :| 0 <= k < |Topics| && Topics[k] == t;
    var r := GetTopicBySlug(t.slug);
    assert r.Some? by { assert !(Topics[k].slug != t.slug); }
    var i :| IsFirstMatch(Topics, SlugIs(t.slug), i) && Topics[i] == r.value;
    TableSlugsDistinct();
    assert i == k;
  }

  // ---------------------------------------------------------------------------
  // getTopicsByCategory and getImplementedTopics

  /** A topic is listed under `category` exactly when it is in the table with that category. */
  lemma GetTopicsByCategoryContains(category: string, t: Topic)
    ensures t in GetTopicsByCategory(category) <==> t in Topics && t.category == category
  {
    FilterContains(Topics, CategoryIs(category), t);
  }

  /** A topic is listed as implemented exactly when it is in the table and implemented. */
  lemma GetImplementedTopicsContains(t: Topic)
    ensures t in GetImplementedTopics() <==> t in Topics && t.implemented
  {
    FilterContains(Topics, Implemented, t);
  }

  /** A category that is not listed (such as "Misc") has no topics. */
  lemma UnknownCategoryEmpty(category: string)
    requires category !in Categories
    ensures GetTopicsByCategory(category) == []
  {
    var r := GetTopicsByCategory(category);
    if |r| > 0 {
      GetTopicsByCategoryContains(category, r[0]);
      TableCategoriesListed();
      assert false;
    }
  }

  /** The table is its five implemented topics followed by eight that are not. */
  lemma TableSplitsAtFive()
    ensures Topics == [Http, Dns, Internet, BrowserRendering, EventLoop] + Topics[5..]
    ensures forall i :: 0 <= i < |Topics[5..]| ==> !Topics[5..][i].implemented
  {
  }

  /**
    The implemented topics are the first five of the table, in table order:
    http, dns, internet, browser-rendering and event-loop.
  */
  lemma ImplementedTopicsAreFirstFive()
    ensures GetImplementedTopics() == [Http, Dns, Internet, BrowserRendering, EventLoop]
  {
    var first := [Http, Dns, Internet, BrowserRendering, EventLoop];
    TableSplitsAtFive();
    FilterConcat(first, Topics[5..], Implemented);
    FilterKeepsAll(first, Implemented);
    FilterDropsAll(Topics[5..], Implemented);
  }

  // ---------------------------------------------------------------------------
  // The categories partition the table

  /** The number of positions of `names` holding `x`. */
  function Occurrences(names: seq<string>, x: string): nat
  {
    if |names| == 0 then 0
    else (if names[0] == x then 1 else 0) + Occurrences(names[1..], x)
  }

  /** The summed sizes of the category filters of `s` over `names`. */
  function CategoryTotal(s: seq<Topic>, names: seq<string>): nat
  {
    if |names| == 0 then 0
    else Count(s, CategoryIs(names[0])) + CategoryTotal(s, names[1..])
  }

  /** The summed lengths of `getTopicsByCategory` over `names`. */
  function CategorySizes(names: seq<string>): nat
  {
    if |names| == 0 then 0
    else |GetTopicsByCategory(names[0])| + CategorySizes(names[1..])
  }

  /** A name of a list of distinct names occurs in it exactly once. */
  lemma {:induction false} OccurrencesOfDistinct(names: seq<string>, x: string)
    requires NamesDistinct(names)
    requires x in names
    ensures Occurrences(names, x) == 1
    decreases |names|
  {
    assert NamesDistinct(names[1..]) by {
      forall i, j | 0 <= i < j < |names| - 1 ensures names[1..][i] != names[1..][j] {
        assert names[i + 1] != names[j + 1];
      }
    }
    if names[0] == x {
      OccurrencesOfMissing(names[1..], x);
    } else {
      OccurrencesOfDistinct(names[1..], x);
    }
  }

  /** A name absent from a list occurs in it zero times. */
  lemma {:induction false} OccurrencesOfMissing(names: seq<string>, x: string)
    requires x !in names
    ensures Occurrences(names, x) == 0
    decreases |names|
  {
    if |names| > 0 {
      OccurrencesOfMissing(names[1..], x);
    }
  }

  /** An empty table has no topics in any category. */
  lemma {:induction false} CategoryTotalEmpty(names: seq<string>)
    ensures CategoryTotal([], names) == 0
    decreases |names|
  {
    if |names| > 0 {
      CategoryTotalEmpty(names[1..]);
    }
  }

  /** Removing the first topic lowers the total by the number of listings of its category. */
  lemma {:induction false} CategoryTotalStep(s: seq<Topic>, names: seq<string>)
    requires |s| > 0
    ensures CategoryTotal(s, names) == CategoryTotal(s[1..], names) + Occurrences(names, s[0].category)
    decreases |names|
  {
    if |names| > 0 {
      CategoryTotalStep(s, names[1..]);
    }
  }

  /**
    When the names are distinct and cover every topic's category, the category
    filters together count every topic exactly once.
  */
  lemma {:induction false} CategoryTotalIsLength(s: seq<Topic>, names: seq<string>)
    requires NamesDistinct(names)
    requires forall i :: 0 <= i < |s| ==> s[i].category in names
    ensures CategoryTotal(s, names) == |s|
    decreases |s|
  {
    if |s| == 0 {
      CategoryTotalEmpty(names);
    } else {
      CategoryTotalStep(s, names);
      OccurrencesOfDistinct(names, s[0].category);
      CategoryTotalIsLength(s[1..], names);
    }
  }

  /** The lengths of `getTopicsByCategory` are the category counts of the table. */
  lemma {:induction false} CategorySizesAreCounts(names: seq<string>)
    ensures CategorySizes(names) == CategoryTotal(Topics, names)
    decreases |names|
  {
    if |names| > 0 {
      CategorySizesAreCounts(names[1..]);
    }
  }

  /** The lengths of `getTopicsByCategory` over all listed categories add up to the table's 13 topics. */
  lemma CategorySizesCoverTable()
    ensures CategorySizes(Categories) == |Topics| == 13
  {
    CategoriesDistinct();
    TableCategoriesListed();
    CategorySizesAreCounts(Categories);
    CategoryTotalIsLength(Topics, Categories);
  }

  /** Every topic of the table is listed under exactly one of the categories. */
  lemma TopicInExactlyOneCategory(t: Topic)
    requires t in Topics
    ensures exists i :: 0 <= i < |Categories| && t in GetTopicsByCategory(Categories[i])
    ensures forall i, j ::
      && 0 <= i < |Categories| && 0 <= j < |Categories|
      && t in GetTopicsByCategory(Categories[i]) && t in GetTopicsByCategory(Categories[j])
      ==> i == j
  {
    TableCategoriesListed();
    CategoriesDistinct();
    var i :| 0 <= i < |Categories| && Categories[i] == t.category;
    GetTopicsByCategoryContains(Categories[i], t);
    forall i, j |
      && 0 <= i < |Categories| && 0 <= j < |Categories|
      && t in GetTopicsByCategory(Categories[i]) && t in GetTopicsByCategory(Categories[j])
      ensures i == j
    {
      GetTopicsByCategoryContains(Categories[i], t);
      GetTopicsByCategoryContains(Categories[j], t);
    }
  }
}
