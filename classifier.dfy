/**
 * The classification step of `analyzeContributions`: every contribution of
 * the user is counted either as an edit in one of the requested categories
 * or as an edit outside all of them. The network fetches that precede it
 * are modelled by their results: the list of contributions, and the page
 * list fetched for each requested category, in request order.
 */
module Classifier {

  /** A contribution record; only the title of the edited page is consulted. */
  datatype Contribution = Contribution(title: string)

  /** The two counters returned to the presentation layer. */
  datatype AnalysisResult = AnalysisResult(editsInCategories: nat, editsNotInCategories: nat)

  /** The per-category page lists, keyed by category name. */
  type CategoryPages = map<string, seq<string>>

  /** Every requested category has an entry in `pages`. */
  predicate Covers(pages: CategoryPages, categories: seq<string>)
  {
    forall c :: c in categories ==> c in pages
  }

  // ---------------------------------------------------------------------
  // Specification

  /**
   * A title belongs to the requested categories when the page list of at
   * least one of them contains it, by exact string equality.
   */
  predicate InCategories(title: string, categories: seq<string>, pages: CategoryPages)
    requires Covers(pages, categories)
  {
    exists c :: c in categories && title in pages[c]
  }

  /** The number of contributions whose title belongs to the categories. */
  function CountIn(contributions: seq<Contribution>, categories: seq<string>, pages: CategoryPages): (n: nat)
    requires Covers(pages, categories)
    ensures n <= |contributions|
  {
    if contributions == [] then 0
    else
      var last := |contributions| - 1;
      CountIn(contributions[..last], categories, pages)
        + (if InCategories(contributions[last].title, categories, pages) then 1 else 0)
  }

  /** The number of contributions whose title belongs to none of the categories. */
  function CountNotIn(contributions: seq<Contribution>, categories: seq<string>, pages: CategoryPages): (n: nat)
    requires Covers(pages, categories)
    ensures n <= |contributions|
  {
    if contributions == [] then 0
    else
      var last := |contributions| - 1;
      CountNotIn(contributions[..last], categories, pages)
        + (if InCategories(contributions[last].title, categories, pages) then 0 else 1)
  }

  /**
   * The map the fill loop leaves behind: one assignment per requested
   * category, in order, so a category named twice keeps the list fetched
   * for its last occurrence.
   */
  function FetchedPages(categories: seq<string>, fetched: seq<seq<string>>): (pages: CategoryPages)
    requires |fetched| == |categories|
    ensures forall c :: c in pages <==> c in categories
    ensures forall i :: 0 <= i < |categories| && categories[i] !in categories[i + 1..] ==>
      pages[categories[i]] == fetched[i]
  {
    if categories == [] then map[]
    else
      var last := |categories| - 1;
      var before := FetchedPages(categories[..last], fetched[..last]);
      LastWriteWins(categories, fetched, before);
      before[categories[last] := fetched[last]]
  }

  /** One more assignment to the map keeps `FetchedPages`'s contract. */
  lemma LastWriteWins(categories: seq<string>, fetched: seq<seq<string>>, before: CategoryPages)
    requires |fetched| == |categories| > 0
    requires var last := |categories| - 1;
      && (forall c :: c in before <==> c in categories[..last])
      && (forall i :: 0 <= i < last && categories[..last][i] !in categories[..last][i + 1..] ==>
            before[categories[..last][i]] == fetched[..last][i])
    ensures var last := |categories| - 1;
      var pages := before[categories[last] := fetched[last]];
      && (forall c :: c in pages <==> c in categories)
      && (forall i :: 0 <= i < |categories| && categories[i] !in categories[i + 1..] ==>
            pages[categories[i]] == fetched[i])
  {
    var last := |categories| - 1;
    var pages := before[categories[last] := fetched[last]];
    assert categories == categories[..last] + [categories[last]];
    forall i | 0 <= i < |categories| && categories[i] !in categories[i + 1..]
      ensures pages[categories[i]] == fetched[i]
    {
      if i < last {
        assert categories[i + 1..] == categories[..last][i + 1..] + [categories[last]];
        assert categories[..last][i] == categories[i];
      }
    }
  }

  // ---------------------------------------------------------------------
  // The imperative code

  /**
   * The fill loop of `analyzeContributions` (script.js lines 43-47): one
   * entry per requested category, each holding the page list fetched for it.
   */
  method BuildCategoryPages(categories: seq<string>, fetched: seq<seq<string>>) returns (pages: CategoryPages)
    requires |fetched| == |categories|
    ensures pages == FetchedPages(categories, fetched)
  {
    pages := map[];
    for i := 0 to |categories|
      invariant pages == FetchedPages(categories[..i], fetched[..i])
    {
      assert categories[..i + 1][..i] == categories[..i];
      assert fetched[..i + 1][..i] == fetched[..i];
      pages := pages[categories[i] := fetched[i]];
    }
    assert categories[..|categories|] == categories;
    assert fetched[..|fetched|] == fetched;
  }

  /**
   * The counting loops of `analyzeContributions` (script.js lines 49-70):
   * for each contribution, scan the categories in order and stop at the
   * first whose page list holds the title; then bump exactly one of the two
   * counters.
   */
  method Classify(contributions: seq<Contribution>, categories: seq<string>, pages: CategoryPages)
    returns (result: AnalysisResult)
    requires Covers(pages, categories)
    ensures result.editsInCategories == CountIn(contributions, categories, pages)
    ensures result.editsNotInCategories == CountNotIn(contributions, categories, pages)
    ensures result.editsInCategories + result.editsNotInCategories == |contributions|
    ensures contributions == [] ==> result == AnalysisResult(0, 0)
  {
    var editsInCategories := 0;
    var editsNotInCategories := 0;
    for i := 0 to |contributions|
      invariant editsInCategories == CountIn(contributions[..i], categories, pages)
      invariant editsNotInCategories == CountNotIn(contributions[..i], categories, pages)
      invariant editsInCategories + editsNotInCategories == i
    {
      var contribution := contributions[i];
      var foundInCategory := false;
      for j := 0 to |categories|
        invariant !foundInCategory
        invariant forall k :: 0 <= k < j ==> contribution.title !in pages[categories[k]]
      {
        if contribution.title in pages[categories[j]] {
          foundInCategory := true;
          break;
        }
      }
      assert foundInCategory <==> InCategories(contribution.title, categories, pages);
      assert contributions[..i + 1][..i] == contributions[..i];
      if foundInCategory {
        editsInCategories := editsInCategories + 1;
      } else {
        editsNotInCategories := editsNotInCategories + 1;
      }
    }
    assert contributions[..|contributions|] == contributions;
    result := AnalysisResult(editsInCategories, editsNotInCategories);
  }

  /**
   * `analyzeContributions` with its fetches already resolved: build the
   * category map from the fetched lists, then classify.
   */
  method AnalyzeContributions(contributions: seq<Contribution>, categories: seq<string>, fetched: seq<seq<string>>)
    returns (result: AnalysisResult)
    requires |fetched| == |categories|
    ensures var pages := FetchedPages(categories, fetched);
      && result.editsInCategories == CountIn(contributions, categories, pages)
      && result.editsNotInCategories == CountNotIn(contributions, categories, pages)
    ensures result.editsInCategories + result.editsNotInCategories == |contributions|
  {
    var categoryPages := BuildCategoryPages(categories, fetched);
    result := Classify(contributions, categories, categoryPages);
  }

  // ---------------------------------------------------------------------
  // Properties of the counts

  /** Each contribution is counted exactly once: the two counts add up. */
  lemma {:induction false} CountsPartition(contributions: seq<Contribution>, categories: seq<string>, pages: CategoryPages)
    requires Covers(pages, categories)
    ensures CountIn(contributions, categories, pages) + CountNotIn(contributions, categories, pages) == |contributions|
  {
    if contributions != [] {
      CountsPartition(contributions[..|contributions| - 1], categories, pages);
    }
  }

  /**
   * A contribution is counted in the categories exactly when its title is
   * on the page list of one of them, however many of them list it.
   */
  lemma CountOne(contribution: Contribution, categories: seq<string>, pages: CategoryPages)
    requires Covers(pages, categories)
    ensures CountIn([contribution], categories, pages) == 1
      <==> exists c :: c in categories && contribution.title in pages[c]
    ensures CountIn([contribution], categories, pages) + CountNotIn([contribution], categories, pages) == 1
  {
    assert [contribution][..0] == [];
  }

  /**
   * The counts split over a concatenation of contribution lists, so each
   * contribution's verdict is independent of the others.
   */
  lemma {:induction false} CountsAppend(xs: seq<Contribution>, ys: seq<Contribution>, categories: seq<string>, pages: CategoryPages)
    requires Covers(pages, categories)
    ensures CountIn(xs + ys, categories, pages) == CountIn(xs, categories, pages) + CountIn(ys, categories, pages)
    ensures CountNotIn(xs + ys, categories, pages) == CountNotIn(xs, categories, pages) + CountNotIn(ys, categories, pages)
  {
    if ys == [] {
      assert xs + ys == xs;
    } else {
      var last := |ys| - 1;
      CountsAppend(xs, ys[..last], categories, pages);
      assert (xs + ys)[..|xs + ys| - 1] == xs + ys[..last];
    }
  }

  /**
   * No requested category, or only categories with empty page lists: no
   * contribution is in the categories.
   */
  lemma {:induction false} NoPagesCountsNothing(contributions: seq<Contribution>, categories: seq<string>, pages: CategoryPages)
    requires Covers(pages, categories)
    requires forall c :: c in categories ==> pages[c] == []
    ensures CountIn(contributions, categories, pages) == 0
    ensures CountNotIn(contributions, categories, pages) == |contributions|
  {
    if contributions != [] {
      NoPagesCountsNothing(contributions[..|contributions| - 1], categories, pages);
    }
  }

  /** Every title on some category's list: no contribution is outside. */
  lemma {:induction false} AllListedCountsAll(contributions: seq<Contribution>, categories: seq<string>, pages: CategoryPages)
    requires Covers(pages, categories)
    requires forall i :: 0 <= i < |contributions| ==> InCategories(contributions[i].title, categories, pages)
    ensures CountNotIn(contributions, categories, pages) == 0
    ensures CountIn(contributions, categories, pages) == |contributions|
  {
    if contributions != [] {
      var last := |contributions| - 1;
      assert forall i :: 0 <= i < last ==> contributions[..last][i] == contributions[i];
      AllListedCountsAll(contributions[..last], categories, pages);
    }
  }

  /**
   * Membership is an "or" over the categories, so reordering the requested
   * categories or repeating some of them changes neither count.
   */
  lemma {:induction false} CountsIgnoreCategoryOrder(contributions: seq<Contribution>, categories: seq<string>,
                                                     categories': seq<string>, pages: CategoryPages)
    requires Covers(pages, categories) && Covers(pages, categories')
    requires forall c :: c in categories <==> c in categories'
    ensures CountIn(contributions, categories, pages) == CountIn(contributions, categories', pages)
    ensures CountNotIn(contributions, categories, pages) == CountNotIn(contributions, categories', pages)
  {
    if contributions != [] {
      var last := |contributions| - 1;
      CountsIgnoreCategoryOrder(contributions[..last], categories, categories', pages);
      var t := contributions[last].title;
      assert InCategories(t, categories, pages) == InCategories(t, categories', pages);
    }
  }

  /**
   * Three contributions, one requested category listing two of them: two
   * edits in, one out. A title that differs only in using `_` for a space
   * does not match.
   */
  lemma ThreeContributionsExample()
    ensures var pages := map["X" := ["A", "C"]];
      var contributions := [Contribution("A"), Contribution("B"), Contribution("C")];
      CountIn(contributions, ["X"], pages) == 2 && CountNotIn(contributions, ["X"], pages) == 1
    ensures !InCategories("Main_Page", ["X"], map["X" := ["Main Page"]])
  {
    var pages := map["X" := ["A", "C"]];
    var contributions := [Contribution("A"), Contribution("B"), Contribution("C")];
    assert contributions[..2] == [Contribution("A"), Contribution("B")];
    assert contributions[..2][..1] == [Contribution("A")];
    assert "X" in ["X"] && "A" in pages["X"] && "C" in pages["X"];
    assert !InCategories("B", ["X"], pages) by {
      assert "B" != "A" && "B" != "C";
    }
    assert "Main_Page" != "Main Page";
  }
}
