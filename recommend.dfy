/** The filter-and-rank path of the restaurant recommender: the text key of
    every catalog row, the query text built from the user's three inputs, the
    exact-match area filter, the early empty result, and the top-10 selection
    by similarity score.

    The similarity score is TF-IDF vectorising followed by a linear kernel,
    library code computed in floating point; here it is the parameter
    `scorer`, applied to the query text and a row's key text. */
module Recommend {
  import opened Ranking

  /** One catalog row: restaurant_name, restaurant_type, cuisine_type, area. */
  datatype Restaurant = Restaurant(name: string, rtype: string, cuisine: string, area: string)

  /** A row of the filtered frame, which keeps the label of its catalog row. */
  datatype Row = Row(rowId: nat, rec: Restaurant)

  /** One element of the returned name series: the catalog label and the name. */
  datatype Entry = Entry(rowId: nat, name: string)

  /** How many positions the ranking keeps. */
  const TopN: nat := 10

  /** The query text: the three inputs in the order type, cuisine, location,
      joined by single spaces. Each field sits at a fixed place in the text. */
  function UserProfile(userType: string, userCuisine: string, userLocation: string): (q: string)
    ensures |q| == |userType| + |userCuisine| + |userLocation| + 2
    ensures q[..|userType|] == userType && q[|userType|] == ' '
    ensures q[|userType| + 1..|userType| + 1 + |userCuisine|] == userCuisine
    ensures q[|userType| + 1 + |userCuisine|] == ' '
    ensures q[|userType| + |userCuisine| + 2..] == userLocation
  {
    userType + " " + userCuisine + " " + userLocation
  }

  /** The key text of a catalog row: its type, cuisine and area joined by
      single spaces, laid out exactly as the query text is. */
  function CombinedFeatures(r: Restaurant): (key: string)
    ensures key == UserProfile(r.rtype, r.cuisine, r.area)
  {
    r.rtype + " " + r.cuisine + " " + r.area
  }

  /** The query text does not keep the field boundaries: a space inside one
      input reads the same as the space between two inputs. */
  lemma ProfileLosesFieldBoundaries(a: string, b: string, c: string, l: string)
    ensures UserProfile(a + " " + b, c, l) == UserProfile(a, b + " " + c, l)
    ensures a + " " + b != a
  {
  }

  /** So two requests that differ only in where such a space falls receive
      the same recommendations. */
  lemma SplitRequestsSameResult(catalog: seq<Restaurant>, a: string, b: string, c: string, l: string,
                                scorer: (string, string) -> real, order: seq<nat>)
    requires IsArgSort(AreaScores(catalog, a + " " + b, c, l, scorer), order)
    ensures IsArgSort(AreaScores(catalog, a, b + " " + c, l, scorer), order)
    ensures GetRecommendations(catalog, a + " " + b, c, l, scorer, order)
            == GetRecommendations(catalog, a, b + " " + c, l, scorer, order)
  {
    ProfileLosesFieldBoundaries(a, b, c, l);
  }

  /** The rows of the catalog whose area equals loc exactly, in catalog
      order, each with its catalog label. */
  function FilterByArea(catalog: seq<Restaurant>, loc: string): (rows: seq<Row>)
    ensures forall j :: 0 <= j < |rows| ==>
              rows[j].rowId < |catalog| && catalog[rows[j].rowId] == rows[j].rec && rows[j].rec.area == loc
    ensures forall j, k :: 0 <= j < k < |rows| ==> rows[j].rowId < rows[k].rowId
    ensures forall x :: 0 <= x < |catalog| && catalog[x].area == loc ==>
              exists j :: 0 <= j < |rows| && rows[j].rowId == x
  {
    if catalog == [] then
      []
    else
      var last := |catalog| - 1;
      var front := FilterByArea(catalog[..last], loc);
      var rows := front + if catalog[last].area == loc then [Row(last, catalog[last])] else [];
      assert forall x :: 0 <= x < last ==> catalog[..last][x] == catalog[x];
      assert forall j :: 0 <= j < |front| ==> rows[j] == front[j];
      assert catalog[last].area == loc ==> rows[|front|].rowId == last;
      rows
  }

  /** The score of every filtered row against the query text, in row order. */
  function Scores(rows: seq<Row>, query: string, scorer: (string, string) -> real): (s: seq<real>)
    ensures |s| == |rows|
  {
    seq(|rows|, j requires 0 <= j < |rows| => scorer(query, CombinedFeatures(rows[j].rec)))
  }

  /** The score the ranking gives restaurant r for the user's three inputs. */
  function Score(scorer: (string, string) -> real, userType: string, userCuisine: string, userLocation: string,
                 r: Restaurant): real
  {
    scorer(UserProfile(userType, userCuisine, userLocation), CombinedFeatures(r))
  }

  /** The row of scores that argsort is applied to: the rows of the requested
      area scored against the query text. */
  function AreaScores(catalog: seq<Restaurant>, userType: string, userCuisine: string, userLocation: string,
                      scorer: (string, string) -> real): seq<real>
  {
    Scores(FilterByArea(catalog, userLocation), UserProfile(userType, userCuisine, userLocation), scorer)
  }

  /** The catalog labels of the rows whose area equals loc. */
  function InArea(catalog: seq<Restaurant>, loc: string): set<nat>
  {
    set x: nat | x < |catalog| && catalog[x].area == loc
  }

  /** get_recommendations: the empty series when no row lies in the requested
      area, and otherwise the names, with their catalog labels, of the rows at
      the positions order[-10:][::-1] selects. order stands for what argsort
      returns for the area's scores: any permutation of the positions along
      which the scores ascend, since the sort is not stable. */
  function GetRecommendations(catalog: seq<Restaurant>, userType: string, userCuisine: string, userLocation: string,
                              scorer: (string, string) -> real, order: seq<nat>): (out: seq<Entry>)
    requires IsArgSort(AreaScores(catalog, userType, userCuisine, userLocation, scorer), order)
    ensures |out| == Min(TopN, |FilterByArea(catalog, userLocation)|)
    ensures forall j :: 0 <= j < |out| ==>
              out[j].rowId < |catalog| && catalog[out[j].rowId].area == userLocation
              && out[j].name == catalog[out[j].rowId].name
  {
    var rows := FilterByArea(catalog, userLocation);
    if rows == [] then
      []
    else
      PermutationFacts(order, |rows|);
      var picks := TopK(order, TopN);
      seq(|picks|, j requires 0 <= j < |picks| => Entry(rows[picks[j]].rowId, rows[picks[j]].rec.name))
  }

  /** The number of filtered rows is the number of catalog rows in the area. */
  lemma {:induction false} AreaCount(catalog: seq<Restaurant>, loc: string)
    ensures |FilterByArea(catalog, loc)| == |InArea(catalog, loc)|
  {
    if catalog != [] {
      var last := |catalog| - 1;
      AreaCount(catalog[..last], loc);
      InAreaStep(catalog, loc);
      FilterStep(catalog, loc);
    }
  }

  /** Dropping the last catalog row drops at most its own label from the area. */
  lemma InAreaStep(catalog: seq<Restaurant>, loc: string)
    requires catalog != []
    ensures var last := |catalog| - 1;
      && InArea(catalog, loc) == InArea(catalog[..last], loc) + (if catalog[last].area == loc then {last} else {})
      && last !in InArea(catalog[..last], loc)
  {
  }

  /** Dropping the last catalog row drops at most its own row from the filtered frame. */
  lemma FilterStep(catalog: seq<Restaurant>, loc: string)
    requires catalog != []
    ensures var last := |catalog| - 1;
      |FilterByArea(catalog, loc)| == |FilterByArea(catalog[..last], loc)| + if catalog[last].area == loc then 1 else 0
  {
  }

  /** The score argsort sees at each filtered position is the score of that
      position's catalog row. */
  lemma AreaScoreAt(catalog: seq<Restaurant>, userType: string, userCuisine: string, userLocation: string,
                    scorer: (string, string) -> real)
    ensures var rows := FilterByArea(catalog, userLocation);
      var scores := AreaScores(catalog, userType, userCuisine, userLocation, scorer);
      && |scores| == |rows|
      && forall a :: 0 <= a < |rows| ==>
           rows[a].rowId < |catalog| && scores[a] == Score(scorer, userType, userCuisine, userLocation, catalog[rows[a].rowId])
  {
  }

  /** Each returned entry is the filtered row at the selected position. */
  lemma ResultAt(catalog: seq<Restaurant>, userType: string, userCuisine: string, userLocation: string,
                 scorer: (string, string) -> real, order: seq<nat>)
    requires IsArgSort(AreaScores(catalog, userType, userCuisine, userLocation, scorer), order)
    ensures var rows := FilterByArea(catalog, userLocation);
      var picks := TopK(order, TopN);
      var out := GetRecommendations(catalog, userType, userCuisine, userLocation, scorer, order);
      && InRange(picks, |rows|)
      && |out| == (if rows == [] then 0 else |picks|)
      && (forall j :: 0 <= j < |out| ==> out[j] == Entry(rows[picks[j]].rowId, rows[picks[j]].rec.name))
  {
    var scores := AreaScores(catalog, userType, userCuisine, userLocation, scorer);
    TopKDistinct(scores, order, TopN);
  }

  /** The result is empty exactly when no catalog row lies in the requested area. */
  lemma EmptyIffNoneInArea(catalog: seq<Restaurant>, userType: string, userCuisine: string, userLocation: string,
                           scorer: (string, string) -> real, order: seq<nat>)
    requires IsArgSort(AreaScores(catalog, userType, userCuisine, userLocation, scorer), order)
    ensures GetRecommendations(catalog, userType, userCuisine, userLocation, scorer, order) == []
            <==> forall x :: 0 <= x < |catalog| ==> catalog[x].area != userLocation
  {
  }

  /** The result holds min(10, n) entries, where n is the number of catalog rows in the area. */
  lemma RecommendationCount(catalog: seq<Restaurant>, userType: string, userCuisine: string, userLocation: string,
                            scorer: (string, string) -> real, order: seq<nat>)
    requires IsArgSort(AreaScores(catalog, userType, userCuisine, userLocation, scorer), order)
    ensures |GetRecommendations(catalog, userType, userCuisine, userLocation, scorer, order)|
            == Min(TopN, |InArea(catalog, userLocation)|)
  {
    AreaCount(catalog, userLocation);
    TopKDistinct(AreaScores(catalog, userType, userCuisine, userLocation, scorer), order, TopN);
  }

  /** No catalog row is returned twice. */
  lemma RecommendationsDistinct(catalog: seq<Restaurant>, userType: string, userCuisine: string, userLocation: string,
                                scorer: (string, string) -> real, order: seq<nat>)
    requires IsArgSort(AreaScores(catalog, userType, userCuisine, userLocation, scorer), order)
    ensures var out := GetRecommendations(catalog, userType, userCuisine, userLocation, scorer, order);
      forall j, m :: 0 <= j < m < |out| ==> out[j].rowId != out[m].rowId
  {
    TopKDistinct(AreaScores(catalog, userType, userCuisine, userLocation, scorer), order, TopN);
  }

  /** Scores never increase along the result: the best match comes first. */
  lemma RecommendationsRanked(catalog: seq<Restaurant>, userType: string, userCuisine: string, userLocation: string,
                              scorer: (string, string) -> real, order: seq<nat>)
    requires IsArgSort(AreaScores(catalog, userType, userCuisine, userLocation, scorer), order)
    ensures var out := GetRecommendations(catalog, userType, userCuisine, userLocation, scorer, order);
      forall j, m :: 0 <= j < m < |out| ==>
        out[j].rowId < |catalog| && out[m].rowId < |catalog|
        && Score(scorer, userType, userCuisine, userLocation, catalog[out[j].rowId])
           >= Score(scorer, userType, userCuisine, userLocation, catalog[out[m].rowId])
  {
  }

  /** The catalog labels of a result, in result order. */
  function RowIds(out: seq<Entry>): seq<nat>
  {
    seq(|out|, j requires 0 <= j < |out| => out[j].rowId)
  }

  /** A row of the requested area that is not returned scores no higher than any returned row. */
  lemma RecommendationsAreTop(catalog: seq<Restaurant>, userType: string, userCuisine: string, userLocation: string,
                              scorer: (string, string) -> real, order: seq<nat>)
    requires IsArgSort(AreaScores(catalog, userType, userCuisine, userLocation, scorer), order)
    ensures var out := GetRecommendations(catalog, userType, userCuisine, userLocation, scorer, order);
      forall x, j :: 0 <= x < |catalog| && catalog[x].area == userLocation && x !in RowIds(out) && 0 <= j < |out| ==>
        out[j].rowId < |catalog|
        && Score(scorer, userType, userCuisine, userLocation, catalog[x])
           <= Score(scorer, userType, userCuisine, userLocation, catalog[out[j].rowId])
  {
    var out := GetRecommendations(catalog, userType, userCuisine, userLocation, scorer, order);
    forall x, j | 0 <= x < |catalog| && catalog[x].area == userLocation && x !in RowIds(out) && 0 <= j < |out|
      ensures out[j].rowId < |catalog|
      ensures Score(scorer, userType, userCuisine, userLocation, catalog[x])
              <= Score(scorer, userType, userCuisine, userLocation, catalog[out[j].rowId])
    {
      LeftOutRowDominated(catalog, userType, userCuisine, userLocation, scorer, order, x, j);
    }
  }

  /** RecommendationsAreTop for one left-out row x and one returned entry j. */
  lemma LeftOutRowDominated(catalog: seq<Restaurant>, userType: string, userCuisine: string, userLocation: string,
                            scorer: (string, string) -> real, order: seq<nat>, x: nat, j: nat)
    requires IsArgSort(AreaScores(catalog, userType, userCuisine, userLocation, scorer), order)
    requires x < |catalog| && catalog[x].area == userLocation
    requires var out := GetRecommendations(catalog, userType, userCuisine, userLocation, scorer, order);
      x !in RowIds(out) && j < |out|
    ensures var out := GetRecommendations(catalog, userType, userCuisine, userLocation, scorer, order);
      out[j].rowId < |catalog|
      && Score(scorer, userType, userCuisine, userLocation, catalog[x])
         <= Score(scorer, userType, userCuisine, userLocation, catalog[out[j].rowId])
  {
    var scores := AreaScores(catalog, userType, userCuisine, userLocation, scorer);
    var rows := FilterByArea(catalog, userLocation);
    var out := GetRecommendations(catalog, userType, userCuisine, userLocation, scorer, order);
    var picks := TopK(order, TopN);
    AreaScoreAt(catalog, userType, userCuisine, userLocation, scorer);
    ResultAt(catalog, userType, userCuisine, userLocation, scorer, order);
    var a :| 0 <= a < |rows| && rows[a].rowId == x;
    assert a !in picks by {
      forall m | 0 <= m < |picks|
        ensures picks[m] != a
      {
        assert RowIds(out)[m] == rows[picks[m]].rowId;
      }
    }
    PickDominates(scores, order, TopN, a, j);
    assert out[j].rowId == rows[picks[j]].rowId;
  }

  /** The order argsort picks among equal scores can change which tied rows
      are returned, never how many nor the sequence of their scores. */
  lemma TieOrderOnlyPermutesEqualScores(catalog: seq<Restaurant>, userType: string, userCuisine: string,
                                        userLocation: string, scorer: (string, string) -> real,
                                        order1: seq<nat>, order2: seq<nat>)
    requires IsArgSort(AreaScores(catalog, userType, userCuisine, userLocation, scorer), order1)
    requires IsArgSort(AreaScores(catalog, userType, userCuisine, userLocation, scorer), order2)
    ensures var out1 := GetRecommendations(catalog, userType, userCuisine, userLocation, scorer, order1);
      var out2 := GetRecommendations(catalog, userType, userCuisine, userLocation, scorer, order2);
      |out1| == |out2|
      && forall j :: 0 <= j < |out1| ==>
        out1[j].rowId < |catalog| && out2[j].rowId < |catalog|
        && Score(scorer, userType, userCuisine, userLocation, catalog[out1[j].rowId])
           == Score(scorer, userType, userCuisine, userLocation, catalog[out2[j].rowId])
  {
    RecommendationCount(catalog, userType, userCuisine, userLocation, scorer, order1);
    RecommendationCount(catalog, userType, userCuisine, userLocation, scorer, order2);
    var out1 := GetRecommendations(catalog, userType, userCuisine, userLocation, scorer, order1);
    forall j | 0 <= j < |out1|
      ensures var out2 := GetRecommendations(catalog, userType, userCuisine, userLocation, scorer, order2);
        out1[j].rowId < |catalog| && out2[j].rowId < |catalog|
        && Score(scorer, userType, userCuisine, userLocation, catalog[out1[j].rowId])
           == Score(scorer, userType, userCuisine, userLocation, catalog[out2[j].rowId])
    {
      TiedPlaceSameScore(catalog, userType, userCuisine, userLocation, scorer, order1, order2, j);
    }
  }

  /** TieOrderOnlyPermutesEqualScores at one place j of the two results. */
  lemma TiedPlaceSameScore(catalog: seq<Restaurant>, userType: string, userCuisine: string,
                           userLocation: string, scorer: (string, string) -> real,
                           order1: seq<nat>, order2: seq<nat>, j: nat)
    requires IsArgSort(AreaScores(catalog, userType, userCuisine, userLocation, scorer), order1)
    requires IsArgSort(AreaScores(catalog, userType, userCuisine, userLocation, scorer), order2)
    requires j < |GetRecommendations(catalog, userType, userCuisine, userLocation, scorer, order1)|
    ensures var out1 := GetRecommendations(catalog, userType, userCuisine, userLocation, scorer, order1);
      var out2 := GetRecommendations(catalog, userType, userCuisine, userLocation, scorer, order2);
      j < |out2| && out1[j].rowId < |catalog| && out2[j].rowId < |catalog|
      && Score(scorer, userType, userCuisine, userLocation, catalog[out1[j].rowId])
         == Score(scorer, userType, userCuisine, userLocation, catalog[out2[j].rowId])
  {
    var scores := AreaScores(catalog, userType, userCuisine, userLocation, scorer);
    var rows := FilterByArea(catalog, userLocation);
    var picks1, picks2 := TopK(order1, TopN), TopK(order2, TopN);
    AreaScoreAt(catalog, userType, userCuisine, userLocation, scorer);
    ResultAt(catalog, userType, userCuisine, userLocation, scorer, order1);
    ResultAt(catalog, userType, userCuisine, userLocation, scorer, order2);
    TopKScoresIndependentOfTies(scores, order1, order2, TopN);
    assert scores[picks1[j]] == scores[picks2[j]];
  }

  /** The scorer is consulted only on the query text and the key texts of the
      rows in the requested area: two scorers that agree there give the same
      admissible orders and the same result. With no row in the area, every
      scorer gives the same empty result, as the source returns before scoring. */
  lemma OnlyAreaRowsAreScored(catalog: seq<Restaurant>, userType: string, userCuisine: string, userLocation: string,
                              scorer1: (string, string) -> real, scorer2: (string, string) -> real, order: seq<nat>)
    requires forall x :: 0 <= x < |catalog| && catalog[x].area == userLocation ==>
               Score(scorer1, userType, userCuisine, userLocation, catalog[x])
               == Score(scorer2, userType, userCuisine, userLocation, catalog[x])
    requires IsArgSort(AreaScores(catalog, userType, userCuisine, userLocation, scorer1), order)
    ensures AreaScores(catalog, userType, userCuisine, userLocation, scorer1)
            == AreaScores(catalog, userType, userCuisine, userLocation, scorer2)
    ensures GetRecommendations(catalog, userType, userCuisine, userLocation, scorer1, order)
            == GetRecommendations(catalog, userType, userCuisine, userLocation, scorer2, order)
  {
  }

  /** A three-row catalog: two cafes in Downtown, one bar in Uptown. */
  function ExampleCatalog(): seq<Restaurant>
  {
    [ Restaurant("A", "Cafe", "Italian", "Downtown"),
      Restaurant("B", "Cafe", "Italian", "Downtown"),
      Restaurant("C", "Bar", "Mexican", "Uptown") ]
  }

  /** Only the first two rows of the example catalog lie in Downtown. */
  lemma ExampleDowntownRows()
    ensures InArea(ExampleCatalog(), "Downtown") == {0, 1}
    ensures forall x :: 0 <= x < |ExampleCatalog()| && ExampleCatalog()[x].area == "Downtown" ==> x < 2
  {
  }

  /** Asking for Downtown returns both Downtown rows, 0 named A and 1 named B,
      in an order the scores decide, and never row 2 (C): there is no other filter. */
  lemma ExampleDowntown(scorer: (string, string) -> real, order: seq<nat>)
    requires IsArgSort(AreaScores(ExampleCatalog(), "Cafe", "Italian", "Downtown", scorer), order)
    ensures var out := GetRecommendations(ExampleCatalog(), "Cafe", "Italian", "Downtown", scorer, order);
      |out| == 2 && {out[0].rowId, out[1].rowId} == {0, 1} && {out[0].name, out[1].name} == {"A", "B"}
  {
    ExampleDowntownRows();
    RecommendationCount(ExampleCatalog(), "Cafe", "Italian", "Downtown", scorer, order);
    RecommendationsDistinct(ExampleCatalog(), "Cafe", "Italian", "Downtown", scorer, order);
  }

  /** Asking for a location no row has returns nothing. */
  lemma ExampleNowhere(scorer: (string, string) -> real, order: seq<nat>)
    requires IsArgSort(AreaScores(ExampleCatalog(), "Cafe", "Italian", "Nowhere", scorer), order)
    ensures GetRecommendations(ExampleCatalog(), "Cafe", "Italian", "Nowhere", scorer, order) == []
  {
    var catalog := ExampleCatalog();
    assert forall x :: 0 <= x < |catalog| ==> catalog[x].area != "Nowhere";
    EmptyIffNoneInArea(catalog, "Cafe", "Italian", "Nowhere", scorer, order);
  }
}
