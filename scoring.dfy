/** Scoring rules (polyhex/rules/scoring.py): the points table of the
    solitary-hawk card, the hawk count, the dispatch on the card identifier
    and the habitat total.

    The scoring functions read `polyhex.hawk_hexagons` and
    `polyhex.edge_features`; here they take those values as parameters: the
    hawk coordinates in dictionary order, and for each habitat feature, in
    dictionary order, the sizes of its areas. */
module Scoring {
  import opened Wrappers
  import opened Geometry

  /** The highest score of the hawk card. */
  const MaxPoints := 26

  /** `_calculate_points`: a negative count fails the assertion; eight hawks
      or more score the maximum. */
  function Points(count: int): (r: Result<nat>)
    ensures r.Ok? <==> count >= 0
    ensures r.Err? ==> r.error == AssertionError
    ensures r.Ok? ==> r.value <= MaxPoints && (r.value == 0 <==> count == 0) && (r.value == MaxPoints <==> count >= 8)
  {
    if count < 0 then Err(AssertionError)
    else if count == 0 then Ok(0)
    else if count == 1 then Ok(2)
    else if count == 2 then Ok(5)
    else if count == 3 then Ok(8)
    else if count == 4 then Ok(11)
    else if count == 5 then Ok(14)
    else if count == 6 then Ok(18)
    else if count == 7 then Ok(22)
    else Ok(26)
  }

  /** One more hawk is worth 2 to 4 points until the table is exhausted, and
      nothing after. */
  lemma PointsStep(count: nat)
    ensures count < 8 ==> 2 <= Points(count + 1).value - Points(count).value <= 4
    ensures count >= 8 ==> Points(count + 1).value == Points(count).value
  {
  }

  /** More hawks never score fewer points, and strictly more up to eight. */
  lemma {:induction false} PointsMonotone(a: nat, b: nat)
    requires a <= b
    ensures Points(a).value <= Points(b).value
    ensures b <= 8 && a < b ==> Points(a).value < Points(b).value
    decreases b - a
  {
    if a < b {
      PointsStep(a);
      PointsMonotone(a + 1, b);
    }
  }

  // ---------------------------------------------------------------------
  // The hawk count.

  /** A hawk none of whose six neighbours holds a hawk. */
  predicate Solitary(c: Coord, hawks: set<Coord>) {
    forall d :: 0 <= d < 6 ==> Neighbour(c, d) !in hawks
  }

  /** How many of the listed hawks are solitary among `all`. */
  function SolitaryCount(hawks: seq<Coord>, all: set<Coord>): (n: nat)
    ensures n <= |hawks|
  {
    if hawks == [] then 0
    else SolitaryCount(hawks[..|hawks| - 1], all) + (if Solitary(hawks[|hawks| - 1], all) then 1 else 0)
  }

  /** Every listed hawk counts as solitary exactly when none of them has a
      hawk beside it. */
  lemma {:induction false} SolitaryCountAll(hawks: seq<Coord>, all: set<Coord>)
    ensures SolitaryCount(hawks, all) == |hawks| <==> forall k :: 0 <= k < |hawks| ==> Solitary(hawks[k], all)
  {
    if hawks != [] {
      var init := hawks[..|hawks| - 1];
      SolitaryCountAll(init, all);
      assert forall k :: 0 <= k < |init| ==> init[k] == hawks[k];
    }
  }

  /** `hawk_A` as written: `adjency` is a property holding the neighbour
      list, so `hex.adjency()` calls that list and fails with a TypeError at
      the first hawk; with no hawk the loop never runs and the count is 0. */
  method HawkA(hawks: seq<Coord>) returns (points: Result<nat>)
    ensures points.Ok? <==> hawks == []
    ensures hawks == [] ==> points.value == 0
    ensures hawks != [] ==> points.error == TypeError
  {
    var count := 0;
    var counted: seq<Coord> := [];
    if hawks != [] {
      counted := counted + [hawks[0]];
      // the neighbour list is called, not iterated
      return Err(TypeError);
    }
    points := Points(count);
  }

  /** The loop of `hawk_A` with the neighbour list read as the property it
      is: the `break` leaves only the search through the neighbours, so
      every hawk is counted, solitary or not. */
  method HawkCount(hawks: seq<Coord>) returns (points: Result<nat>)
    ensures points == Points(|hawks|)
    ensures points.Ok?
  {
    var count := 0;
    var counted: seq<Coord> := [];
    for i := 0 to |hawks|
      invariant count == i && counted == hawks[..i]
    {
      counted := counted + [hawks[i]];
      var d := 0;
      while d < 6
        invariant 0 <= d <= 6
        invariant forall e :: 0 <= e < d ==> Neighbour(hawks[i], e) !in Elems(hawks)
      {
        if Neighbour(hawks[i], d) in hawks {
          break;
        }
        d := d + 1;
      }
      // the search stops at the first neighbouring hawk, or after all six
      // neighbours; what it found is not used, and the hawk counts either way
      assert d < 6 ==> Neighbour(hawks[i], d) in hawks;
      count := count + 1;
    }
    points := Points(count);
  }

  /** The solitary-hawk count the card describes: a hawk counts only when
      the search finds no hawk among its neighbours. */
  method SolitaryHawkA(hawks: seq<Coord>) returns (points: Result<nat>)
    ensures points == Points(SolitaryCount(hawks, Elems(hawks)))
  {
    var count := 0;
    for i := 0 to |hawks|
      invariant count == SolitaryCount(hawks[..i], Elems(hawks))
    {
      var d := 0;
      var found := false;
      while d < 6
        invariant 0 <= d <= 6 && !found
        invariant forall e :: 0 <= e < d ==> Neighbour(hawks[i], e) !in Elems(hawks)
      {
        if Neighbour(hawks[i], d) in hawks {
          found := true;
          break;
        }
        d := d + 1;
      }
      assert found <==> !Solitary(hawks[i], Elems(hawks));
      assert hawks[..i + 1][..i] == hawks[..i];
      if !found {
        count := count + 1;
      }
    }
    assert hawks[..|hawks|] == hawks;
    points := Points(count);
  }

  /** Two neighbouring hawks: counted as written they score 5 points, though
      neither is solitary and the card gives 0. */
  lemma HawkCountFinding()
    ensures var hawks := [Coord(0, 0), Coord(1, 0)];
            Points(|hawks|) == Ok(5) && Points(SolitaryCount(hawks, Elems(hawks))) == Ok(0)
  {
    var hawks := [Coord(0, 0), Coord(1, 0)];
    assert Neighbour(hawks[0], 1) == hawks[1] && Neighbour(hawks[1], 4) == hawks[0];
    assert !Solitary(hawks[0], Elems(hawks)) && !Solitary(hawks[1], Elems(hawks));
    assert hawks[..1] == [hawks[0]];
  }

  /** `score_hawk`: card A is scored by `hawk_A` as written, which fails on
      the first hawk; any other card identifier is rejected. */
  method ScoreHawk(hawks: seq<Coord>, identifier: string) returns (points: Result<nat>)
    ensures identifier != "A" ==> points == Err(ValueError)
    ensures identifier == "A" ==> (points.Ok? <==> hawks == [])
    ensures identifier == "A" && hawks == [] ==> points.value == 0
    ensures identifier == "A" && hawks != [] ==> points.error == TypeError
  {
    if identifier == "A" {
      points := HawkA(hawks);
    } else {
      points := Err(ValueError);
    }
  }

  /** `wildlife`: the card identifiers are looked up under "hawk" and the
      hawk score is added to a local total; the function returns nothing,
      so all it can do is fail. */
  method Wildlife(hawks: seq<Coord>, identifiers: map<string, string>) returns (o: Outcome)
    ensures "hawk" !in identifiers ==> o == Fail(KeyError)
    ensures "hawk" in identifiers ==> (o == Pass <==> identifiers["hawk"] == "A" && hawks == [])
    ensures "hawk" in identifiers && o.Fail? ==> o.error == (if identifiers["hawk"] == "A" then TypeError else ValueError)
  {
    if "hawk" !in identifiers {
      return Fail(KeyError);
    }
    var score := 0;
    var hawk := ScoreHawk(hawks, identifiers["hawk"]);
    if hawk.Err? {
      return Fail(hawk.error);
    }
    score := score + hawk.value;
    o := Pass;
  }

  // ---------------------------------------------------------------------
  // The habitat total.

  /** Python's `max` over a non-empty list. */
  function Max(s: seq<nat>): (m: nat)
    requires s != []
    ensures m in s && forall x :: x in s ==> x <= m
  {
    if |s| == 1 then s[0]
    else
      var m := Max(s[..|s| - 1]);
      assert forall x :: x in s ==> x in s[..|s| - 1] || x == s[|s| - 1];
      if s[|s| - 1] > m then s[|s| - 1] else m
  }

  function Sum(s: seq<nat>): nat {
    if s == [] then 0 else Sum(s[..|s| - 1]) + s[|s| - 1]
  }

  /** The largest area of each feature, in order. */
  function Largest(areas: seq<seq<nat>>): (r: seq<nat>)
    requires forall i :: 0 <= i < |areas| ==> areas[i] != []
    ensures |r| == |areas| && forall i :: 0 <= i < |areas| ==> r[i] in areas[i]
    ensures forall i, x :: 0 <= i < |areas| && x in areas[i] ==> x <= r[i]
  {
    seq(|areas|, i requires 0 <= i < |areas| => Max(areas[i]))
  }

  /** `habitat`: for each feature the size of its largest area, and their
      sum; a feature without any area fails in `max`. */
  method Habitat(areas: seq<seq<nat>>) returns (total: Result<nat>, result: seq<nat>)
    ensures total.Err? <==> exists i :: 0 <= i < |areas| && areas[i] == []
    ensures total.Err? ==> total.error == ValueError
    ensures total.Ok? ==> result == Largest(areas) && total.value == Sum(result)
  {
    var sum := 0;
    result := [];
    for i := 0 to |areas|
      invariant forall j :: 0 <= j < i ==> areas[j] != []
      invariant result == Largest(areas[..i]) && sum == Sum(result)
    {
      if areas[i] == [] {
        return Err(ValueError), result;
      }
      var areaTotal := Max(areas[i]);
      assert Largest(areas[..i + 1]) == Largest(areas[..i]) + [areaTotal];
      result := result + [areaTotal];
      sum := sum + areaTotal;
    }
    assert areas[..|areas|] == areas;
    total := Ok(sum);
  }

  /** Areas that only grow or merge never lower the total: when every area
      of a feature fits inside some area of the same feature later on, the
      later total is at least the earlier one. */
  lemma {:induction false} HabitatMonotone(before: seq<seq<nat>>, after: seq<seq<nat>>)
    requires |before| == |after|
    requires forall i :: 0 <= i < |before| ==> before[i] != [] && after[i] != []
    requires forall i, x :: 0 <= i < |before| && x in before[i] ==> exists y :: y in after[i] && x <= y
    ensures Sum(Largest(before)) <= Sum(Largest(after))
  {
    if before != [] {
      var n := |before| - 1;
      HabitatMonotone(before[..n], after[..n]);
      assert Largest(before[..n]) == Largest(before)[..n];
      assert Largest(after[..n]) == Largest(after)[..n];
      var y :| y in after[n] && Largest(before)[n] <= y;
    }
  }

  /** Each feature's largest area counts towards the total. */
  lemma {:induction false} HabitatCovers(areas: seq<seq<nat>>, i: nat)
    requires forall j :: 0 <= j < |areas| ==> areas[j] != []
    requires i < |areas|
    ensures forall x :: x in areas[i] ==> x <= Sum(Largest(areas))
  {
    var n := |areas| - 1;
    assert Largest(areas[..n]) == Largest(areas)[..n];
    if i < n {
      HabitatCovers(areas[..n], i);
      assert areas[..n][i] == areas[i];
    }
  }
}
