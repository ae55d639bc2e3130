/** The map colouring solver: a depth-first search that gives each region
    country one of the available shades so that no country shares a shade
    with a neighbour that was coloured before it.

    The search is specified by the functions `Search` and `TryShades` on an
    assignment value; the class `ColorSolver` holds the assignment that the
    search updates in place and is proved to compute what `Search`
    computes. */
module MapColoring {
  import opened Wrappers

  type Country = string
  type Color = string

  /** Colours given so far, by country. */
  type Assignment = map<Country, Color>

  /** A colouring problem: the neighbour lists, the countries in the order
      in which they are coloured, and the shades in the order they are tried. */
  datatype Problem = Problem(neighbors: map<Country, seq<Country>>, countries: seq<Country>, shades: seq<Color>)
  {
    /** Every country has a neighbour list (the lookup never fails). */
    predicate WellFormed() {
      forall c :: c in countries ==> c in neighbors
    }

    /** Each country is listed once. */
    predicate DistinctCountries() {
      forall i, j :: 0 <= i < j < |countries| ==> countries[i] != countries[j]
    }

    /** Adjacency is recorded in both directions. */
    ghost predicate Symmetric() {
      forall c, n :: c in neighbors && n in neighbors[c] && n in neighbors ==> c in neighbors[n]
    }
  }

  function CountrySet(p: Problem): set<Country> {
    set c | c in p.countries
  }

  /** Countries of the problem that have no colour yet; the search variant. */
  function Uncoloured(p: Problem, a: Assignment): set<Country> {
    CountrySet(p) - a.Keys
  }

  /** Every coloured country is a region country and holds an available shade. */
  ghost predicate ValidAssignment(p: Problem, a: Assignment) {
    && a.Keys <= CountrySet(p)
    && forall c :: c in a ==> a[c] in p.shades
  }

  /** Every region country has a colour. */
  ghost predicate Total(p: Problem, a: Assignment) {
    a.Keys == CountrySet(p)
  }

  /** Assignment r keeps every entry of assignment a. */
  ghost predicate Extends(r: Assignment, a: Assignment) {
    forall c :: c in a ==> c in r && r[c] == a[c]
  }

  /** No two distinct coloured countries, one in the other's neighbour list,
      share a colour. */
  ghost predicate ProperColouring(p: Problem, a: Assignment) {
    forall c, n :: c in a && c in p.neighbors && n in p.neighbors[c] && n in a && n != c ==> a[n] != a[c]
  }

  /** A colouring of the whole map from the available shades. */
  ghost predicate IsColouring(p: Problem, e: Assignment) {
    Total(p, e) && ValidAssignment(p, e) && ProperColouring(p, e)
  }

  /** Position of the first occurrence of x in s. */
  function IndexOf(s: seq<Country>, x: Country): (i: nat)
    requires x in s
    ensures i < |s| && s[i] == x
    ensures forall j :: 0 <= j < i ==> s[j] != x
  {
    if s[0] == x then 0 else 1 + IndexOf(s[1..], x)
  }

  /** Country n was coloured before country c in a search that started from
      assignment a: n was already coloured in a, or n comes first in the
      list of countries. */
  ghost predicate ColouredBefore(p: Problem, a: Assignment, n: Country, c: Country) {
    n in a || (n in p.countries && c in p.countries && IndexOf(p.countries, n) < IndexOf(p.countries, c))
  }

  /** Each country coloured on top of a differs from every neighbour in its
      list that was coloured before it. */
  ghost predicate ConsistentFrom(p: Problem, a: Assignment, r: Assignment) {
    forall c, n ::
      c in r && c !in a && c in p.neighbors && n in p.neighbors[c] && n in r && ColouredBefore(p, a, n, c)
      ==> r[n] != r[c]
  }

  // ---------------------------------------------------------------------
  // The constraint check and the choice of the next country

  /** No neighbour of `country` that has a colour holds `color`. */
  predicate Satisfies(p: Problem, a: Assignment, country: Country, color: Color)
    requires country in p.neighbors
  {
    forall n :: n in p.neighbors[country] && n in a ==> a[n] != color
  }

  /** Index of the first country at or after position i that has no colour. */
  function FirstUncolouredFrom(countries: seq<Country>, a: Assignment, i: nat): (k: Option<nat>)
    requires i <= |countries|
    ensures k.Some? ==> i <= k.value < |countries| && countries[k.value] !in a
    ensures k.Some? ==> forall j :: i <= j < k.value ==> countries[j] in a
    ensures k.None? ==> forall j :: i <= j < |countries| ==> countries[j] in a
    decreases |countries| - i
  {
    if i == |countries| then None
    else if countries[i] !in a then Some(i)
    else FirstUncolouredFrom(countries, a, i + 1)
  }

  // ---------------------------------------------------------------------
  // The search

  /** Colouring a country that has none shrinks the uncoloured countries. */
  lemma ColourShrinks(p: Problem, a: Assignment, country: Country, color: Color)
    requires country in p.countries && country !in a
    ensures Uncoloured(p, a[country := color]) < Uncoloured(p, a)
  {
    assert country in Uncoloured(p, a);
  }

  /** The result of the search from assignment a: None when it fails, or the
      assignment it ends with. The first uncoloured country in list order gets
      the first shade that satisfies the constraints and from which the rest
      of the map can be coloured. */
  function Search(p: Problem, a: Assignment): Option<Assignment>
    requires p.WellFormed()
    decreases Uncoloured(p, a), |p.shades| + 1
  {
    if |a| == |p.countries| then Some(a)
    else
      match FirstUncolouredFrom(p.countries, a, 0)
      case None => Some(a)
      case Some(k) => TryShades(p, a, p.countries[k], 0)
  }

  /** Tries the shades from position i on, in order, for `country`. */
  function TryShades(p: Problem, a: Assignment, country: Country, i: nat): Option<Assignment>
    requires p.WellFormed() && country in p.countries && country !in a && i <= |p.shades|
    decreases Uncoloured(p, a), |p.shades| - i
  {
    if i == |p.shades| then None
    else if Satisfies(p, a, country, p.shades[i]) then
      ColourShrinks(p, a, country, p.shades[i]);
      match Search(p, a[country := p.shades[i]])
      case Some(r) => Some(r)
      case None => TryShades(p, a, country, i + 1)
    else TryShades(p, a, country, i + 1)
  }

  /** One step of TryShades on an available shade. */
  lemma TryShadesUnfold(p: Problem, a: Assignment, country: Country, i: nat)
    requires p.WellFormed() && country in p.countries && country !in a && i < |p.shades|
    ensures TryShades(p, a, country, i) ==
      if Satisfies(p, a, country, p.shades[i]) && Search(p, a[country := p.shades[i]]).Some?
      then Search(p, a[country := p.shades[i]])
      else TryShades(p, a, country, i + 1)
  {
  }

  /** A set of countries at least as large as the list is the whole list. */
  lemma CardinalityOfCountries(p: Problem, keys: set<Country>)
    requires keys <= CountrySet(p) && |keys| >= |p.countries|
    ensures keys == CountrySet(p)
  {
    SetOfSeqSize(p.countries);
    var rest := CountrySet(p) - keys;
    assert CountrySet(p) == keys + rest && keys * rest == {};
  }

  lemma {:induction false} SetOfSeqSize(s: seq<Country>)
    ensures |set c | c in s| <= |s|
  {
    if s != [] {
      SetOfSeqSize(s[1..]);
      assert (set c | c in s) == (set c | c in s[1..]) + {s[0]};
    }
  }

  /** Soundness of the search: from a valid assignment, a successful search
      colours every country, keeps the entries it started with, uses only
      available shades, and gives each country it colours a shade no earlier
      coloured neighbour holds. */
  lemma {:induction false} SearchSound(p: Problem, a: Assignment)
    requires p.WellFormed() && ValidAssignment(p, a)
    ensures Search(p, a).Some? ==>
      var r := Search(p, a).value;
      ValidAssignment(p, r) && Total(p, r) && Extends(r, a) && ConsistentFrom(p, a, r)
    decreases Uncoloured(p, a), |p.shades| + 1
  {
    if |a| == |p.countries| {
      CardinalityOfCountries(p, a.Keys);
    } else {
      match FirstUncolouredFrom(p.countries, a, 0)
      case None =>
        assert a.Keys == CountrySet(p);
      case Some(k) =>
        TryShadesSound(p, a, k, 0);
    }
  }

  lemma {:induction false} TryShadesSound(p: Problem, a: Assignment, k: nat, i: nat)
    requires p.WellFormed() && ValidAssignment(p, a) && i <= |p.shades|
    requires k < |p.countries| && p.countries[k] !in a
    requires forall j :: 0 <= j < k ==> p.countries[j] in a
    ensures TryShades(p, a, p.countries[k], i).Some? ==>
      var r := TryShades(p, a, p.countries[k], i).value;
      ValidAssignment(p, r) && Total(p, r) && Extends(r, a) && ConsistentFrom(p, a, r)
    decreases Uncoloured(p, a), |p.shades| - i
  {
    var country := p.countries[k];
    if i < |p.shades| {
      TryShadesUnfold(p, a, country, i);
      var color := p.shades[i];
      var a' := a[country := color];
      if Satisfies(p, a, country, color) {
        ColourShrinks(p, a, country, color);
        SearchSound(p, a');
      }
      if Satisfies(p, a, country, color) && Search(p, a').Some? {
        SearchStep(p, a, k, color, Search(p, a').value);
      } else {
        TryShadesSound(p, a, k, i + 1);
      }
    }
  }

  /** One step of the search keeps soundness: colouring the first uncoloured
      country with a shade that satisfies the constraints, then completing. */
  lemma SearchStep(p: Problem, a: Assignment, k: nat, color: Color, r: Assignment)
    requires p.WellFormed() && k < |p.countries| && p.countries[k] !in a
    requires forall j :: 0 <= j < k ==> p.countries[j] in a
    requires Satisfies(p, a, p.countries[k], color)
    requires Extends(r, a[p.countries[k] := color]) && r.Keys <= CountrySet(p)
    requires ConsistentFrom(p, a[p.countries[k] := color], r)
    ensures Extends(r, a) && ConsistentFrom(p, a, r)
  {
    var country := p.countries[k];
    var a' := a[country := color];
    assert IndexOf(p.countries, country) == k;
    forall c, n | c in r && c !in a && c in p.neighbors && n in p.neighbors[c] && n in r && ColouredBefore(p, a, n, c)
      ensures r[n] != r[c]
    {
      if c != country {
        assert ColouredBefore(p, a', n, c);
      }
    }
  }

  /** With a symmetric neighbour table, a successful search from a proper
      colouring ends in a proper colouring. */
  lemma SymmetricSearchIsProper(p: Problem, a: Assignment)
    requires p.WellFormed() && p.Symmetric() && ValidAssignment(p, a) && ProperColouring(p, a)
    ensures Search(p, a).Some? ==> IsColouring(p, Search(p, a).value)
  {
    SearchSound(p, a);
    if Search(p, a).Some? {
      var r := Search(p, a).value;
      forall c, n | c in r && c in p.neighbors && n in p.neighbors[c] && n in r && n != c
        ensures r[n] != r[c]
      {
        if c in a && n in a {
        } else if ColouredBefore(p, a, n, c) {
        } else {
          assert n in p.countries && c in p.countries;
          assert IndexOf(p.countries, n) != IndexOf(p.countries, c);
          assert ColouredBefore(p, a, c, n);
          assert c in p.neighbors[n];
        }
      }
    }
  }

  /** Completeness of the search: if some colouring of the whole map extends
      assignment a, the search from a does not fail. */
  lemma {:induction false} SearchComplete(p: Problem, a: Assignment, e: Assignment)
    requires p.WellFormed() && IsColouring(p, e) && Extends(e, a)
    ensures Search(p, a).Some?
    decreases Uncoloured(p, a), |p.shades| + 1
  {
    if |a| != |p.countries| {
      match FirstUncolouredFrom(p.countries, a, 0)
      case None =>
      case Some(k) =>
        var country := p.countries[k];
        assert country in e;
        var i :| 0 <= i < |p.shades| && p.shades[i] == e[country];
        TryShadesComplete(p, a, country, 0, e, i);
    }
  }

  lemma {:induction false} TryShadesComplete(p: Problem, a: Assignment, country: Country, i: nat, e: Assignment, target: nat)
    requires p.WellFormed() && country in p.countries && country !in a && i <= |p.shades|
    requires IsColouring(p, e) && Extends(e, a)
    requires i <= target < |p.shades| && country in e && p.shades[target] == e[country]
    ensures TryShades(p, a, country, i).Some?
    decreases Uncoloured(p, a), |p.shades| - i
  {
    TryShadesUnfold(p, a, country, i);
    if i == target {
      var a' := a[country := e[country]];
      assert Satisfies(p, a, country, e[country]);
      ColourShrinks(p, a, country, e[country]);
      SearchComplete(p, a', e);
    } else {
      TryShadesComplete(p, a, country, i + 1, e, target);
    }
  }

  /** Shade i may go on `country` on top of a: it satisfies the constraints
      and the rest of the map can then be coloured. */
  ghost predicate Fits(p: Problem, a: Assignment, country: Country, i: nat)
    requires p.WellFormed() && country in p.neighbors && i < |p.shades|
  {
    Satisfies(p, a, country, p.shades[i]) && Search(p, a[country := p.shades[i]]).Some?
  }

  /** A shade at or after position i that fits makes TryShades from i
      succeed. */
  lemma {:induction false} TryShadesReachesFit(p: Problem, a: Assignment, country: Country, i: nat, j: nat)
    requires p.WellFormed() && country in p.countries && country !in a
    requires i <= j < |p.shades| && Fits(p, a, country, j)
    ensures TryShades(p, a, country, i).Some?
    decreases j - i
  {
    TryShadesUnfold(p, a, country, i);
    if i < j && !Fits(p, a, country, i) {
      TryShadesReachesFit(p, a, country, i + 1, j);
    }
  }

  /** When TryShades from position i succeeds, it returns the completion of
      the first shade at or after i that fits. */
  lemma {:induction false} TryShadesFirstFit(p: Problem, a: Assignment, country: Country, i: nat)
    requires p.WellFormed() && country in p.countries && country !in a && i <= |p.shades|
    ensures TryShades(p, a, country, i).Some? ==>
      exists j :: i <= j < |p.shades| && Fits(p, a, country, j)
        && (forall j' :: i <= j' < j ==> !Fits(p, a, country, j'))
        && TryShades(p, a, country, i) == Search(p, a[country := p.shades[j]])
    decreases |p.shades| - i
  {
    if i < |p.shades| {
      TryShadesUnfold(p, a, country, i);
      if !Fits(p, a, country, i) {
        TryShadesFirstFit(p, a, country, i + 1);
        if TryShades(p, a, country, i).Some? {
          var j :| i + 1 <= j < |p.shades| && Fits(p, a, country, j)
            && (forall j' :: i + 1 <= j' < j ==> !Fits(p, a, country, j'))
            && TryShades(p, a, country, i + 1) == Search(p, a[country := p.shades[j]]);
          assert forall j' :: i <= j' < j ==> !Fits(p, a, country, j');
        }
      }
    }
  }

  /** While a listed country has no colour, a valid assignment has fewer
      entries than the list, so the search goes on to the first uncoloured
      country. */
  lemma SearchAtFirstUncoloured(p: Problem, a: Assignment, k: nat)
    requires p.WellFormed() && ValidAssignment(p, a)
    requires k < |p.countries| && p.countries[k] !in a
    requires forall j :: 0 <= j < k ==> p.countries[j] in a
    ensures |a| < |p.countries|
    ensures Search(p, a) == TryShades(p, a, p.countries[k], 0)
  {
    SetOfSeqSize(p.countries);
    SubsetSize(a.Keys, CountrySet(p) - {p.countries[k]});
    assert FirstUncolouredFrom(p.countries, a, 0) == Some(k);
  }

  /** Search order: a search from a valid assignment that still leaves
      country number k as the first uncoloured one succeeds exactly when some
      shade fits that country, and then gives it the first fitting shade in
      the order of the shades, and returns the completion from there. */
  lemma SearchFirstFit(p: Problem, a: Assignment, k: nat)
    requires p.WellFormed() && ValidAssignment(p, a)
    requires k < |p.countries| && p.countries[k] !in a
    requires forall j :: 0 <= j < k ==> p.countries[j] in a
    ensures Search(p, a).Some? <==>
      exists i :: 0 <= i < |p.shades| && Fits(p, a, p.countries[k], i)
    ensures Search(p, a).Some? ==>
      exists i :: 0 <= i < |p.shades| && Fits(p, a, p.countries[k], i)
        && (forall i' :: 0 <= i' < i ==> !Fits(p, a, p.countries[k], i'))
        && Search(p, a) == Search(p, a[p.countries[k] := p.shades[i]])
        && p.countries[k] in Search(p, a).value && Search(p, a).value[p.countries[k]] == p.shades[i]
  {
    var country := p.countries[k];
    SearchAtFirstUncoloured(p, a, k);
    TryShadesFirstFit(p, a, country, 0);
    forall i | 0 <= i < |p.shades| && Fits(p, a, country, i) ensures Search(p, a).Some? {
      TryShadesReachesFit(p, a, country, 0, i);
    }
    if Search(p, a).Some? {
      var i :| 0 <= i < |p.shades| && Fits(p, a, country, i)
        && (forall i' :: 0 <= i' < i ==> !Fits(p, a, country, i'))
        && Search(p, a) == Search(p, a[country := p.shades[i]]);
      SearchSound(p, a[country := p.shades[i]]);
    }
  }

  /** With distinct countries and a valid assignment, a map in which every
      listed country is coloured has as many entries as the list: the
      search's final `return true` after the country loop is never reached. */
  lemma FallThroughUnreachable(p: Problem, a: Assignment)
    requires p.DistinctCountries() && ValidAssignment(p, a)
    requires forall j :: 0 <= j < |p.countries| ==> p.countries[j] in a
    ensures |a| == |p.countries|
  {
    assert a.Keys == CountrySet(p);
    DistinctSetSize(p.countries);
  }

  lemma {:induction false} DistinctSetSize(s: seq<Country>)
    requires forall i, j :: 0 <= i < j < |s| ==> s[i] != s[j]
    ensures |set c | c in s| == |s|
  {
    if s != [] {
      DistinctSetSize(s[1..]);
      assert (set c | c in s) == (set c | c in s[1..]) + {s[0]};
      assert s[0] !in s[1..];
    }
  }

  // ---------------------------------------------------------------------
  // Concrete instances

  /** The Horn of Africa instance: seven countries, four shades. */
  function HornOfAfrica(): Problem {
    Problem(
      map[
        "Ethiopia" := ["Eritrea", "Djibouti", "Somalia", "Kenya", "Sudan", "South Sudan"],
        "Kenya" := ["Ethiopia", "Somalia", "South Sudan"],
        "Sudan" := ["Ethiopia", "Eritrea", "South Sudan"],
        "Somalia" := ["Ethiopia", "Kenya", "Djibouti"],
        "Eritrea" := ["Ethiopia", "Sudan", "Djibouti"],
        "Djibouti" := ["Ethiopia", "Eritrea", "Somalia"],
        "South Sudan" := ["Ethiopia", "Sudan", "Kenya"]
      ],
      ["Ethiopia", "Kenya", "Sudan", "Somalia", "Eritrea", "Djibouti", "South Sudan"],
      ["Red", "Green", "Blue", "Yellow"])
  }

  /** A colouring of the Horn of Africa. */
  function HornOfAfricaWitness(): Assignment {
    map[
      "Ethiopia" := "Red", "Kenya" := "Green", "Sudan" := "Green", "Somalia" := "Blue",
      "Eritrea" := "Blue", "Djibouti" := "Green", "South Sudan" := "Blue"]
  }

  /** The Horn of Africa neighbour lists are complete and record every
      adjacency in both directions. */
  lemma HornOfAfricaSymmetric()
    ensures HornOfAfrica().WellFormed() && HornOfAfrica().Symmetric()
  {
    var m := HornOfAfrica().neighbors;
    forall c, n | c in m && n in m[c] && n in m ensures c in m[n] {
      if c == "Ethiopia" {
        assert n in m["Ethiopia"];
      } else if c == "Kenya" {
        assert n in m["Kenya"];
      } else if c == "Sudan" {
        assert n in m["Sudan"];
      } else if c == "Somalia" {
        assert n in m["Somalia"];
      } else if c == "Eritrea" {
        assert n in m["Eritrea"];
      } else if c == "Djibouti" {
        assert n in m["Djibouti"];
      } else {
        assert n in m["South Sudan"];
      }
    }
  }

  /** Country c's colour differs from that of each coloured neighbour. */
  ghost predicate ApartFromNeighbours(p: Problem, e: Assignment, c: Country)
    requires c in p.neighbors && c in e
  {
    forall n :: n in p.neighbors[c] && n in e && n != c ==> e[n] != e[c]
  }

  /** The colouring `HornOfAfricaWitness` gives each country a colour that no
      neighbour in its list holds. */
  lemma HornOfAfricaWitnessApart(c: Country)
    requires c in HornOfAfricaWitness()
    ensures c in HornOfAfrica().neighbors
    ensures ApartFromNeighbours(HornOfAfrica(), HornOfAfricaWitness(), c)
  {
    var m := HornOfAfrica().neighbors;
    if c == "Ethiopia" {
      assert m["Ethiopia"] == ["Eritrea", "Djibouti", "Somalia", "Kenya", "Sudan", "South Sudan"];
    } else if c == "Kenya" {
      assert m["Kenya"] == ["Ethiopia", "Somalia", "South Sudan"];
    } else if c == "Sudan" {
      assert m["Sudan"] == ["Ethiopia", "Eritrea", "South Sudan"];
    } else if c == "Somalia" {
      assert m["Somalia"] == ["Ethiopia", "Kenya", "Djibouti"];
    } else if c == "Eritrea" {
      assert m["Eritrea"] == ["Ethiopia", "Sudan", "Djibouti"];
    } else if c == "Djibouti" {
      assert m["Djibouti"] == ["Ethiopia", "Eritrea", "Somalia"];
    } else {
      assert m["South Sudan"] == ["Ethiopia", "Sudan", "Kenya"];
    }
  }

  /** `HornOfAfricaWitness` is a proper colouring of the Horn of Africa. */
  lemma HornOfAfricaWitnessIsColouring()
    ensures IsColouring(HornOfAfrica(), HornOfAfricaWitness())
  {
    var p, e := HornOfAfrica(), HornOfAfricaWitness();
    assert Total(p, e);
    forall c | c in e && c in p.neighbors ensures ApartFromNeighbours(p, e, c) {
      HornOfAfricaWitnessApart(c);
    }
  }

  /** The search on the Horn of Africa map, started from no colours,
      succeeds, and its colouring gives Ethiopia a shade that no other
      country holds. */
  lemma HornOfAfricaColoured()
    ensures Search(HornOfAfrica(), map[]).Some?
    ensures IsColouring(HornOfAfrica(), Search(HornOfAfrica(), map[]).value)
    ensures var r := Search(HornOfAfrica(), map[]).value;
      forall c :: c in r && c != "Ethiopia" ==> r[c] != r["Ethiopia"]
  {
    var p := HornOfAfrica();
    HornOfAfricaWitnessIsColouring();
    HornOfAfricaSymmetric();
    SearchComplete(p, map[], HornOfAfricaWitness());
    SymmetricSearchIsProper(p, map[]);
    var r := Search(p, map[]).value;
    assert "Ethiopia" in p.countries;
    forall c | c in r && c != "Ethiopia" ensures r[c] != r["Ethiopia"] {
      assert c in p.neighbors["Ethiopia"];
    }
  }

  /** Five countries that all neighbour one another cannot be coloured
      from four or fewer shades, so a search from no colours fails. */
  lemma FiveNeighboursUncolourable(p: Problem, clique: seq<Country>)
    requires p.WellFormed() && |p.shades| <= 4 && |clique| == 5
    requires forall i :: 0 <= i < 5 ==> clique[i] in p.countries
    requires forall i, j :: 0 <= i < 5 && 0 <= j < 5 && i != j ==>
      clique[i] != clique[j] && clique[j] in p.neighbors[clique[i]]
    ensures Search(p, map[]) == None
  {
    SearchSound(p, map[]);
    if Search(p, map[]).Some? {
      var r := Search(p, map[]).value;
      forall i, j | 0 <= i < 5 && 0 <= j < 5 && i != j
        ensures r[clique[i]] != r[clique[j]]
      {
        var a, b := clique[i], clique[j];
        if IndexOf(p.countries, a) < IndexOf(p.countries, b) {
          assert ColouredBefore(p, map[], a, b);
        } else {
          assert IndexOf(p.countries, a) != IndexOf(p.countries, b);
          assert ColouredBefore(p, map[], b, a);
        }
      }
      var used := seq(5, i requires 0 <= i < 5 => r[clique[i]]);
      DistinctSetSize(used);
      SetOfSeqSize(p.shades);
      SubsetSize(set c | c in used, set c | c in p.shades);
    }
  }

  lemma SubsetSize(small: set<string>, big: set<string>)
    requires small <= big
    ensures |small| <= |big|
  {
    assert big == small + (big - small) && small * (big - small) == {};
  }

  // ---------------------------------------------------------------------
  // The solver state, updated in place

  class ColorSolver {
    const problem: Problem
    var colorAssignments: Assignment

    ghost predicate Valid()
      reads this
    {
      problem.WellFormed() && ValidAssignment(problem, colorAssignments)
    }

    constructor (neighbors: map<Country, seq<Country>>, regionCountries: seq<Country>, availableShades: seq<Color>)
      requires forall c :: c in regionCountries ==> c in neighbors
      ensures problem == Problem(neighbors, regionCountries, availableShades)
      ensures colorAssignments == map[]
      ensures Valid()
    {
      problem := Problem(neighbors, regionCountries, availableShades);
      colorAssignments := map[];
    }

    /** Walks the neighbour list of `targetCountry` looking for a coloured
        neighbour that holds `chosenColor`. */
    method SatisfiesConstraints(targetCountry: Country, chosenColor: Color) returns (ok: bool)
      requires targetCountry in problem.neighbors
      ensures ok == Satisfies(problem, colorAssignments, targetCountry, chosenColor)
    {
      var around := problem.neighbors[targetCountry];
      for i := 0 to |around|
        invariant forall j :: 0 <= j < i ==> !(around[j] in colorAssignments && colorAssignments[around[j]] == chosenColor)
      {
        var neighbor := around[i];
        if neighbor in colorAssignments && colorAssignments[neighbor] == chosenColor {
          return false;
        }
      }
      return true;
    }

    /** Colours the remaining countries, inserting an entry before each
        recursive attempt and deleting it when the attempt fails. */
    method AssignColors() returns (ok: bool)
      requires Valid()
      modifies this
      ensures Valid()
      ensures ok == Search(problem, old(colorAssignments)).Some?
      ensures ok ==> colorAssignments == Search(problem, old(colorAssignments)).value
      ensures ok ==> Total(problem, colorAssignments) && Extends(colorAssignments, old(colorAssignments))
      ensures ok ==> ConsistentFrom(problem, old(colorAssignments), colorAssignments)
      ensures !ok ==> colorAssignments == old(colorAssignments)
      decreases Uncoloured(problem, colorAssignments)
    {
      ghost var a := colorAssignments;
      if |colorAssignments| == |problem.countries| {
        SearchSound(problem, a);
        return true;
      }
      for i := 0 to |problem.countries|
        invariant colorAssignments == a
        invariant FirstUncolouredFrom(problem.countries, a, i) == FirstUncolouredFrom(problem.countries, a, 0)
      {
        var country := problem.countries[i];
        if country !in colorAssignments {
          for j := 0 to |problem.shades|
            invariant colorAssignments == a
            invariant TryShades(problem, a, country, j) == TryShades(problem, a, country, 0)
          {
            TryShadesUnfold(problem, a, country, j);
            var color := problem.shades[j];
            var fits := SatisfiesConstraints(country, color);
            if fits {
              colorAssignments := colorAssignments[country := color];
              ColourShrinks(problem, a, country, color);
              ok := AssignColors();
              if ok {
                SearchSound(problem, a);
                return;
              }
              colorAssignments := colorAssignments - {country};
              assert colorAssignments == a;
            }
          }
          return false;
        }
      }
      SearchSound(problem, a);
      return true;
    }
  }
}
