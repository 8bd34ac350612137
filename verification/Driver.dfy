/** The two answers: the sum of the invalid values of the nearby tickets, and
    the product of the personal ticket's values at the "departure" fields. */
module Driver {
  import opened Wrappers
  import opened Seqs
  import opened Rules
  import opened Validity
  import opened Positions
  import opened Solver

  /** Fields whose rule name starts with this prefix enter the second answer. */
  const DeparturePrefix: string := "departure"

  predicate IsDeparture(c: FieldPosition)
  {
    DeparturePrefix <= c.name
  }

  /** The first answer: the sum of every nearby ticket's invalid values. */
  function PartOne(nearby: seq<Passport>, rules: seq<Rule>): int
  {
    Sum(AllInvalidFields(nearby, rules))
  }

  /** The personal ticket's values at the assigned departure positions, in assignment order. */
  function DepartureValues(placed: seq<FieldPosition>, mine: Passport): (r: seq<int>)
    requires forall c :: c in placed ==> c.position < |mine|
    ensures |r| == |Filter(placed, IsDeparture)| <= |placed|
    ensures forall k :: 0 <= k < |r| ==> var c := Filter(placed, IsDeparture)[k];
      c in placed && IsDeparture(c) && r[k] == mine[c.position]
    ensures forall v :: v in r <==> exists c :: c in placed && IsDeparture(c) && mine[c.position] == v
  {
    var departures := Filter(placed, IsDeparture);
    FilterSpec(placed, IsDeparture);
    SubseqLength(departures, placed);
    var r := seq(|departures|, k requires 0 <= k < |departures| => mine[departures[k].position]);
    assert forall c :: c in departures ==> mine[c.position] in r by {
      forall c | c in departures ensures mine[c.position] in r {
        var k :| 0 <= k < |departures| && departures[k] == c;
        assert r[k] == mine[c.position];
      }
    }
    r
  }

  /** The product of the personal ticket's values at the departure entries of
      `placed`, entry by entry: a departure entry contributes the value at its
      position and any other entry contributes 1. */
  function DepartureProduct(placed: seq<FieldPosition>, mine: Passport): int
    requires forall k :: 0 <= k < |placed| ==> placed[k].position < |mine|
  {
    if |placed| == 0 then 1
    else
      assert forall k :: 0 <= k < |placed[1..]| ==> placed[1..][k] == placed[k + 1];
      (if IsDeparture(placed[0]) then mine[placed[0].position] else 1) * DepartureProduct(placed[1..], mine)
  }

  /** Filtering the first entry out or keeping it, one entry at a time. */
  lemma DepartureValuesCons(placed: seq<FieldPosition>, mine: Passport)
    requires forall c :: c in placed ==> c.position < |mine|
    requires |placed| > 0
    ensures forall c :: c in placed[1..] ==> c.position < |mine|
    ensures DepartureValues(placed, mine) ==
      (if IsDeparture(placed[0]) then [mine[placed[0].position]] else []) + DepartureValues(placed[1..], mine)
  {
    assert forall c :: c in placed[1..] ==> c in placed;
    if IsDeparture(placed[0]) {
      DepartureKept(placed, mine);
    } else {
      DepartureSkipped(placed, mine);
      assert [] + DepartureValues(placed[1..], mine) == DepartureValues(placed[1..], mine);
    }
  }

  lemma DepartureKept(placed: seq<FieldPosition>, mine: Passport)
    requires forall c :: c in placed ==> c.position < |mine|
    requires |placed| > 0 && IsDeparture(placed[0])
    requires forall c :: c in placed[1..] ==> c.position < |mine|
    ensures DepartureValues(placed, mine) == [mine[placed[0].position]] + DepartureValues(placed[1..], mine)
  {
    var r, rest := DepartureValues(placed, mine), DepartureValues(placed[1..], mine);
    var all, tail := Filter(placed, IsDeparture), Filter(placed[1..], IsDeparture);
    assert all == [placed[0]] + tail;
    assert |r| == |rest| + 1;
    assert r[0] == mine[placed[0].position];
    forall k | 0 < k < |r| ensures r[k] == rest[k - 1] {
      assert all[k] == tail[k - 1];
    }
  }

  lemma DepartureSkipped(placed: seq<FieldPosition>, mine: Passport)
    requires forall c :: c in placed ==> c.position < |mine|
    requires |placed| > 0 && !IsDeparture(placed[0])
    requires forall c :: c in placed[1..] ==> c.position < |mine|
    ensures DepartureValues(placed, mine) == DepartureValues(placed[1..], mine)
  {
    assert Filter(placed, IsDeparture) == Filter(placed[1..], IsDeparture);
  }

  /** The product of `DepartureValues` keeps every departure value with its
      multiplicity and ignores every other entry. */
  lemma {:induction false} DepartureValuesProduct(placed: seq<FieldPosition>, mine: Passport)
    requires forall c :: c in placed ==> c.position < |mine|
    ensures Product(DepartureValues(placed, mine)) == DepartureProduct(placed, mine)
    decreases |placed|
  {
    if |placed| > 0 {
      DepartureValuesCons(placed, mine);
      var head := if IsDeparture(placed[0]) then [mine[placed[0].position]] else [];
      DepartureValuesProduct(placed[1..], mine);
      ProductConcat(head, DepartureValues(placed[1..], mine));
      if IsDeparture(placed[0]) {
        assert Product(head) == mine[placed[0].position] * Product([]);
      }
    }
  }

  /** The second answer: keep the tickets without invalid values, compute the
      candidate positions, solve, and multiply the personal ticket's values at
      the departure positions. Fails when the solver aborts. */
  function PartTwo(rules: seq<Rule>, mine: Passport, nearby: seq<Passport>): (r: Result<int, SolveError>)
    requires |rules| <= |mine|
    requires Covers(FilterInvalid(nearby, rules), |rules|)
    ensures r.Failure? <==> Determine(AllValidPositions(rules, FilterInvalid(nearby, rules))).Failure?
    ensures r.Success? ==> var placed := Determine(AllValidPositions(rules, FilterInvalid(nearby, rules))).value;
      (forall k :: 0 <= k < |placed| ==> placed[k].position < |rules|) && r.value == DepartureProduct(placed, mine)
  {
    var candidates := AllValidPositions(rules, FilterInvalid(nearby, rules));
    AllValidPositionsSpec(rules, FilterInvalid(nearby, rules));
    match Determine(candidates)
    case Failure(e) => Failure(e)
    case Success(placed) =>
      assert forall c :: c in placed ==> c.position < |rules| by {
        forall c | c in placed ensures c.position < |rules| {
          var l :| l in candidates && c in l;
          var k :| 0 <= k < |candidates| && candidates[k] == l;
        }
      }
      DepartureValuesProduct(placed, mine);
      Success(Product(DepartureValues(placed, mine)))
  }

  /** The program aborts when the personal-ticket section is empty. */
  datatype Error = MissingPersonalTicket

  /** Both answers; the first is reported before the solver runs, so it is
      present even when the solver aborts. */
  datatype Report = Report(part1: int, part2: Result<int, SolveError>)

  /** `main` on already-parsed input: the rules, the records of the personal
      ticket section (the first is used) and the nearby tickets. */
  function Run(rules: seq<Rule>, personal: seq<Passport>, nearby: seq<Passport>): (r: Result<Report, Error>)
    requires |personal| > 0 ==> |rules| <= |personal[0]|
    requires Covers(FilterInvalid(nearby, rules), |rules|)
    ensures r.Failure? <==> personal == []
    ensures r.Success? ==> r.value.part1 == Sum(AllInvalidFields(nearby, rules))
    ensures r.Success? ==> (r.value.part2.Failure? <==>
      Determine(AllValidPositions(rules, FilterInvalid(nearby, rules))).Failure?)
    ensures r.Success? && r.value.part2.Success? ==>
      var placed := Determine(AllValidPositions(rules, FilterInvalid(nearby, rules))).value;
      (forall k :: 0 <= k < |placed| ==> placed[k].position < |rules|) && r.value.part2.value == DepartureProduct(placed, personal[0])
  {
    if |personal| == 0 then Failure(MissingPersonalTicket)
    else Success(Report(PartOne(nearby, rules), PartTwo(rules, personal[0], nearby)))
  }

  /** The set `{0, ..., n - 1}`. */
  function Below(n: nat): (r: set<nat>)
    ensures |r| == n
    ensures forall p :: p in r <==> 0 <= p < n
  {
    if n == 0 then {} else Below(n - 1) + {n - 1}
  }

  /** `n` distinct positions below `n` use every position below `n`. */
  lemma DistinctBelowCovers(list: Candidates, n: nat)
    requires DistinctPositions(list) && |list| == n
    requires forall k :: 0 <= k < |list| ==> list[k].position < n
    ensures forall p :: 0 <= p < n ==> p in PositionSet(list)
  {
    DistinctPositionCount(list);
    var ps, all := PositionSet(list), Below(n);
    assert ps <= all;
    assert all == ps + (all - ps);
    assert all - ps == {};
  }

  /** Candidate lists hold each position at most once. */
  lemma CandidatesDistinct(rules: seq<Rule>, passports: seq<Passport>)
    requires Covers(passports, |rules|)
    ensures forall l :: l in AllValidPositions(rules, passports) ==> DistinctPositions(l)
  {
    var lists := AllValidPositions(rules, passports);
    AllValidPositionsSpec(rules, passports);
    forall l | l in lists ensures DistinctPositions(l) {
      var j :| 0 <= j < |lists| && lists[j] == l;
      assert Increasing(lists[j]);
    }
  }

  /** On success the solver places one entry per rule, at distinct positions
      below the number of rules. */
  lemma SolutionPositions(rules: seq<Rule>, passports: seq<Passport>)
    requires Covers(passports, |rules|)
    requires Determine(AllValidPositions(rules, passports)).Success?
    ensures var r := Determine(AllValidPositions(rules, passports)).value;
      && |r| == |rules|
      && DistinctPositions(r)
      && (forall k :: 0 <= k < |r| ==> r[k].position < |rules|)
  {
    var lists := AllValidPositions(rules, passports);
    var sorted := SortByLength(lists);
    var r := Determine(lists).value;
    AllValidPositionsSpec(rules, passports);
    CandidatesDistinct(rules, passports);
    DetermineSound(lists);
    forall k | 0 <= k < |r| ensures r[k].position < |rules| {
      assert sorted[k] in multiset(lists);
      var j :| 0 <= j < |lists| && lists[j] == sorted[k];
    }
  }

  /** End to end: when the solver succeeds on the candidate lists of a batch, it
      places one entry per rule and uses each position below the number of rules
      exactly once. */
  lemma SolutionIsBijection(rules: seq<Rule>, passports: seq<Passport>)
    requires Covers(passports, |rules|)
    requires Determine(AllValidPositions(rules, passports)).Success?
    ensures var r := Determine(AllValidPositions(rules, passports)).value;
      && |r| == |rules|
      && (forall k :: 0 <= k < |r| ==> r[k].position < |rules|)
      && (forall k, k' :: 0 <= k < k' < |r| ==> r[k].position != r[k'].position)
      && (forall p :: 0 <= p < |rules| ==> p in PositionSet(r))
  {
    SolutionPositions(rules, passports);
    DistinctBelowCovers(Determine(AllValidPositions(rules, passports)).value, |rules|);
  }

  /** End to end: when the solver succeeds, every rule receives a position at
      which every ticket's value satisfies it. */
  lemma SolutionRespectsRules(rules: seq<Rule>, passports: seq<Passport>)
    requires Covers(passports, |rules|)
    requires Determine(AllValidPositions(rules, passports)).Success?
    ensures var r := Determine(AllValidPositions(rules, passports)).value;
      forall j :: 0 <= j < |rules| ==> RuleIsPlaced(rules[j], r, |rules|, passports)
  {
    var lists := AllValidPositions(rules, passports);
    var sorted := SortByLength(lists);
    var r := Determine(lists).value;
    AllValidPositionsSpec(rules, passports);
    CandidatesDistinct(rules, passports);
    DetermineSound(lists);
    forall j | 0 <= j < |rules| ensures RuleIsPlaced(rules[j], r, |rules|, passports) {
      assert lists[j] in multiset(sorted);
      var k :| 0 <= k < |sorted| && sorted[k] == lists[j];
      assert r[k] in lists[j];
      assert r[k] == FieldPosition(r[k].position, rules[j].name);
    }
  }

  /** Some entry of `placed` names `rule` at a position below `n` where every
      ticket's value satisfies it. */
  predicate RuleIsPlaced(rule: Rule, placed: seq<FieldPosition>, n: nat, passports: seq<Passport>)
    requires Covers(passports, n)
  {
    exists k :: 0 <= k < |placed| && placed[k] == FieldPosition(placed[k].position, rule.name)
      && placed[k].position < n && IsValidInPosition(rule, placed[k].position, passports)
  }
}
