/** For each rule, the field positions at which every valid passport's value
    satisfies that rule. */
module Positions {
  import opened Rules
  import opened Validity

  /** A field position paired with the name of a rule that may sit there. */
  datatype FieldPosition = FieldPosition(position: nat, name: string)

  /** Every passport has at least `n` values, so positions below `n` can be read. */
  predicate Covers(passports: seq<Passport>, n: nat)
  {
    forall k :: 0 <= k < |passports| ==> n <= |passports[k]|
  }

  /** Positions strictly increase along the list. */
  predicate Increasing(list: seq<FieldPosition>)
  {
    forall j, j' :: 0 <= j < j' < |list| ==> list[j].position < list[j'].position
  }

  /** Every passport's value at `position` is valid for `rule`. */
  predicate IsValidInPosition(rule: Rule, position: nat, passports: seq<Passport>)
    requires Covers(passports, position + 1)
  {
    forall k :: 0 <= k < |passports| ==> Valid(rule, passports[k][position])
  }

  /** The positions in `from..n` at which `rule` is valid, in ascending order. */
  function PositionsFrom(rule: Rule, passports: seq<Passport>, from: nat, n: nat): seq<FieldPosition>
    requires from <= n && Covers(passports, n)
    decreases n - from
  {
    if from == n then []
    else
      var rest := PositionsFrom(rule, passports, from + 1, n);
      if IsValidInPosition(rule, from, passports) then [FieldPosition(from, rule.name)] + rest
      else rest
  }

  /** `PositionsFrom` lists, in ascending order and paired with the rule's name,
      exactly the positions in `from..n` at which the rule is valid. */
  lemma {:induction false} PositionsFromSpec(rule: Rule, passports: seq<Passport>, from: nat, n: nat)
    requires from <= n && Covers(passports, n)
    ensures var r := PositionsFrom(rule, passports, from, n);
      && Increasing(r)
      && (forall j :: 0 <= j < |r| ==> from <= r[j].position < n && r[j].name == rule.name)
      && (forall p :: from <= p < n ==>
            (FieldPosition(p, rule.name) in r <==> IsValidInPosition(rule, p, passports)))
    decreases n - from
  {
    if from < n {
      PositionsFromSpec(rule, passports, from + 1, n);
    }
  }

  /** One list per rule, in rule order: the positions below the number of rules
      at which that rule is valid for every passport. */
  function AllValidPositions(rules: seq<Rule>, passports: seq<Passport>): seq<seq<FieldPosition>>
    requires Covers(passports, |rules|)
  {
    seq(|rules|, k requires 0 <= k < |rules| => PositionsFrom(rules[k], passports, 0, |rules|))
  }

  /** One list per rule; list `k` holds, in ascending order, exactly the positions
      below the number of rules at which rule `k` is valid for every passport,
      each paired with rule `k`'s name. */
  lemma AllValidPositionsSpec(rules: seq<Rule>, passports: seq<Passport>)
    requires Covers(passports, |rules|)
    ensures var r := AllValidPositions(rules, passports);
      && |r| == |rules|
      && (forall k :: 0 <= k < |r| ==> Increasing(r[k]))
      && (forall k, c :: 0 <= k < |r| && c in r[k] ==> c.position < |rules| && c.name == rules[k].name)
      && (forall k, p :: 0 <= k < |r| && 0 <= p < |rules| ==>
            (FieldPosition(p, rules[k].name) in r[k] <==> IsValidInPosition(rules[k], p, passports)))
  {
    forall k | 0 <= k < |rules| {
      PositionsFromSpec(rules[k], passports, 0, |rules|);
    }
  }

  /** Fewer passports can only keep or add candidate positions: a position is
      a candidate when every passport agrees with the rule there. */
  lemma CandidatesAntitone(rules: seq<Rule>, passports: seq<Passport>, fewer: seq<Passport>)
    requires Covers(passports, |rules|)
    requires forall q :: q in fewer ==> q in passports
    ensures Covers(fewer, |rules|)
    ensures forall k, c :: 0 <= k < |rules| && c in AllValidPositions(rules, passports)[k] ==>
      c in AllValidPositions(rules, fewer)[k]
  {
    assert Covers(fewer, |rules|) by {
      forall k | 0 <= k < |fewer| ensures |rules| <= |fewer[k]| {
        assert fewer[k] in passports;
      }
    }
    AllValidPositionsSpec(rules, passports);
    AllValidPositionsSpec(rules, fewer);
    var all, sub := AllValidPositions(rules, passports), AllValidPositions(rules, fewer);
    forall k, c: FieldPosition | 0 <= k < |rules| && c in all[k] ensures c in sub[k] {
      assert IsValidInPosition(rules[k], c.position, passports);
      forall i | 0 <= i < |fewer| ensures Valid(rules[k], fewer[i][c.position]) {
        assert fewer[i] in passports;
        var j :| 0 <= j < |passports| && passports[j] == fewer[i];
      }
    }
  }

  /** Solving over the tickets that survive `FilterInvalid` can only keep or add
      candidate positions compared with using every nearby ticket. */
  lemma FilteringOnlyAddsCandidates(rules: seq<Rule>, nearby: seq<Passport>)
    requires Covers(nearby, |rules|)
    ensures Covers(FilterInvalid(nearby, rules), |rules|)
    ensures forall k, c :: 0 <= k < |rules| && c in AllValidPositions(rules, nearby)[k] ==>
      c in AllValidPositions(rules, FilterInvalid(nearby, rules))[k]
  {
    FilterInvalidSpec(nearby, rules);
    CandidatesAntitone(rules, nearby, FilterInvalid(nearby, rules));
  }
}
