/** Finding the field values that no rule accepts, and discarding the
    passports that hold one. */
module Validity {
  import opened Seqs
  import opened Rules

  /** A ticket ("passport"): one value per field position. */
  type Passport = seq<int>

  /** No rule accepts `v`. */
  predicate Invalid(rules: seq<Rule>, v: int)
  {
    forall k :: 0 <= k < |rules| ==> !Valid(rules[k], v)
  }

  /** Every value of `p` is accepted by some rule. */
  predicate AllValuesValid(rules: seq<Rule>, p: Passport)
  {
    forall i :: 0 <= i < |p| ==> !Invalid(rules, p[i])
  }

  /** The values of `passport` that no rule accepts, in passport order. */
  function InvalidFields(passport: Passport, rules: seq<Rule>): seq<int>
  {
    Filter(passport, v => Invalid(rules, v))
  }

  /** `InvalidFields` is the order-preserving selection of every occurrence of
      every value no rule accepts; it is empty exactly when every value is valid. */
  lemma InvalidFieldsSpec(passport: Passport, rules: seq<Rule>)
    ensures var r := InvalidFields(passport, rules);
      && IsSubseq(r, passport)
      && (forall v :: multiset(r)[v] == if Invalid(rules, v) then multiset(passport)[v] else 0)
      && (forall v :: v in r <==> v in passport && Invalid(rules, v))
      && (r == [] <==> AllValuesValid(rules, passport))
  {
    FilterSpec(passport, v => Invalid(rules, v));
    var r := InvalidFields(passport, rules);
    if r != [] {
      assert r[0] in r;
    }
  }

  /** One step of the filter: the first value is kept exactly when it is invalid. */
  lemma InvalidFieldsStep(passport: Passport, rules: seq<Rule>)
    requires passport != []
    ensures InvalidFields(passport, rules)
      == (if Invalid(rules, passport[0]) then [passport[0]] else []) + InvalidFields(passport[1..], rules)
  {
  }

  /** `InvalidFields` of each passport, in passport order. */
  function InvalidFieldsOfEach(passports: seq<Passport>, rules: seq<Rule>): (r: seq<seq<int>>)
    ensures |r| == |passports|
    ensures forall k :: 0 <= k < |r| ==> r[k] == InvalidFields(passports[k], rules)
  {
    seq(|passports|, k requires 0 <= k < |passports| => InvalidFields(passports[k], rules))
  }

  /** The invalid values of all passports: the per-passport lists with the
      empty ones dropped, then flattened. */
  function AllInvalidFields(passports: seq<Passport>, rules: seq<Rule>): seq<int>
  {
    Flatten(DropEmpty(InvalidFieldsOfEach(passports, rules)))
  }

  /** A value is reported exactly when some passport holds it and no rule accepts it. */
  lemma AllInvalidFieldsMembers(passports: seq<Passport>, rules: seq<Rule>)
    ensures forall v :: v in AllInvalidFields(passports, rules) <==>
      exists k :: 0 <= k < |passports| && v in passports[k] && Invalid(rules, v)
  {
    var each := InvalidFieldsOfEach(passports, rules);
    FlattenDropEmpty(each);
    forall k | 0 <= k < |passports| {
      InvalidFieldsSpec(passports[k], rules);
    }
  }

  /** Dropping the empty lists changes nothing: the result is the concatenation,
      in passport order, of each passport's invalid values. */
  lemma {:induction false} AllInvalidFieldsConcat(passports: seq<Passport>, rules: seq<Rule>)
    ensures passports == [] ==> AllInvalidFields(passports, rules) == []
    ensures passports != [] ==>
      AllInvalidFields(passports, rules) == InvalidFields(passports[0], rules) + AllInvalidFields(passports[1..], rules)
  {
    var each := InvalidFieldsOfEach(passports, rules);
    FlattenDropEmpty(each);
    if passports != [] {
      assert each[1..] == InvalidFieldsOfEach(passports[1..], rules);
      FlattenDropEmpty(each[1..]);
    }
  }

  /** The first answer, the sum of the invalid values, adds up passport by passport. */
  lemma {:induction false} InvalidSumByPassport(passports: seq<Passport>, rules: seq<Rule>)
    ensures passports != [] ==>
      Sum(AllInvalidFields(passports, rules))
        == Sum(InvalidFields(passports[0], rules)) + Sum(AllInvalidFields(passports[1..], rules))
  {
    AllInvalidFieldsConcat(passports, rules);
    if passports != [] {
      SumConcat(InvalidFields(passports[0], rules), AllInvalidFields(passports[1..], rules));
    }
  }

  /** The passports without an invalid value, in their original order. */
  function FilterInvalid(passports: seq<Passport>, rules: seq<Rule>): seq<Passport>
  {
    Filter(passports, p => InvalidFields(p, rules) == [])
  }

  /** `FilterInvalid` keeps, in order, exactly the passports every value of
      which some rule accepts; each dropped passport holds an invalid value. */
  lemma FilterInvalidSpec(passports: seq<Passport>, rules: seq<Rule>)
    ensures var r := FilterInvalid(passports, rules);
      && IsSubseq(r, passports)
      && |r| <= |passports|
      && (forall p :: p in r ==> p in passports && AllValuesValid(rules, p))
      && (forall p :: p in passports && !AllValuesValid(rules, p) ==> p !in r)
      && (forall p :: multiset(r)[p] == if AllValuesValid(rules, p) then multiset(passports)[p] else 0)
  {
    var keep := p => InvalidFields(p, rules) == [];
    FilterSpec(passports, keep);
    SubseqLength(FilterInvalid(passports, rules), passports);
    forall p: Passport ensures keep(p) <==> AllValuesValid(rules, p) {
      InvalidFieldsSpec(p, rules);
    }
  }
}
