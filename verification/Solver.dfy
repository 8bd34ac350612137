/** The elimination solver: sort the candidate lists by length, then give each
    list, in that order, its first position that no earlier list has taken. */
module Solver {
  import opened Wrappers
  import opened Positions

  type Candidates = seq<FieldPosition>

  /** The solver aborts (the source panics with "too big!") when the `i`-th
      list in length order does not hold exactly `i + 1` entries. */
  datatype SolveError = TooBig

  /** Lengths never decrease along `lists`. */
  predicate ByLength(lists: seq<Candidates>)
  {
    forall i, j :: 0 <= i < j < |lists| ==> |lists[i]| <= |lists[j]|
  }

  /** Lengths strictly increase along `lists`. */
  predicate StrictlyByLength(lists: seq<Candidates>)
  {
    forall i, j :: 0 <= i < j < |lists| ==> |lists[i]| < |lists[j]|
  }

  /** No two entries of the list share a position. */
  predicate DistinctPositions(list: Candidates)
  {
    forall j, j' :: 0 <= j < j' < |list| ==> list[j].position != list[j'].position
  }

  /** The positions of the list's entries. */
  function PositionSet(list: Candidates): set<nat>
  {
    set j | 0 <= j < |list| :: list[j].position
  }

  /** `x` placed into a length-sorted sequence before the first longer-or-equal list. */
  function Insert(x: Candidates, sorted: seq<Candidates>): (r: seq<Candidates>)
    requires ByLength(sorted)
    ensures |r| == |sorted| + 1
    ensures ByLength(r)
    ensures multiset(r) == multiset(sorted) + multiset{x}
    ensures |r[0]| == |x| || (|sorted| > 0 && |r[0]| == |sorted[0]|)
  {
    if |sorted| == 0 || |x| <= |sorted[0]| then [x] + sorted
    else
      assert sorted == [sorted[0]] + sorted[1..];
      var rest := Insert(x, sorted[1..]);
      var r := [sorted[0]] + rest;
      assert forall j :: 0 < j < |r| ==> r[j] == rest[j - 1];
      assert forall j :: 0 < j < |r| ==> |sorted[0]| <= |r[j]| by {
        assert |sorted[0]| <= |rest[0]|;
      }
      r
  }

  /** The candidate lists ordered by length (an insertion sort). */
  function SortByLength(lists: seq<Candidates>): (r: seq<Candidates>)
    ensures |r| == |lists|
    ensures ByLength(r)
    ensures multiset(r) == multiset(lists)
  {
    if |lists| == 0 then []
    else
      assert lists == [lists[0]] + lists[1..];
      Insert(lists[0], SortByLength(lists[1..]))
  }

  /** The index of the first entry at or after `from` whose position is not in `taken`. */
  function FirstUntakenFrom(list: Candidates, taken: set<nat>, from: nat): (r: Option<nat>)
    requires from <= |list|
    ensures r.Some? ==> from <= r.value < |list| && list[r.value].position !in taken
    ensures r.Some? ==> forall j :: from <= j < r.value ==> list[j].position in taken
    ensures r.None? ==> forall j :: from <= j < |list| ==> list[j].position in taken
    decreases |list| - from
  {
    if from == |list| then None
    else if list[from].position !in taken then Some(from)
    else FirstUntakenFrom(list, taken, from + 1)
  }

  /** The index of the first entry whose position is not in `taken`, if any. */
  function FirstUntaken(list: Candidates, taken: set<nat>): (r: Option<nat>)
    ensures r.Some? ==> r.value < |list| && list[r.value].position !in taken
    ensures r.Some? ==> forall j :: 0 <= j < r.value ==> list[j].position in taken
    ensures r.None? ==> forall j :: 0 <= j < |list| ==> list[j].position in taken
  {
    FirstUntakenFrom(list, taken, 0)
  }

  /** The solver's loop from the `i`-th sorted list on, with the positions in
      `taken` already assigned. A list whose positions are all taken adds no entry. */
  function Assign(lists: seq<Candidates>, i: nat, taken: set<nat>): (r: Result<seq<FieldPosition>, SolveError>)
    ensures r.Success? ==> |r.value| <= |lists|
    ensures r.Success? ==> forall c :: c in r.value ==> exists l :: l in lists && c in l
    ensures r.Success? ==> forall c :: c in r.value ==> c.position !in taken
    ensures r.Success? ==> DistinctPositions(r.value)
    decreases |lists|
  {
    if |lists| == 0 then Success([])
    else if |lists[0]| != i + 1 then Failure(TooBig)
    else
      assert lists == [lists[0]] + lists[1..];
      match FirstUntaken(lists[0], taken)
      case None => Assign(lists[1..], i + 1, taken)
      case Some(j) =>
        var rest := Assign(lists[1..], i + 1, taken + {lists[0][j].position});
        assert forall l :: l in lists[1..] ==> l in lists;
        assert lists[0] in lists && lists[0][j] in lists[0];
        if rest.Failure? then rest else Success([lists[0][j]] + rest.value)
  }

  /** `determine_field_positions`: sort by length, then assign. */
  function Determine(lists: seq<Candidates>): (r: Result<seq<FieldPosition>, SolveError>)
    ensures r.Success? ==> |r.value| <= |lists|
    ensures r.Success? ==> forall c :: c in r.value ==> exists l :: l in lists && c in l
    ensures r.Success? ==> DistinctPositions(r.value)
  {
    var sorted := SortByLength(lists);
    assert forall l :: l in sorted ==> l in lists by {
      forall l | l in sorted ensures l in lists {
        assert l in multiset(sorted);
      }
    }
    Assign(sorted, 0, {})
  }

  /** The loop runs to completion exactly when the `k`-th remaining list holds
      `i + k + 1` entries. */
  lemma {:induction false} AssignSucceedsIff(lists: seq<Candidates>, i: nat, taken: set<nat>)
    ensures Assign(lists, i, taken).Success? <==> forall k :: 0 <= k < |lists| ==> |lists[k]| == i + k + 1
    decreases |lists|
  {
    if |lists| > 0 && |lists[0]| == i + 1 {
      var next := match FirstUntaken(lists[0], taken)
        case None => taken
        case Some(j) => taken + {lists[0][j].position};
      AssignSucceedsIff(lists[1..], i + 1, next);
      assert forall k :: 1 <= k < |lists| ==> lists[k] == lists[1..][k - 1];
    }
  }

  /** Determine succeeds exactly when the `k`-th list in length order holds `k + 1` entries. */
  lemma DetermineSucceedsIff(lists: seq<Candidates>)
    ensures Determine(lists).Success? <==>
      forall k :: 0 <= k < |lists| ==> |SortByLength(lists)[k]| == k + 1
  {
    var sorted := SortByLength(lists);
    AssignSucceedsIff(sorted, 0, {});
    assert Determine(lists) == Assign(sorted, 0, {});
    assert |sorted| == |lists|;
    if Determine(lists).Success? {
      forall k | 0 <= k < |lists| ensures |SortByLength(lists)[k]| == k + 1 {
        assert |sorted[k]| == 0 + k + 1;
      }
    } else {
      var k :| 0 <= k < |sorted| && |sorted[k]| != 0 + k + 1;
      assert |SortByLength(lists)[k]| != k + 1;
    }
  }

  /** A list of distinct positions has as many positions as entries. */
  lemma {:induction false} DistinctPositionCount(list: Candidates)
    requires DistinctPositions(list)
    ensures |PositionSet(list)| == |list|
  {
    if |list| > 0 {
      var tail := list[1..];
      DistinctPositionCount(tail);
      assert PositionSet(list) == {list[0].position} + PositionSet(tail) by {
        forall p | p in PositionSet(list) ensures p in {list[0].position} + PositionSet(tail) {
          var j :| 0 <= j < |list| && list[j].position == p;
          if j > 0 {
            assert tail[j - 1].position == p;
          }
        }
        forall p | p in PositionSet(tail) ensures p in PositionSet(list) {
          var j :| 0 <= j < |tail| && tail[j].position == p;
          assert list[j + 1].position == p;
        }
      }
      assert list[0].position !in PositionSet(tail);
    }
  }

  /** A list with more distinct positions than `taken` holds always has an untaken one. */
  lemma AlwaysUntaken(list: Candidates, taken: set<nat>)
    requires DistinctPositions(list)
    requires |taken| < |list|
    ensures FirstUntaken(list, taken).Some?
  {
    if FirstUntaken(list, taken).None? {
      AllTakenBound(list, taken);
      assert false;
    }
  }

  /** If every position of a distinct-position list is taken, `taken` is at least as large. */
  lemma AllTakenBound(list: Candidates, taken: set<nat>)
    requires DistinctPositions(list)
    requires forall j :: 0 <= j < |list| ==> list[j].position in taken
    ensures |list| <= |taken|
  {
    DistinctPositionCount(list);
    var ps := PositionSet(list);
    assert ps <= taken;
    assert taken == ps + (taken - ps);
  }

  /** With distinct positions in each list and at most `i` positions taken, a
      successful loop takes one entry from each list, each from its own list,
      none already taken and no two at the same position. */
  lemma {:induction false} AssignPicksOnePerList(lists: seq<Candidates>, i: nat, taken: set<nat>)
    requires forall k :: 0 <= k < |lists| ==> DistinctPositions(lists[k])
    requires |taken| <= i
    requires Assign(lists, i, taken).Success?
    ensures var r := Assign(lists, i, taken).value;
      && |r| == |lists|
      && (forall k :: 0 <= k < |r| ==> r[k] in lists[k])
      && (forall k :: 0 <= k < |r| ==> r[k].position !in taken)
      && (forall k, k' :: 0 <= k < k' < |r| ==> r[k].position != r[k'].position)
    decreases |lists|
  {
    if |lists| > 0 {
      AlwaysUntaken(lists[0], taken);
      var j := FirstUntaken(lists[0], taken).value;
      var c := lists[0][j];
      var next := taken + {c.position};
      assert |next| <= i + 1;
      AssignPicksOnePerList(lists[1..], i + 1, next);
      var rest := Assign(lists[1..], i + 1, next).value;
      assert Assign(lists, i, taken).value == [c] + rest;
    }
  }

  /** The shortest list of a strictly sorted arrangement heads every length-sorted
      arrangement of the same lists. */
  lemma HeadsAgree(a: seq<Candidates>, b: seq<Candidates>)
    requires StrictlyByLength(a) && ByLength(b)
    requires multiset(a) == multiset(b) && |a| > 0
    ensures |b| > 0 && a[0] == b[0]
  {
    assert a[0] in multiset(b);
    var j :| 0 <= j < |b| && b[j] == a[0];
    assert b[0] in multiset(a);
    var k :| 0 <= k < |a| && a[k] == b[0];
    assert |b[0]| <= |b[j]|;
    assert |a[0]| <= |a[k]|;
  }

  lemma TailsPermuted(a: seq<Candidates>, b: seq<Candidates>)
    requires multiset(a) == multiset(b) && |a| > 0 && |b| > 0 && a[0] == b[0]
    ensures multiset(a[1..]) == multiset(b[1..])
  {
    assert a == [a[0]] + a[1..];
    assert b == [b[0]] + b[1..];
    assert multiset(a[1..]) == multiset(a) - multiset{a[0]};
    assert multiset(b[1..]) == multiset(b) - multiset{b[0]};
  }

  /** Two length-sorted arrangements of the same lists agree when one of them
      has strictly increasing lengths. */
  lemma {:induction false} SortedArrangementUnique(a: seq<Candidates>, b: seq<Candidates>)
    requires StrictlyByLength(a) && ByLength(b)
    requires multiset(a) == multiset(b)
    ensures a == b
    decreases |a|
  {
    if |a| == 0 {
      assert |b| == |multiset(b)| == 0;
    } else {
      HeadsAgree(a, b);
      TailsPermuted(a, b);
      SortedArrangementUnique(a[1..], b[1..]);
      assert a == [a[0]] + a[1..];
      assert b == [b[0]] + b[1..];
    }
  }

  /** The source's sort is unstable; the outcome does not depend on how it breaks
      ties: any length-sorted rearrangement of the lists gives the same result. */
  lemma TieBreakIrrelevant(lists: seq<Candidates>, other: seq<Candidates>)
    requires multiset(other) == multiset(lists) && ByLength(other)
    ensures Assign(other, 0, {}) == Determine(lists)
  {
    var sorted := SortByLength(lists);
    AssignSucceedsIff(sorted, 0, {});
    AssignSucceedsIff(other, 0, {});
    if Assign(sorted, 0, {}).Success? {
      SortedArrangementUnique(sorted, other);
    } else if Assign(other, 0, {}).Success? {
      SortedArrangementUnique(other, sorted);
    } else {
      assert Assign(other, 0, {}).error == TooBig == Assign(sorted, 0, {}).error;
    }
  }

  /** The solver's theorem: when each list has distinct positions and Determine
      succeeds, it takes exactly one entry from each length-sorted list, and no two
      entries share a position. */
  lemma DetermineSound(lists: seq<Candidates>)
    requires forall l :: l in lists ==> DistinctPositions(l)
    requires Determine(lists).Success?
    ensures var r, sorted := Determine(lists).value, SortByLength(lists);
      && |r| == |lists| == |sorted|
      && (forall k :: 0 <= k < |r| ==> |sorted[k]| == k + 1 && r[k] in sorted[k])
      && DistinctPositions(r)
  {
    var sorted := SortByLength(lists);
    forall k | 0 <= k < |sorted| ensures DistinctPositions(sorted[k]) {
      assert sorted[k] in multiset(lists);
    }
    AssignSucceedsIff(sorted, 0, {});
    AssignPicksOnePerList(sorted, 0, {});
  }

  /** `determine_field_positions` as the source writes it: a loop over the sorted
      lists with a `taken` set, an inner loop that stops at the first untaken
      position, and an abort when a list's length is not its index plus one. */
  method DetermineFieldPositions(lists: seq<Candidates>) returns (r: Result<seq<FieldPosition>, SolveError>)
    ensures r == Determine(lists)
  {
    var sorted := SortByLength(lists);
    var determined: seq<FieldPosition> := [];
    var taken: set<nat> := {};
    var i := 0;
    PrependNothing(Assign(sorted, 0, {}));
    assert sorted[0..] == sorted;
    while i < |sorted|
      invariant 0 <= i <= |sorted|
      invariant Determine(lists) == Prepend(determined, Assign(sorted[i..], i, taken))
    {
      if |sorted[i]| != i + 1 {
        AssignStep(sorted, i, taken);
        return Failure(TooBig);
      }
      var j := FirstUntakenIndex(sorted[i], taken);
      AssignStep(sorted, i, taken);
      if j < |sorted[i]| {
        var c := sorted[i][j];
        PrependConcat(determined, c, Assign(sorted[i + 1..], i + 1, taken + {c.position}));
        determined := determined + [c];
        taken := taken + {c.position};
      }
      i := i + 1;
    }
    assert sorted[i..] == [];
    assert determined + [] == determined;
    return Success(determined);
  }

  /** The inner loop of `determine_field_positions`: scan for the first entry
      whose position is untaken and stop there; `|list|` when there is none. */
  method FirstUntakenIndex(list: Candidates, taken: set<nat>) returns (j: nat)
    ensures j <= |list|
    ensures j < |list| ==> FirstUntaken(list, taken) == Some(j)
    ensures j == |list| ==> FirstUntaken(list, taken) == None
  {
    j := 0;
    while j < |list|
      invariant 0 <= j <= |list|
      invariant forall j' :: 0 <= j' < j ==> list[j'].position in taken
    {
      if list[j].position !in taken {
        break;
      }
      j := j + 1;
    }
  }

  /** One turn of the solver's loop, seen from index `i` of the sorted lists. */
  lemma AssignStep(sorted: seq<Candidates>, i: nat, taken: set<nat>)
    requires i < |sorted|
    ensures |sorted[i]| != i + 1 ==> Assign(sorted[i..], i, taken) == Failure(TooBig)
    ensures |sorted[i]| == i + 1 && FirstUntaken(sorted[i], taken).None? ==>
      Assign(sorted[i..], i, taken) == Assign(sorted[i + 1..], i + 1, taken)
    ensures |sorted[i]| == i + 1 && FirstUntaken(sorted[i], taken).Some? ==>
      var c := sorted[i][FirstUntaken(sorted[i], taken).value];
      var rest := Assign(sorted[i + 1..], i + 1, taken + {c.position});
      Assign(sorted[i..], i, taken) == if rest.Failure? then rest else Success([c] + rest.value)
  {
    assert sorted[i..][0] == sorted[i];
    assert sorted[i..][1..] == sorted[i + 1..];
  }

  lemma PrependNothing(rest: Result<seq<FieldPosition>, SolveError>)
    ensures Prepend([], rest) == rest
  {
    if rest.Success? {
      assert [] + rest.value == rest.value;
    }
  }

  /** `done` followed by the outcome of the rest of the loop. */
  function Prepend(done: seq<FieldPosition>, rest: Result<seq<FieldPosition>, SolveError>): Result<seq<FieldPosition>, SolveError>
  {
    match rest
    case Failure(e) => Failure(e)
    case Success(more) => Success(done + more)
  }

  lemma PrependConcat(done: seq<FieldPosition>, c: FieldPosition, rest: Result<seq<FieldPosition>, SolveError>)
    ensures Prepend(done, if rest.Failure? then rest else Success([c] + rest.value)) == Prepend(done + [c], rest)
  {
    if rest.Success? {
      assert done + ([c] + rest.value) == (done + [c]) + rest.value;
    }
  }
}
