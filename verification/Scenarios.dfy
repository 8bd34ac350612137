/** The two worked examples of the source's tests, on already-parsed input. */
module Scenarios {
  import opened Wrappers
  import opened Seqs
  import opened Rules
  import opened Validity
  import opened Positions
  import opened Solver
  import opened Driver

  const RulesA: seq<Rule> := [
    Rule("class", Range(1, 3), Range(5, 7)),
    Rule("row", Range(6, 11), Range(33, 44)),
    Rule("seat", Range(13, 40), Range(45, 50))
  ]

  const NearbyA: seq<Passport> := [[7, 3, 47], [40, 4, 50], [55, 2, 20], [38, 6, 12]]

  const RulesB: seq<Rule> := [
    Rule("class", Range(0, 1), Range(4, 19)),
    Rule("row", Range(0, 5), Range(8, 19)),
    Rule("seat", Range(0, 13), Range(16, 19))
  ]

  const MineB: Passport := [11, 12, 13]

  const NearbyB: seq<Passport> := [[3, 9, 18], [15, 1, 5], [5, 14, 9]]

  lemma InvalidFieldsA0()
    ensures InvalidFields(NearbyA[0], RulesA) == []
  {
    var e: seq<int> := [];
    assert InvalidFields(e, RulesA) == [];
    assert Valid(RulesA[2], 47);
    InvalidFieldsStep([47], RulesA);
    assert [47][1..] == e;
    assert InvalidFields([47], RulesA) == [];
    assert Valid(RulesA[0], 3);
    InvalidFieldsStep([3, 47], RulesA);
    assert [3, 47][1..] == [47];
    assert InvalidFields([3, 47], RulesA) == [];
    assert Valid(RulesA[0], 7);
    InvalidFieldsStep([7, 3, 47], RulesA);
    assert [7, 3, 47][1..] == [3, 47];
    assert InvalidFields([7, 3, 47], RulesA) == [];
    assert NearbyA[0] == [7, 3, 47];
  }

  lemma InvalidFieldsA1()
    ensures InvalidFields(NearbyA[1], RulesA) == [4]
  {
    var e: seq<int> := [];
    assert InvalidFields(e, RulesA) == [];
    assert Valid(RulesA[2], 50);
    InvalidFieldsStep([50], RulesA);
    assert [50][1..] == e;
    assert InvalidFields([50], RulesA) == [];
    assert Invalid(RulesA, 4);
    InvalidFieldsStep([4, 50], RulesA);
    assert [4, 50][1..] == [50];
    assert InvalidFields([4, 50], RulesA) == [4];
    assert Valid(RulesA[2], 40);
    InvalidFieldsStep([40, 4, 50], RulesA);
    assert [40, 4, 50][1..] == [4, 50];
    assert InvalidFields([40, 4, 50], RulesA) == [4];
    assert NearbyA[1] == [40, 4, 50];
  }

  lemma InvalidFieldsA2()
    ensures InvalidFields(NearbyA[2], RulesA) == [55]
  {
    var e: seq<int> := [];
    assert InvalidFields(e, RulesA) == [];
    assert Valid(RulesA[2], 20);
    InvalidFieldsStep([20], RulesA);
    assert [20][1..] == e;
    assert InvalidFields([20], RulesA) == [];
    assert Valid(RulesA[0], 2);
    InvalidFieldsStep([2, 20], RulesA);
    assert [2, 20][1..] == [20];
    assert InvalidFields([2, 20], RulesA) == [];
    assert Invalid(RulesA, 55);
    InvalidFieldsStep([55, 2, 20], RulesA);
    assert [55, 2, 20][1..] == [2, 20];
    assert InvalidFields([55, 2, 20], RulesA) == [55];
    assert NearbyA[2] == [55, 2, 20];
  }

  lemma InvalidFieldsA3()
    ensures InvalidFields(NearbyA[3], RulesA) == [12]
  {
    var e: seq<int> := [];
    assert InvalidFields(e, RulesA) == [];
    assert Invalid(RulesA, 12);
    InvalidFieldsStep([12], RulesA);
    assert [12][1..] == e;
    assert InvalidFields([12], RulesA) == [12];
    assert Valid(RulesA[0], 6);
    InvalidFieldsStep([6, 12], RulesA);
    assert [6, 12][1..] == [12];
    assert InvalidFields([6, 12], RulesA) == [12];
    assert Valid(RulesA[2], 38);
    InvalidFieldsStep([38, 6, 12], RulesA);
    assert [38, 6, 12][1..] == [6, 12];
    assert InvalidFields([38, 6, 12], RulesA) == [12];
    assert NearbyA[3] == [38, 6, 12];
  }

  /** First test: the invalid values are 4, 55 and 12, which sum to 71. */
  lemma ScenarioA()
    ensures AllInvalidFields(NearbyA, RulesA) == [4, 55, 12]
    ensures PartOne(NearbyA, RulesA) == 71
  {
    InvalidFieldsA0();
    InvalidFieldsA1();
    InvalidFieldsA2();
    InvalidFieldsA3();
    AllInvalidFieldsConcat(NearbyA, RulesA);
    assert NearbyA[1..] == [NearbyA[1], NearbyA[2], NearbyA[3]];
    AllInvalidFieldsConcat(NearbyA[1..], RulesA);
    assert NearbyA[1..][1..] == [NearbyA[2], NearbyA[3]];
    AllInvalidFieldsConcat(NearbyA[1..][1..], RulesA);
    assert NearbyA[1..][1..][1..] == [NearbyA[3]];
    AllInvalidFieldsConcat(NearbyA[1..][1..][1..], RulesA);
    assert NearbyA[1..][1..][1..][1..] == [];
    AllInvalidFieldsConcat(NearbyA[1..][1..][1..][1..], RulesA);
    assert [4] + ([55] + ([12] + [])) == [4, 55, 12];
  }

  /** Every value of the second test's tickets satisfies the "row" rule. */
  lemma ValidTicketB0()
    ensures InvalidFields(NearbyB[0], RulesB) == []
  {
    var e: seq<int> := [];
    assert InvalidFields(e, RulesB) == [];
    assert Valid(RulesB[1], 18);
    InvalidFieldsStep([18], RulesB);
    assert [18][1..] == e;
    assert InvalidFields([18], RulesB) == [];
    assert Valid(RulesB[1], 9);
    InvalidFieldsStep([9, 18], RulesB);
    assert [9, 18][1..] == [18];
    assert InvalidFields([9, 18], RulesB) == [];
    assert Valid(RulesB[1], 3);
    InvalidFieldsStep([3, 9, 18], RulesB);
    assert [3, 9, 18][1..] == [9, 18];
    assert InvalidFields([3, 9, 18], RulesB) == [];
    assert NearbyB[0] == [3, 9, 18];
  }

  lemma ValidTicketB1()
    ensures InvalidFields(NearbyB[1], RulesB) == []
  {
    var e: seq<int> := [];
    assert InvalidFields(e, RulesB) == [];
    assert Valid(RulesB[1], 5);
    InvalidFieldsStep([5], RulesB);
    assert [5][1..] == e;
    assert InvalidFields([5], RulesB) == [];
    assert Valid(RulesB[1], 1);
    InvalidFieldsStep([1, 5], RulesB);
    assert [1, 5][1..] == [5];
    assert InvalidFields([1, 5], RulesB) == [];
    assert Valid(RulesB[1], 15);
    InvalidFieldsStep([15, 1, 5], RulesB);
    assert [15, 1, 5][1..] == [1, 5];
    assert InvalidFields([15, 1, 5], RulesB) == [];
    assert NearbyB[1] == [15, 1, 5];
  }

  lemma ValidTicketB2()
    ensures InvalidFields(NearbyB[2], RulesB) == []
  {
    var e: seq<int> := [];
    assert InvalidFields(e, RulesB) == [];
    assert Valid(RulesB[1], 9);
    InvalidFieldsStep([9], RulesB);
    assert [9][1..] == e;
    assert InvalidFields([9], RulesB) == [];
    assert Valid(RulesB[1], 14);
    InvalidFieldsStep([14, 9], RulesB);
    assert [14, 9][1..] == [9];
    assert InvalidFields([14, 9], RulesB) == [];
    assert Valid(RulesB[1], 5);
    InvalidFieldsStep([5, 14, 9], RulesB);
    assert [5, 14, 9][1..] == [14, 9];
    assert InvalidFields([5, 14, 9], RulesB) == [];
    assert NearbyB[2] == [5, 14, 9];
  }

  lemma ValidTicketsB()
    ensures forall k :: 0 <= k < |NearbyB| ==> InvalidFields(NearbyB[k], RulesB) == []
  {
    ValidTicketB0();
    ValidTicketB1();
    ValidTicketB2();
  }

  lemma FilterInvalidB()
    ensures FilterInvalid(NearbyB, RulesB) == NearbyB
  {
    ValidTicketsB();
    var keep := p => InvalidFields(p, RulesB) == [];
    var s := NearbyB;
    assert keep(s[0]) && keep(s[1]) && keep(s[2]);
    assert s[1..][1..][1..] == [];
    assert Filter(s[1..][1..], keep) == s[1..][1..];
    assert Filter(s[1..], keep) == s[1..];
  }

  const ListsB: seq<Candidates> := [
    [FieldPosition(1, "class"), FieldPosition(2, "class")],
    [FieldPosition(0, "row"), FieldPosition(1, "row"), FieldPosition(2, "row")],
    [FieldPosition(2, "seat")]
  ]

  lemma ClassCandidatesB()
    ensures AllValidPositions(RulesB, NearbyB)[0] == ListsB[0]
  {
    assert |RulesB| == 3;
    assert !Valid(RulesB[0], NearbyB[0][0]);
    assert !IsValidInPosition(RulesB[0], 0, NearbyB);
    assert IsValidInPosition(RulesB[0], 1, NearbyB);
    assert IsValidInPosition(RulesB[0], 2, NearbyB);
    assert PositionsFrom(RulesB[0], NearbyB, 3, 3) == [];
    assert PositionsFrom(RulesB[0], NearbyB, 2, 3) == [FieldPosition(2, "class")];
    assert PositionsFrom(RulesB[0], NearbyB, 1, 3) == ListsB[0];
  }

  lemma RowCandidatesB()
    ensures AllValidPositions(RulesB, NearbyB)[1] == ListsB[1]
  {
    assert |RulesB| == 3;
    assert IsValidInPosition(RulesB[1], 0, NearbyB);
    assert IsValidInPosition(RulesB[1], 1, NearbyB);
    assert IsValidInPosition(RulesB[1], 2, NearbyB);
    assert PositionsFrom(RulesB[1], NearbyB, 3, 3) == [];
    assert PositionsFrom(RulesB[1], NearbyB, 2, 3) == [FieldPosition(2, "row")];
    assert PositionsFrom(RulesB[1], NearbyB, 1, 3) == ListsB[1][1..];
  }

  lemma SeatCandidatesB()
    ensures AllValidPositions(RulesB, NearbyB)[2] == ListsB[2]
  {
    assert |RulesB| == 3;
    assert !Valid(RulesB[2], NearbyB[1][0]);
    assert !IsValidInPosition(RulesB[2], 0, NearbyB);
    assert !Valid(RulesB[2], NearbyB[2][1]);
    assert !IsValidInPosition(RulesB[2], 1, NearbyB);
    assert IsValidInPosition(RulesB[2], 2, NearbyB);
    assert PositionsFrom(RulesB[2], NearbyB, 3, 3) == [];
    assert PositionsFrom(RulesB[2], NearbyB, 2, 3) == ListsB[2];
    assert PositionsFrom(RulesB[2], NearbyB, 1, 3) == ListsB[2];
  }

  lemma CandidatesB()
    ensures AllValidPositions(RulesB, NearbyB) == ListsB
  {
    ClassCandidatesB();
    RowCandidatesB();
    SeatCandidatesB();
    var lists := AllValidPositions(RulesB, NearbyB);
    assert |lists| == |ListsB|;
    forall k | 0 <= k < |lists| ensures lists[k] == ListsB[k] {
      assert k == 0 || k == 1 || k == 2;
    }
  }

  lemma SortB()
    ensures SortByLength(ListsB) == [ListsB[2], ListsB[0], ListsB[1]]
  {
    var l := ListsB;
    assert l[1..][1..] == [l[2]];
    assert l[1..][1..][1..] == [];
    assert SortByLength(l[1..][1..]) == [l[2]];
    assert SortByLength(l[1..]) == [l[2], l[1]];
    assert [l[2], l[1]][1..] == [l[1]];
  }

  lemma AssignB()
    ensures Assign([ListsB[2], ListsB[0], ListsB[1]], 0, {})
      == Success([FieldPosition(2, "seat"), FieldPosition(1, "class"), FieldPosition(0, "row")])
  {
    var seat, cls, row := ListsB[2], ListsB[0], ListsB[1];
    assert |seat| == 1 && seat[0] == FieldPosition(2, "seat");
    assert |cls| == 2 && cls[0] == FieldPosition(1, "class");
    assert |row| == 3 && row[0] == FieldPosition(0, "row");
    assert FirstUntaken(seat, {}) == Some(0);
    assert FirstUntaken(cls, {2}) == Some(0);
    assert FirstUntaken(row, {2, 1}) == Some(0);

    var r3 := Assign([row][1..], 3, {2, 1} + {row[0].position});
    assert r3 == Success([]);
    var r2 := Assign([cls, row][1..], 2, {2} + {cls[0].position});
    assert [cls, row][1..] == [row] && {2} + {cls[0].position} == {2, 1};
    assert r2 == Success([row[0]] + r3.value);
    assert r2.value == [row[0]];
    var r1 := Assign([seat, cls, row][1..], 1, {} + {seat[0].position});
    assert [seat, cls, row][1..] == [cls, row] && {} + {seat[0].position} == {2};
    assert r1 == Success([cls[0]] + r2.value);
    assert r1.value == [cls[0], row[0]];
    assert Assign([seat, cls, row], 0, {}) == Success([seat[0]] + r1.value);
    assert [seat[0]] + r1.value == [seat[0], cls[0], row[0]];
  }

  lemma SolveB()
    ensures Determine(ListsB)
      == Success([FieldPosition(2, "seat"), FieldPosition(1, "class"), FieldPosition(0, "row")])
  {
    SortB();
    AssignB();
  }

  lemma DeparturesB()
    ensures DepartureValues([FieldPosition(2, "seat"), FieldPosition(1, "class"), FieldPosition(0, "row")], MineB) == []
  {
    var r := [FieldPosition(2, "seat"), FieldPosition(1, "class"), FieldPosition(0, "row")];
    assert !IsDeparture(r[0]);
    assert !IsDeparture(r[1]);
    assert !IsDeparture(r[2]);
    assert r[1..][1..][1..] == [];
    assert Filter(r[1..][1..], IsDeparture) == [];
    assert Filter(r[1..], IsDeparture) == [];
    assert Filter(r, IsDeparture) == [];
  }

  /** Second test: every ticket is valid; the candidates are class at 1 and 2,
      row at 0, 1 and 2, seat at 2; the solver places seat at 2, class at 1,
      row at 0. No rule is a departure rule, so the second answer is 1. */
  lemma ScenarioB()
    ensures FilterInvalid(NearbyB, RulesB) == NearbyB
    ensures AllValidPositions(RulesB, NearbyB) == ListsB
    ensures Determine(AllValidPositions(RulesB, NearbyB))
      == Success([FieldPosition(2, "seat"), FieldPosition(1, "class"), FieldPosition(0, "row")])
    ensures PartTwo(RulesB, MineB, NearbyB) == Success(1)
  {
    FilterInvalidB();
    CandidatesB();
    SolveB();
    DeparturesB();
  }
}
