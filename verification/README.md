# Ticket-field assignment, modelled in Dafny

A Dafny model of the core of `adv2020_16`, a solver for a ticket-translation
puzzle. Each rule has a name and two inclusive integer ranges. Each ticket
("passport" in the source) is a sequence of integers, one per field position.
The program does two things:

1. It finds the nearby-ticket values that no rule accepts and sums them.
2. It drops the tickets that hold such a value. Then, for each rule, it lists
   the positions at which every remaining ticket satisfies that rule. An
   elimination solver then gives each rule one position. The second answer is
   the product of the personal ticket's values at the positions of the rules
   whose name starts with `departure`.

The model takes rules and tickets already parsed. Modules follow the source's
structure:

- `Rules`: `Range`, `Rule`, `Valid` (`Rule::valid`).
- `Validity`: `InvalidFields`, `AllInvalidFields`, `FilterInvalid`.
- `Positions`: `IsValidInPosition`, `PositionsFrom`, `AllValidPositions`.
- `Solver`: the length sort, the `taken`-set fold `Assign`, `Determine`, and
  `DetermineFieldPositions`. That method is the source's loop, with its inner
  `break`, and it is proved equal to the fold.
- `Driver`: the two answers, `Run` (which plays the part of `main`), and the
  end-to-end theorems.
- `Seqs`, `Wrappers`: generic `Filter`/`Flatten`/`Sum`/`Product`, and
  `Option`/`Result`.
- `Scenarios`: the two inputs used by the source's tests.

The source's panics become `Result` failures:
- `determine_field_positions`'s "too big!" becomes `SolveError.TooBig`.
- `first().unwrap()` on an empty personal-ticket section becomes
  `Error.MissingPersonalTicket`.

Three details of the code are kept as written:
- `find_invalid_fields` returns an ordered list that keeps duplicates, not a set.
- The solver checks each sorted list's total length (`i + 1`). It does not count
  the untaken entries.
- A list whose positions are all taken adds no entry and does not abort. The
  model keeps this. `AlwaysUntaken` shows it cannot happen when each list's
  positions are distinct.

## Model

| member | source | states |
|---|---|---|
| Rules.EmptyFirstRange | src/main.rs:47-49 | a range with `lo > hi` contains nothing, so the rule then accepts exactly what its second range contains |
| Seqs.FilterSpec | src/main.rs:96-99 | `filter` keeps an order-preserving subsequence: every occurrence of each element satisfying the predicate, and nothing else |
| Seqs.FlattenDropEmpty | src/main.rs:107-108 | dropping the empty lists before `flatten` does not change the flattened result |
| Seqs.SumConcat | src/main.rs:16 | the sum of a concatenation is the sum of the sums of its parts |
| Seqs.ProductConcat | src/main.rs:22-26 | the product of a concatenation is the product of the products of its parts |
| Validity.InvalidFieldsSpec | src/main.rs:95-101 | the result is a subsequence of the passport holding every occurrence of each value that no rule accepts and nothing else; it is empty iff every value is accepted by some rule |
| Validity.AllInvalidFieldsMembers | src/main.rs:103-110 | a value is reported iff some passport holds it and no rule accepts it |
| Validity.AllInvalidFieldsConcat | src/main.rs:103-110 | the result is the concatenation, in passport order, of each passport's invalid values; the empty-list filter changes nothing |
| Validity.InvalidSumByPassport | src/main.rs:13-16 | the first answer is the sum of the first passport's invalid values plus the first answer for the rest |
| Validity.FilterInvalidSpec | src/main.rs:112-117 | the result is a subsequence of the input, so it is no longer than the input; each passport is kept, with its full multiplicity, iff all its values are valid; every dropped passport has an invalid value |
| Positions.PositionsFromSpec | src/main.rs:128-133 | positions strictly increase, lie in `from..n`, carry the rule's name, and position `p` is listed iff every passport's value at `p` satisfies the rule |
| Positions.AllValidPositionsSpec | src/main.rs:119-137 | one list per rule in rule order; list `k` holds `(p, name_k)` for exactly the `p` below the rule count at which every passport satisfies rule `k`, in increasing order |
| Positions.CandidatesAntitone | src/main.rs:119-123 | using any sub-collection of the passports keeps every candidate pair, because the test is a universal `all` |
| Positions.FilteringOnlyAddsCandidates | src/main.rs:19-20 | computing candidates over the filtered tickets keeps every candidate that the unfiltered tickets give |
| Solver.Insert | src/main.rs:142 | inserting into a length-sorted sequence keeps it sorted and adds exactly the one list |
| Solver.SortByLength | src/main.rs:142 | the result is a permutation of the lists with non-decreasing lengths |
| Solver.FirstUntakenFrom | src/main.rs:147-153 | returns the first index at or after `from` whose position is untaken, or none when every one is taken |
| Solver.FirstUntaken | src/main.rs:147-153 | returns the first index whose position is not in `taken`, or none when every position is taken |
| Solver.Assign | src/main.rs:143-155 | on success, no more entries than lists, each taken from one of the lists, at pairwise-distinct positions none of which was already in `taken` |
| Solver.Determine | src/main.rs:139-156 | on success, no more entries than input lists, each taken from an input list, and no two entries share a position |
| Solver.AssignSucceedsIff | src/main.rs:143-146 | the loop completes iff the `k`-th remaining list has exactly `i + k + 1` entries |
| Solver.DetermineSucceedsIff | src/main.rs:142-146 | the solver does not abort iff the `k`-th list in length order has exactly `k + 1` entries |
| Solver.AlwaysUntaken | src/main.rs:147-152 | a list with more distinct positions than `taken` holds always has an untaken position |
| Solver.AssignPicksOnePerList | src/main.rs:143-155 | with distinct positions per list and at most `i` positions taken, success gives exactly one entry per list, taken from its own list, none already taken, all positions distinct |
| Solver.SortedArrangementUnique | src/main.rs:142 | two length-sorted arrangements of the same lists are equal when one has strictly increasing lengths |
| Solver.TieBreakIrrelevant | src/main.rs:142-146 | every length-sorted rearrangement gives the same solver outcome, so the unstable sort's tie-breaking never matters |
| Solver.DetermineSound | src/main.rs:139-156 | with distinct positions per list, success yields one entry per list in sorted order; entry `k` comes from the `k`-th sorted list, which has `k + 1` entries; no two entries share a position |
| Solver.DetermineFieldPositions | src/main.rs:139-156 | the source's nested loop, with `break`, `taken` and the abort, computes exactly the fold's result |
| Solver.FirstUntakenIndex | src/main.rs:147-153 | the inner loop stops at the first untaken entry, or runs off the end when every position is taken |
| Driver.DepartureValues | src/main.rs:22-25 | one value per assigned entry whose name starts with `departure`, in assignment order: the `k`-th value is the personal ticket's value at the `k`-th such entry's position; a value occurs iff some such entry has it |
| Driver.DepartureValuesProduct | src/main.rs:22-26 | the product of those values equals the entry-by-entry product in which a departure entry contributes the personal ticket's value at its position and every other entry contributes 1 |
| Driver.PartTwo | src/main.rs:19-26 | the second answer fails exactly when the solver aborts on the candidates of the filtered tickets; otherwise every assigned position is below the rule count and the answer is the entry-by-entry departure product over the solver's assignment |
| Driver.Run | src/main.rs:7-29 | fails exactly when the personal-ticket section is empty; otherwise reports the invalid-value sum, and a second answer that fails exactly when the solver aborts and otherwise is the departure product of the first personal ticket over the solver's assignment |
| Driver.CandidatesDistinct | src/main.rs:125-137 | every candidate list has pairwise-distinct positions |
| Driver.DistinctBelowCovers | src/main.rs:143-155 | `n` distinct positions below `n` cover every position below `n` |
| Driver.SolutionPositions | src/main.rs:19-21 | on success there is one entry per rule, at pairwise-distinct positions below the rule count |
| Driver.SolutionIsBijection | src/main.rs:19-21 | on success there are as many assignments as rules, and every position below the rule count is used exactly once |
| Driver.SolutionRespectsRules | src/main.rs:19-21 | on success every rule is assigned a position, under its own name, at which every ticket's value satisfies it |
| Scenarios.ScenarioA | src/main.rs:193-202 | the first test input's invalid values are `[4, 55, 12]`, summing to 71 |
| Scenarios.ScenarioB | src/main.rs:204-245 | on the second test input: all tickets are kept; the candidates are `[(1,class),(2,class)]`, `[(0,row),(1,row),(2,row)]`, `[(2,seat)]`; the solver yields `[(2,seat),(1,class),(0,row)]`; the second answer is 1 |

## Left out

- `read_rules` and `read_passports` (src/main.rs:57-93) are not modelled. They rely on the `regex` crate's matching semantics and on shared line-iterator state. The model takes parsed rules and tickets instead.
- `include_str!` input loading and the `println!` output in `main` are I/O. `Run` returns both answers as a value instead.
- The `lazy_static` regex globals are library plumbing for the parser, which is left out.
- The source sums and multiplies in `i64`, which can overflow. The model uses unbounded `int`.
- `HashSet` is modelled as `set<nat>`; its hashing internals are not modelled.
- `sort_unstable_by` is modelled by one particular insertion sort by length. `TieBreakIrrelevant` shows that any other length-sorted arrangement gives the same outcome.
- Out-of-range indexing panics are preconditions, not error results. This covers `passport[position]` in `is_valid_in_position` and `my_passport[*field]` in `main`. `Covers` requires every ticket handed to the candidate computation to have at least one value per rule. The source's `all` stops at the first failing ticket, so it would not index the later ones. In that respect the precondition is slightly stronger than what the source needs.
- Driver.SolutionRespectsRules: it states that each rule is assigned some position under its name. It does not state that rule names are used exactly once. With distinct rule names and the entry count equal to the rule count, this is the same thing.
