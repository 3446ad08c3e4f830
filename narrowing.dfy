/**
  The per-round narrowing of the word state: each tile's comprehension over
  the state, the collapse of each group of comprehensions by set
  intersection, and the final intersection of the groups that came out
  non-empty.
*/
module Narrowing {
  import opened Wrappers
  import opened Feedback

  /** Why an update raises instead of replacing the word state. */
  datatype UpdateError =
    | IndexOutOfRange   // a correct tile's position is past the end of some word
    | NoOperands        // every group came out empty: an intersection of nothing

  function ElemSet<T>(xs: seq<T>): set<T>
  {
    set x | x in xs
  }

  predicate Distinct<T(==)>(xs: seq<T>)
  {
    forall i, j :: 0 <= i < j < |xs| ==> xs[i] != xs[j]
  }

  /** The comprehension `[word for word in state if <r holds of word>]`. */
  function Select(state: seq<Word>, r: Rule): (sel: seq<Word>)
    ensures |sel| <= |state|
    ensures forall w :: w in sel <==> w in state && Holds(r, w)
  {
    if state == [] then []
    else
      var n := |state| - 1;
      assert state == state[..n] + [state[n]];
      Select(state[..n], r) + (if Holds(r, state[n]) then [state[n]] else [])
  }

  /** The sub-lists one group accumulates, one per rule. */
  function Apply(state: seq<Word>, rules: seq<Rule>): (lists: seq<seq<Word>>)
    ensures |lists| == |rules|
    ensures forall k, w :: 0 <= k < |rules| ==> (w in lists[k] <==> w in state && Holds(rules[k], w))
  {
    seq(|rules|, k requires 0 <= k < |rules| => Select(state, rules[k]))
  }

  /** `set.intersection` over one or more sets. */
  function IntersectAll(sets: seq<set<Word>>): (r: set<Word>)
    requires |sets| > 0
    ensures forall x :: x in r <==> forall k :: 0 <= k < |sets| ==> x in sets[k]
  {
    if |sets| == 1 then sets[0]
    else IntersectAll(sets[..|sets| - 1]) * sets[|sets| - 1]
  }

  /** A group after the collapsing loop: the intersection of its sub-lists
      when it has any, and still the empty list otherwise. */
  function Collapse(lists: seq<seq<Word>>): (r: set<Word>)
    ensures lists == [] ==> r == {}
    ensures lists != [] ==> forall w :: w in r <==> forall k :: 0 <= k < |lists| ==> w in lists[k]
  {
    if lists == [] then {}
    else
      var sets := seq(|lists|, k requires 0 <= k < |lists| => ElemSet(lists[k]));
      assert forall k, w :: 0 <= k < |lists| ==> (w in sets[k] <==> w in lists[k]);
      IntersectAll(sets)
  }

  /** The collapsed result of one group of rules over the state. */
  function GroupResult(state: seq<Word>, rules: seq<Rule>): (g: set<Word>)
    ensures forall w :: w in g <==>
      rules != [] && w in state && forall k :: 0 <= k < |rules| ==> Holds(rules[k], w)
  {
    var lists := Apply(state, rules);
    assert forall k :: 0 <= k < |rules| ==> lists[k] == Select(state, rules[k]);
    Collapse(lists)
  }

  function CorrectResult(state: seq<Word>, row: seq<Tile>): set<Word>
  {
    GroupResult(state, CorrectRules(row, |row|))
  }

  function PresentResult(state: seq<Word>, row: seq<Tile>): set<Word>
  {
    GroupResult(state, PresentRules(row, |row|))
  }

  function AbsentResult(state: seq<Word>, row: seq<Tile>): set<Word>
  {
    GroupResult(state, AbsentRules(row, Accounted(row), |row|))
  }

  /** The comprehension keeping only the non-empty groups. */
  function Operands(groups: seq<set<Word>>): (ops: seq<set<Word>>)
    ensures |ops| <= |groups|
    ensures forall s :: s in ops <==> s in groups && s != {}
  {
    if groups == [] then []
    else
      var n := |groups| - 1;
      assert groups == groups[..n] + [groups[n]];
      Operands(groups[..n]) + (if groups[n] != {} then [groups[n]] else [])
  }

  /** The final intersection of the non-empty groups; with none left the
      intersection has no operands and raises. */
  function Combine(groups: seq<set<Word>>): (r: Result<set<Word>, UpdateError>)
    ensures r.Failure? <==> forall g :: g in groups ==> g == {}
    ensures r.Failure? ==> r.error == NoOperands
    ensures r.Success? ==> forall w :: w in r.value <==> forall g :: g in groups && g != {} ==> w in g
  {
    var ops := Operands(groups);
    OperandsIntersection(groups);
    if ops == [] then Failure(NoOperands) else Success(IntersectAll(ops))
  }

  lemma OperandsIntersection(groups: seq<set<Word>>)
    ensures Operands(groups) == [] <==> forall g :: g in groups ==> g == {}
    ensures Operands(groups) != [] ==> forall w ::
      w in IntersectAll(Operands(groups)) <==> forall g :: g in groups && g != {} ==> w in g
  {
    var ops := Operands(groups);
    if ops != [] {
      assert ops[0] in ops;
      forall w ensures w in IntersectAll(ops) <==> forall g :: g in groups && g != {} ==> w in g {
        if forall g :: g in groups && g != {} ==> w in g {
          forall k | 0 <= k < |ops| ensures w in ops[k] {
            assert ops[k] in ops;
          }
        }
        if w in IntersectAll(ops) {
          forall g | g in groups && g != {} ensures w in g {
            assert g in ops;
            var k :| 0 <= k < |ops| && ops[k] == g;
          }
        }
      }
    }
  }

  /** Some correct tile indexes past the end of some word of the state, so
      the positional comprehension raises. */
  predicate IndexFault(state: seq<Word>, row: seq<Tile>): (fault: bool)
    ensures fault ==> HasTag(row, Correct) && state != []
  {
    exists i, j :: 0 <= i < |row| && 0 <= j < |state| && row[i].1 == Correct && |state[j]| <= i
  }

  /** The set of words one update leaves, or the exception it raises. */
  function Reduce(state: seq<Word>, row: seq<Tile>): (r: Result<set<Word>, UpdateError>)
    ensures r == Failure(IndexOutOfRange) <==> IndexFault(state, row)
    ensures r.Failure? ==> r.error in {IndexOutOfRange, NoOperands}
  {
    if IndexFault(state, row) then Failure(IndexOutOfRange)
    else Combine([CorrectResult(state, row), PresentResult(state, row), AbsentResult(state, row)])
  }
}
