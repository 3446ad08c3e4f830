/**
  What one update promises about the words it keeps, stated against the
  per-tag reading of the row in module Feedback.
*/
module NarrowingProperties {
  import opened Wrappers
  import opened Feedback
  import opened Narrowing

  lemma {:induction false} CorrectGroupExact(state: seq<Word>, row: seq<Tile>, w: Word)
    ensures w in CorrectResult(state, row) <==> HasTag(row, Correct) && w in state && MatchesCorrect(w, row)
  {
    var rules := CorrectRules(row, |row|);
    if HasTag(row, Correct) {
      var i :| 0 <= i < |row| && row[i].1 == Correct;
      assert At(i, row[i].0) in rules;
    }
    if rules != [] {
      assert rules[0] in rules;
    }
    if w in state && MatchesCorrect(w, row) {
      forall k | 0 <= k < |rules| ensures Holds(rules[k], w) {
        assert rules[k] in rules;
      }
    }
    if w in CorrectResult(state, row) {
      forall i | 0 <= i < |row| && row[i].1 == Correct ensures i < |w| && w[i] == row[i].0 {
        assert At(i, row[i].0) in rules;
        var k :| 0 <= k < |rules| && rules[k] == At(i, row[i].0);
        assert Holds(rules[k], w);
      }
    }
  }

  lemma {:induction false} PresentGroupExact(state: seq<Word>, row: seq<Tile>, w: Word)
    ensures w in PresentResult(state, row) <==> HasTag(row, Present) && w in state && MatchesPresent(w, row)
  {
    var rules := PresentRules(row, |row|);
    if HasTag(row, Present) {
      var i :| 0 <= i < |row| && row[i].1 == Present;
      assert Has(row[i].0) in rules;
    }
    if rules != [] {
      assert rules[0] in rules;
    }
    if w in state && MatchesPresent(w, row) {
      forall k | 0 <= k < |rules| ensures Holds(rules[k], w) {
        assert rules[k] in rules;
      }
    }
    if w in PresentResult(state, row) {
      forall i | 0 <= i < |row| && row[i].1 == Present ensures row[i].0 in w {
        assert Has(row[i].0) in rules;
        var k :| 0 <= k < |rules| && rules[k] == Has(row[i].0);
        assert Holds(rules[k], w);
      }
    }
  }

  lemma {:induction false} AbsentGroupExact(state: seq<Word>, row: seq<Tile>, w: Word)
    ensures w in AbsentResult(state, row) <==> HasLiveAbsent(row) && w in state && MatchesAbsent(w, row)
  {
    var acc := Accounted(row);
    var rules := AbsentRules(row, acc, |row|);
    if HasLiveAbsent(row) {
      var i :| 0 <= i < |row| && row[i].1 == Absent && !IsAccounted(row, row[i].0);
      assert Lacks(row[i].0) in rules;
    }
    if rules != [] {
      assert rules[0] in rules;
    }
    if w in state && MatchesAbsent(w, row) {
      forall k | 0 <= k < |rules| ensures Holds(rules[k], w) {
        assert rules[k] in rules;
      }
    }
    if w in AbsentResult(state, row) {
      forall i | 0 <= i < |row| && row[i].1 == Absent && !IsAccounted(row, row[i].0) ensures row[i].0 !in w {
        assert Lacks(row[i].0) in rules;
        var k :| 0 <= k < |rules| && rules[k] == Lacks(row[i].0);
        assert Holds(rules[k], w);
      }
    }
  }

  /** The positional comprehension is safe exactly when every correct tile
      indexes inside every word of the state. */
  lemma IndexFaultExact(state: seq<Word>, row: seq<Tile>)
    ensures !IndexFault(state, row) <==>
      forall i, w :: 0 <= i < |row| && row[i].1 == Correct && w in state ==> i < |w|
  {
    if IndexFault(state, row) {
      var i, j :| 0 <= i < |row| && 0 <= j < |state| && row[i].1 == Correct && |state[j]| <= i;
      assert state[j] in state;
    }
  }

  /** The final intersection keeps exactly the words in every non-empty group,
      and raises exactly when all three groups are empty. */
  lemma CombineExact(c: set<Word>, p: set<Word>, a: set<Word>)
    ensures Combine([c, p, a]).Failure? <==> c == {} && p == {} && a == {}
    ensures Combine([c, p, a]).Failure? ==> Combine([c, p, a]).error == NoOperands
    ensures Combine([c, p, a]).Success? ==> forall w :: w in Combine([c, p, a]).value <==>
      (c != {} ==> w in c) && (p != {} ==> w in p) && (a != {} ==> w in a)
  {
    var groups := [c, p, a];
    var ops := Operands(groups);
    if c != {} { assert c in groups; }
    if p != {} { assert p in groups; }
    if a != {} { assert a in groups; }
    if ops != [] {
      assert ops[0] in ops;
      forall w ensures w in IntersectAll(ops) <==> (c != {} ==> w in c) && (p != {} ==> w in p) && (a != {} ==> w in a) {
        if (c != {} ==> w in c) && (p != {} ==> w in p) && (a != {} ==> w in a) {
          forall k | 0 <= k < |ops| ensures w in ops[k] {
            assert ops[k] in ops;
          }
        }
        if w in IntersectAll(ops) {
          if c != {} { assert c in ops; }
          if p != {} { assert p in ops; }
          if a != {} { assert a in ops; }
        }
      }
    }
  }

  /** The exact outcome of an update: it raises on a short word or when all
      three groups are empty, and otherwise keeps exactly the old words that
      satisfy the tiles of every group whose result was non-empty. */
  lemma ReduceExact(state: seq<Word>, row: seq<Tile>)
    ensures Reduce(state, row) == Failure(IndexOutOfRange) <==> IndexFault(state, row)
    ensures Reduce(state, row) == Failure(NoOperands) <==>
      !IndexFault(state, row) && CorrectResult(state, row) == {} && PresentResult(state, row) == {} && AbsentResult(state, row) == {}
    ensures Reduce(state, row).Success? ==> forall w :: w in Reduce(state, row).value <==>
      && w in state
      && (CorrectResult(state, row) != {} ==> MatchesCorrect(w, row))
      && (PresentResult(state, row) != {} ==> MatchesPresent(w, row))
      && (AbsentResult(state, row) != {} ==> MatchesAbsent(w, row))
  {
    var c, p, a := CorrectResult(state, row), PresentResult(state, row), AbsentResult(state, row);
    CombineExact(c, p, a);
    if Reduce(state, row).Success? {
      forall w ensures w in Reduce(state, row).value <==>
        && w in state
        && (c != {} ==> MatchesCorrect(w, row))
        && (p != {} ==> MatchesPresent(w, row))
        && (a != {} ==> MatchesAbsent(w, row))
      {
        CorrectGroupExact(state, row, w);
        PresentGroupExact(state, row, w);
        AbsentGroupExact(state, row, w);
        if c != {} {
          var x :| x in c;
          CorrectGroupExact(state, row, x);
        }
        if p != {} {
          var x :| x in p;
          PresentGroupExact(state, row, x);
        }
        if a != {} {
          var x :| x in a;
          AbsentGroupExact(state, row, x);
        }
      }
    }
  }

  /** The new word state is drawn from the old one, so it never grows. */
  lemma ReduceShrinks(state: seq<Word>, row: seq<Tile>)
    requires Reduce(state, row).Success?
    ensures Reduce(state, row).value <= ElemSet(state)
    ensures |Reduce(state, row).value| <= |ElemSet(state)|
  {
    ReduceExact(state, row);
    var s := Reduce(state, row).value;
    assert s <= ElemSet(state);
    SubsetCard(s, ElemSet(state));
  }

  lemma SubsetCard(a: set<Word>, b: set<Word>)
    requires a <= b
    ensures |a| <= |b|
  {
    assert b == a + (b - a);
  }

  /** A surviving word carries the letter of every correct tile at its
      position, provided the correct group did not come out empty. */
  lemma CorrectTileRespected(state: seq<Word>, row: seq<Tile>, i: nat, w: Word)
    requires Reduce(state, row).Success? && w in Reduce(state, row).value
    requires i < |row| && row[i].1 == Correct
    requires CorrectResult(state, row) != {}
    ensures i < |w| && w[i] == row[i].0
  {
    ReduceExact(state, row);
  }

  /** A surviving word contains the letter of every present tile, provided the
      present group did not come out empty. */
  lemma PresentTileRespected(state: seq<Word>, row: seq<Tile>, i: nat, w: Word)
    requires Reduce(state, row).Success? && w in Reduce(state, row).value
    requires i < |row| && row[i].1 == Present
    requires PresentResult(state, row) != {}
    ensures row[i].0 in w
  {
    ReduceExact(state, row);
  }

  /** An absent tile removes every word containing its letter when no tile of
      the row tags that letter correct or present and the absent group did not
      come out empty. */
  lemma AbsentTileRespected(state: seq<Word>, row: seq<Tile>, i: nat, w: Word)
    requires Reduce(state, row).Success? && w in Reduce(state, row).value
    requires i < |row| && row[i].1 == Absent && !IsAccounted(row, row[i].0)
    requires AbsentResult(state, row) != {}
    ensures row[i].0 !in w
  {
    ReduceExact(state, row);
  }

  /** An absent tile whose letter the row accounts for (a repeated letter)
      imposes nothing: when every absent tile is such a repeat, the absent
      group is empty and restricts nothing. */
  lemma AccountedAbsentIgnored(state: seq<Word>, row: seq<Tile>)
    requires forall i :: 0 <= i < |row| && row[i].1 == Absent ==> IsAccounted(row, row[i].0)
    ensures AbsentResult(state, row) == {}
  {
    forall w ensures w !in AbsentResult(state, row) {
      AbsentGroupExact(state, row, w);
    }
  }

  /** Removing a tile from the row, as the row without it. */
  function Without(row: seq<Tile>, i: nat): (r: seq<Tile>)
    requires i < |row|
    ensures |r| == |row| - 1
    ensures forall j :: 0 <= j < i ==> r[j] == row[j]
    ensures forall j :: i <= j < |r| ==> r[j] == row[j + 1]
  {
    row[..i] + row[i + 1..]
  }

  /** Removing an absent tile changes neither the accounted letters nor the
      live absent letters. */
  lemma WithoutAbsentSameReading(row: seq<Tile>, i: nat)
    requires i < |row| && row[i].1 == Absent && IsAccounted(row, row[i].0)
    ensures forall c :: IsAccounted(Without(row, i), c) <==> IsAccounted(row, c)
    ensures HasLiveAbsent(Without(row, i)) <==> HasLiveAbsent(row)
  {
    var row' := Without(row, i);
    forall c ensures IsAccounted(row', c) <==> IsAccounted(row, c) {
      if IsAccounted(row, c) {
        var j0 :| 0 <= j0 < |row| && row[j0].1 != Absent && row[j0].0 == c;
        var j := if j0 < i then j0 else j0 - 1;
        assert row'[j] == row[j0];
      }
      if IsAccounted(row', c) {
        var j :| 0 <= j < |row'| && row'[j].1 != Absent && row'[j].0 == c;
        var j0 := if j < i then j else j + 1;
        assert row'[j] == row[j0];
      }
    }
    if HasLiveAbsent(row) {
      var j0 :| 0 <= j0 < |row| && row[j0].1 == Absent && !IsAccounted(row, row[j0].0);
      assert j0 != i;
      var j := if j0 < i then j0 else j0 - 1;
      assert row'[j] == row[j0];
    }
    if HasLiveAbsent(row') {
      var j :| 0 <= j < |row'| && row'[j].1 == Absent && !IsAccounted(row', row'[j].0);
      var j0 := if j < i then j else j + 1;
      assert row'[j] == row[j0];
    }
  }

  lemma WithoutAbsentSameMatch(row: seq<Tile>, i: nat, w: Word)
    requires i < |row| && row[i].1 == Absent && IsAccounted(row, row[i].0)
    ensures MatchesAbsent(w, Without(row, i)) <==> MatchesAbsent(w, row)
  {
    var row' := Without(row, i);
    WithoutAbsentSameReading(row, i);
    if MatchesAbsent(w, row) {
      forall j | 0 <= j < |row'| && row'[j].1 == Absent && !IsAccounted(row', row'[j].0) ensures row'[j].0 !in w {
        var j0 := if j < i then j else j + 1;
        assert row'[j] == row[j0];
      }
    }
    if MatchesAbsent(w, row') {
      forall j0 | 0 <= j0 < |row| && row[j0].1 == Absent && !IsAccounted(row, row[j0].0) ensures row[j0].0 !in w {
        assert j0 != i;
        var j := if j0 < i then j0 else j0 - 1;
        assert row'[j] == row[j0];
      }
    }
  }

  /** An absent tile whose letter the row tags correct or present elsewhere
      imposes nothing: the absent group is the same with the tile removed. */
  lemma AccountedAbsentTileIgnored(state: seq<Word>, row: seq<Tile>, i: nat)
    requires i < |row| && row[i].1 == Absent && IsAccounted(row, row[i].0)
    ensures AbsentResult(state, row) == AbsentResult(state, Without(row, i))
  {
    WithoutAbsentSameReading(row, i);
    forall w ensures w in AbsentResult(state, row) <==> w in AbsentResult(state, Without(row, i)) {
      AbsentGroupExact(state, row, w);
      AbsentGroupExact(state, Without(row, i), w);
      WithoutAbsentSameMatch(row, i, w);
    }
  }

  /** When all three groups are non-empty the update keeps exactly the old
      words that satisfy every tile of the row. */
  lemma AllGroupsLive(state: seq<Word>, row: seq<Tile>)
    requires !IndexFault(state, row)
    requires CorrectResult(state, row) != {} && PresentResult(state, row) != {} && AbsentResult(state, row) != {}
    ensures Reduce(state, row).Success?
    ensures Reduce(state, row).value ==
      set w | w in state && MatchesCorrect(w, row) && MatchesPresent(w, row) && MatchesAbsent(w, row)
  {
    ReduceExact(state, row);
  }

  /** A row without tiles of some tag leaves that group empty, so the tag adds
      no restriction. */
  lemma MissingTagNoGroup(state: seq<Word>, row: seq<Tile>)
    ensures !HasTag(row, Correct) ==> CorrectResult(state, row) == {}
    ensures !HasTag(row, Present) ==> PresentResult(state, row) == {}
    ensures !HasLiveAbsent(row) ==> AbsentResult(state, row) == {}
  {
    forall w ensures (!HasTag(row, Correct) ==> w !in CorrectResult(state, row))
      && (!HasTag(row, Present) ==> w !in PresentResult(state, row))
      && (!HasLiveAbsent(row) ==> w !in AbsentResult(state, row))
    {
      CorrectGroupExact(state, row, w);
      PresentGroupExact(state, row, w);
      AbsentGroupExact(state, row, w);
    }
  }

  /** Once the word state is empty every further update raises: all three
      groups are empty, so the final intersection has no operands. This is
      why re-applying a row is only stable on a non-empty result. */
  lemma EmptyStateRaises(state: seq<Word>, row: seq<Tile>)
    requires ElemSet(state) == {}
    ensures Reduce(state, row) == Failure(NoOperands)
  {
    assert forall w :: w !in state by {
      forall w ensures w !in state {
        assert w in state <==> w in ElemSet(state);
      }
    }
    IndexFaultExact(state, row);
    assert CorrectResult(state, row) == {} && PresentResult(state, row) == {} && AbsentResult(state, row) == {};
  }

  /** Feeding the same row again to the state it produced changes nothing,
      as long as that state is not empty. */
  lemma ReduceIdempotent(state: seq<Word>, row: seq<Tile>, next: seq<Word>)
    requires Reduce(state, row).Success?
    requires ElemSet(next) == Reduce(state, row).value != {}
    ensures Reduce(next, row) == Reduce(state, row)
  {
    var s := Reduce(state, row).value;
    ReduceExact(state, row);
    ReduceExact(next, row);
    assert !IndexFault(next, row) by {
      forall i, j | 0 <= i < |row| && 0 <= j < |next| && row[i].1 == Correct ensures |next[j]| > i {
        assert next[j] in ElemSet(next);
      }
    }
    var c, p, a := CorrectResult(state, row), PresentResult(state, row), AbsentResult(state, row);
    var c', p', a' := CorrectResult(next, row), PresentResult(next, row), AbsentResult(next, row);
    var x :| x in s;
    forall w ensures (w in c' <==> c != {} && w in s) && (w in p' <==> p != {} && w in s) && (w in a' <==> a != {} && w in s) {
      CorrectGroupExact(state, row, w);
      PresentGroupExact(state, row, w);
      AbsentGroupExact(state, row, w);
      CorrectGroupExact(next, row, w);
      PresentGroupExact(next, row, w);
      AbsentGroupExact(next, row, w);
      CorrectGroupExact(state, row, x);
      PresentGroupExact(state, row, x);
      AbsentGroupExact(state, row, x);
      if c != {} { var y :| y in c; CorrectGroupExact(state, row, y); }
      if p != {} { var y :| y in p; PresentGroupExact(state, row, y); }
      if a != {} { var y :| y in a; AbsentGroupExact(state, row, y); }
      assert w in s ==> w in state;
      assert w in next <==> w in s by { assert w in next <==> w in ElemSet(next); }
    }
    assert c' != {} || p' != {} || a' != {} by {
      assert c != {} || p != {} || a != {};
      assert x in c' || x in p' || x in a';
    }
    assert Reduce(next, row).Success?;
    assert Reduce(next, row).value == s;
  }
}
