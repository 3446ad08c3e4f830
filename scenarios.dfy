/**
  Concrete rounds: a five-word example game, and the places where the
  update departs from "keep the words consistent with the row".
*/
module Scenarios {
  import opened Wrappers
  import opened Feedback
  import opened Narrowing
  import opened NarrowingProperties

  predicate IsFirstRound(state: seq<Word>, row: seq<Tile>)
  {
    && state == ["train", "brain", "chair", "tiger", "grain"]
    && row == [('t', Absent), ('r', Present), ('a', Present), ('i', Correct), ('n', Correct)]
  }

  lemma FirstRoundTiles(state: seq<Word>, row: seq<Tile>)
    requires IsFirstRound(state, row)
    ensures !IndexFault(state, row)
    ensures MatchesCorrect("brain", row) && MatchesPresent("brain", row) && MatchesAbsent("brain", row)
    ensures (set w | w in state && MatchesCorrect(w, row) && MatchesPresent(w, row) && MatchesAbsent(w, row)) == {"brain", "grain"}
  {
    assert forall j :: 0 <= j < |state| ==> |state[j]| == 5;
    assert row[1].1 != Absent && row[2].1 != Absent && row[3].1 != Absent && row[4].1 != Absent;
    assert !IsAccounted(row, 't');
    assert MatchesCorrect("brain", row) && MatchesPresent("brain", row) && MatchesAbsent("brain", row);
    assert MatchesCorrect("grain", row) && MatchesPresent("grain", row) && MatchesAbsent("grain", row);
    assert !MatchesCorrect("chair", row) by { assert row[4].1 == Correct; }
    assert !MatchesCorrect("tiger", row) by { assert row[3].1 == Correct; }
    assert !MatchesAbsent("train", row) by { assert row[0].1 == Absent && 't' in "train"; }
  }

  /** Guess "train" against the five-word dictionary, with t absent, r and a
      present, i and n correct, leaves exactly "brain" and "grain". */
  lemma FirstRound(state: seq<Word>, row: seq<Tile>)
    requires IsFirstRound(state, row)
    ensures Reduce(state, row) == Success({"brain", "grain"})
  {
    FirstRoundTiles(state, row);
    assert HasTag(row, Correct) by { assert row[3].1 == Correct; }
    assert HasTag(row, Present) by { assert row[1].1 == Present; }
    assert HasLiveAbsent(row) by { assert row[0].1 == Absent && !IsAccounted(row, 't'); }
    assert "brain" in state;
    CorrectGroupExact(state, row, "brain");
    PresentGroupExact(state, row, "brain");
    AbsentGroupExact(state, row, "brain");
    AllGroupsLive(state, row);
  }

  lemma SecondRoundTiles(next: seq<Word>, row: seq<Tile>)
    requires ElemSet(next) == {"brain", "grain"}
    requires row == [('g', Correct), ('r', Correct), ('a', Correct), ('i', Correct), ('n', Correct)]
    ensures !IndexFault(next, row)
    ensures "grain" in next && MatchesCorrect("grain", row)
    ensures forall w :: w in next && MatchesCorrect(w, row) <==> w == "grain"
    ensures !HasTag(row, Present) && !HasLiveAbsent(row)
  {
    assert forall w :: w in next <==> w == "brain" || w == "grain" by {
      forall w ensures w in next <==> w == "brain" || w == "grain" { assert w in next <==> w in ElemSet(next); }
    }
    assert forall j :: 0 <= j < |next| ==> |next[j]| == 5 by {
      forall j | 0 <= j < |next| ensures |next[j]| == 5 { assert next[j] in next; }
    }
    assert !MatchesCorrect("brain", row) by { assert row[0].1 == Correct; }
  }

  /** Guessing "grain" with every tile correct against what the first round
      left solves the game. */
  lemma SecondRound(next: seq<Word>, row: seq<Tile>)
    requires ElemSet(next) == {"brain", "grain"}
    requires row == [('g', Correct), ('r', Correct), ('a', Correct), ('i', Correct), ('n', Correct)]
    ensures Reduce(next, row) == Success({"grain"})
  {
    SecondRoundTiles(next, row);
    MissingTagNoGroup(next, row);
    assert CorrectResult(next, row) != {} by {
      CorrectGroupExact(next, row, "grain");
      assert HasTag(row, Correct) by { assert row[0].1 == Correct; }
    }
    ReduceExact(next, row);
    PinOne(Reduce(next, row).value, "grain");
  }

  lemma PinOne(s: set<Word>, a: Word)
    requires forall w :: w in s <==> w == a
    ensures s == {a}
  {
  }

  lemma PinTwo(s: set<Word>, a: Word, b: Word)
    requires forall w :: w in s <==> w == a || w == b
    ensures s == {a, b}
  {
  }

  predicate IsDroppedGroupRound(state: seq<Word>, row: seq<Tile>)
  {
    && state == ["abx", "cdx"]
    && row == [('a', Correct), ('d', Correct), ('x', Present)]
  }

  lemma DroppedGroupTiles(state: seq<Word>, row: seq<Tile>)
    requires IsDroppedGroupRound(state, row)
    ensures !IndexFault(state, row)
    ensures forall w :: w in state <==> w == "abx" || w == "cdx"
    ensures forall w :: w in state ==> MatchesPresent(w, row)
    ensures !MatchesCorrect("cdx", row)
  {
    assert forall j :: 0 <= j < |state| ==> |state[j]| == 3;
    assert row[0].1 == Correct && row[2].1 == Present;
  }

  lemma DroppedCorrectGroup(state: seq<Word>, row: seq<Tile>)
    requires IsDroppedGroupRound(state, row)
    ensures CorrectResult(state, row) == {}
  {
    assert row[0].1 == Correct && row[1].1 == Correct;
    forall w ensures w !in CorrectResult(state, row) {
      CorrectGroupExact(state, row, w);
    }
  }

  lemma DroppedOtherGroups(state: seq<Word>, row: seq<Tile>)
    requires IsDroppedGroupRound(state, row)
    ensures PresentResult(state, row) != {}
    ensures AbsentResult(state, row) == {}
  {
    assert row[2].1 == Present;
    assert MatchesPresent("abx", row);
    PresentGroupExact(state, row, "abx");
    MissingTagNoGroup(state, row);
  }

  /** A group that had tiles but came out empty is dropped: "cdx" survives
      although the row puts 'a' correct at position 0. */
  lemma EmptyGroupDropped(state: seq<Word>, row: seq<Tile>)
    requires IsDroppedGroupRound(state, row)
    ensures Reduce(state, row) == Success({"abx", "cdx"})
    ensures !MatchesCorrect("cdx", row)
  {
    DroppedGroupTiles(state, row);
    DroppedCorrectGroup(state, row);
    DroppedOtherGroups(state, row);
    ReduceExact(state, row);
    PinTwo(Reduce(state, row).value, "abx", "cdx");
  }

  predicate IsTwoCorrectRound(state: seq<Word>, row: seq<Tile>)
  {
    && state == ["ab", "cd"]
    && row == [('a', Correct), ('d', Correct)]
  }

  lemma TwoCorrectResults(state: seq<Word>, row: seq<Tile>)
    requires IsTwoCorrectRound(state, row)
    ensures !IndexFault(state, row)
    ensures CorrectResult(state, row) == {} && PresentResult(state, row) == {} && AbsentResult(state, row) == {}
  {
    assert forall j :: 0 <= j < |state| ==> |state[j]| == 2;
    assert row[0].1 == Correct && row[1].1 == Correct;
    forall w ensures w !in CorrectResult(state, row) {
      CorrectGroupExact(state, row, w);
    }
    MissingTagNoGroup(state, row);
  }

  /** When every group comes out empty the update raises instead of
      reporting an empty state. */
  lemma AllGroupsEmptyRaises(state: seq<Word>, row: seq<Tile>)
    requires IsTwoCorrectRound(state, row)
    ensures Reduce(state, row) == Failure(NoOperands)
  {
    TwoCorrectResults(state, row);
    ReduceExact(state, row);
  }

  predicate IsDisjointRound(state: seq<Word>, row: seq<Tile>)
  {
    && state == ["ab", "cd"]
    && row == [('a', Correct), ('d', Present)]
  }

  lemma DisjointTiles(state: seq<Word>, row: seq<Tile>)
    requires IsDisjointRound(state, row)
    ensures !IndexFault(state, row)
    ensures forall w :: w in state ==> !(MatchesCorrect(w, row) && MatchesPresent(w, row))
    ensures CorrectResult(state, row) != {}
  {
    assert forall j :: 0 <= j < |state| ==> |state[j]| == 2;
    assert row[0].1 == Correct && row[1].1 == Present;
    CorrectGroupExact(state, row, "ab");
  }

  /** Two non-empty groups with nothing in common leave an empty state, which
      the update accepts without raising. */
  lemma DisjointGroupsEmptyState(state: seq<Word>, row: seq<Tile>)
    requires IsDisjointRound(state, row)
    ensures Reduce(state, row) == Success({})
  {
    DisjointTiles(state, row);
    ReduceExact(state, row);
    var s := Reduce(state, row).value;
    PresentGroupExact(state, row, "cd");
    assert s == {} by {
      forall w ensures w !in s {
        PresentGroupExact(state, row, w);
      }
    }
  }

  /** The empty state the disjoint round leaves makes the same row raise
      when it is applied again. */
  lemma DisjointRoundRepeatRaises(state: seq<Word>, row: seq<Tile>, next: seq<Word>)
    requires IsDisjointRound(state, row)
    requires Reduce(state, row).Success? && ElemSet(next) == Reduce(state, row).value
    ensures Reduce(next, row) == Failure(NoOperands)
  {
    DisjointGroupsEmptyState(state, row);
    EmptyStateRaises(next, row);
  }
}
