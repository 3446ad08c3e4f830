/**
  The bot's mutable state: the list of candidate words and the score
  dictionary kept in step with it, with the update that narrows both from
  one row of feedback and the two ways of choosing the next guess.
*/
module Bot {
  import opened Wrappers
  import opened Feedback
  import opened Narrowing
  import opened ScoreTable
  import NarrowingProperties
  import ScoreTableProperties

  datatype Outcome = Updated | Raised(error: UpdateError)

  /** `list(s)` for a set: its members in an unspecified order, each once. */
  method ListOf(s: set<Word>) returns (xs: seq<Word>)
    ensures ElemSet(xs) == s
    ensures Distinct(xs)
  {
    xs := [];
    var rest := s;
    while rest != {}
      invariant ElemSet(xs) + rest == s
      invariant ElemSet(xs) !! rest
      invariant Distinct(xs)
      decreases |rest|
    {
      var w :| w in rest;
      xs := xs + [w];
      rest := rest - {w};
    }
  }

  /** The three groups of filtered sub-lists the second pass builds. */
  datatype Groups = Groups(correct: seq<seq<Word>>, present: seq<seq<Word>>, absent: seq<seq<Word>>)

  /** First pass over the tiles: the letters tagged correct or present. */
  method FirstPass(tiles: seq<Tile>) returns (correctPresent: seq<char>)
    ensures correctPresent == Accounted(tiles)
    ensures forall c :: c in correctPresent <==> IsAccounted(tiles, c)
  {
    correctPresent := [];
    for k := 0 to |tiles|
      invariant correctPresent == Accounted(tiles[..k])
    {
      assert tiles[..k + 1][..k] == tiles[..k];
      var (letter, eval) := tiles[k];
      if eval == Correct || eval == Present {
        correctPresent := correctPresent + [letter];
      }
    }
    assert tiles[..|tiles|] == tiles;
  }

  /** Second pass: one filtered sub-list per tile, filed by its tag; an
      absent tile whose letter is in `correctPresent` adds nothing. Indexing a
      word past its end raises. */
  method SecondPass(state: seq<Word>, tiles: seq<Tile>, correctPresent: seq<char>) returns (r: Result<Groups, UpdateError>)
    ensures IndexFault(state, tiles) ==> r == Failure(IndexOutOfRange)
    ensures !IndexFault(state, tiles) ==> r == Success(Groups(
      Apply(state, CorrectRules(tiles, |tiles|)),
      Apply(state, PresentRules(tiles, |tiles|)),
      Apply(state, AbsentRules(tiles, correctPresent, |tiles|))))
  {
    var correct, present, absent: seq<seq<Word>> := [], [], [];
    for i := 0 to |tiles|
      invariant correct == Apply(state, CorrectRules(tiles, i))
      invariant present == Apply(state, PresentRules(tiles, i))
      invariant absent == Apply(state, AbsentRules(tiles, correctPresent, i))
      invariant forall i', j :: 0 <= i' < i && 0 <= j < |state| && tiles[i'].1 == Correct ==> i' < |state[j]|
    {
      var (letter, eval) := tiles[i];
      if eval == Correct {
        if exists j :: 0 <= j < |state| && |state[j]| <= i {
          return Failure(IndexOutOfRange);
        }
        correct := correct + [Select(state, At(i, letter))];
      } else if eval == Present {
        present := present + [Select(state, Has(letter))];
      } else if letter !in correctPresent {
        absent := absent + [Select(state, Lacks(letter))];
      }
    }
    return Success(Groups(correct, present, absent));
  }

  /** The loop that replaces each non-empty group by the intersection of
      its sub-lists; an empty group stays empty. */
  method CollapseGroups(sets: seq<seq<seq<Word>>>) returns (collapsed: seq<set<Word>>)
    ensures |collapsed| == |sets|
    ensures forall h :: 0 <= h < |sets| ==> collapsed[h] == Collapse(sets[h])
  {
    collapsed := seq(|sets|, _ => {});
    for g := 0 to |sets|
      invariant |collapsed| == |sets|
      invariant forall h :: 0 <= h < g ==> collapsed[h] == Collapse(sets[h])
      invariant forall h :: g <= h < |sets| ==> collapsed[h] == {}
    {
      var subset := sets[g];
      if subset != [] {
        collapsed := collapsed[g := IntersectAll(seq(|subset|, k requires 0 <= k < |subset| => ElemSet(subset[k])))];
      }
    }
  }

  class ZipfBot {
    /** The candidate words still possible. */
    var wordState: seq<Word>
    /** Score of each candidate, in insertion order. */
    var zipfDict: Table

    ghost predicate Valid()
      reads this
    {
      DistinctKeys(zipfDict)
    }

    /** The dictionary scores exactly the candidate words. */
    ghost predicate InStep()
      reads this
    {
      KeySet(zipfDict) == ElemSet(wordState)
    }

    /** The initial word list comes from the game; the table is computed with
        the scorer `zipf`, or is the stored `snapshot`. */
    constructor (initial: seq<Word>, compute: bool, zipf: Word -> Score, snapshot: Table)
      requires DistinctKeys(snapshot)
      ensures Valid()
      ensures wordState == initial
      ensures zipfDict == if compute then CreateTable(initial, zipf) else snapshot
      ensures compute ==> InStep()
    {
      wordState := initial;
      if compute {
        zipfDict := CreateTable(initial, zipf);
      } else {
        zipfDict := snapshot;
      }
    }

    /** Opening move: a uniformly drawn index into the word state, of which
        only the range is modelled. The draw raises on an empty state. */
    method MakeRandomGuess() returns (guess: Option<Word>)
      ensures guess == None <==> wordState == []
      ensures guess.Some? ==> guess.value in wordState
    {
      if |wordState| == 0 {
        return None;
      }
      var idx :| 0 <= idx < |wordState|;
      guess := Some(wordState[idx]);
    }

    /** Greedy move: the highest-scoring word of the dictionary, the first
        such in its order. */
    method MakeGuess() returns (guess: Option<Word>)
      ensures guess == Greedy(zipfDict)
      ensures InStep() && guess.Some? ==> guess.value in wordState
    {
      guess := Greedy(zipfDict);
      if guess.Some? {
        ScoreTableProperties.GreedyIsKey(zipfDict);
      }
    }

    /** Narrows the word state by one row of feedback and re-filters the
        dictionary to the words that remain. On an exception nothing
        changes. */
    method UpdateWordState(tiles: seq<Tile>) returns (outcome: Outcome)
      requires Valid()
      modifies this
      ensures Valid()
      ensures Reduce(old(wordState), tiles).Failure? ==>
        && outcome == Raised(Reduce(old(wordState), tiles).error)
        && wordState == old(wordState)
        && zipfDict == old(zipfDict)
      ensures Reduce(old(wordState), tiles).Success? ==>
        && outcome == Updated
        && ElemSet(wordState) == Reduce(old(wordState), tiles).value
        && Distinct(wordState)
        && zipfDict == Restrict(old(zipfDict), wordState)
      ensures old(InStep()) ==> InStep()
    {
      var state := wordState;
      var correctPresent := FirstPass(tiles);
      var groups := SecondPass(state, tiles, correctPresent);
      if groups.Failure? {
        return Raised(groups.error);
      }
      var collapsed := CollapseGroups([groups.value.correct, groups.value.present, groups.value.absent]);
      assert collapsed == [CorrectResult(state, tiles), PresentResult(state, tiles), AbsentResult(state, tiles)];
      // Intersect the groups that came out non-empty.
      var operands := Operands(collapsed);
      if operands == [] {
        return Raised(NoOperands);
      }
      var newState := ListOf(IntersectAll(operands));
      NarrowingProperties.ReduceShrinks(state, tiles);
      if InStep() {
        ScoreTableProperties.RestrictKeepsStep(zipfDict, ElemSet(state), newState);
      }
      wordState := newState;
      zipfDict := Restrict(zipfDict, wordState);
      outcome := Updated;
    }
  }
}
