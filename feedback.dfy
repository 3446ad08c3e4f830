/**
  One row of game feedback and the rules it imposes on candidate words.

  A row is the sequence of (letter, evaluation) pairs of the tiles of one
  played guess, left to right. The evaluation attribute of a tile is read as
  `correct`, `present`, or anything else; everything else falls into the
  absent branch, so three tags suffice.
*/
module Feedback {
  type Word = seq<char>

  datatype Tag = Correct | Present | Absent

  type Tile = (char, Tag)

  /** The constraint one tile contributes: the letter at a position, the
      letter somewhere, or the letter nowhere. */
  datatype Rule = At(pos: nat, letter: char) | Has(letter: char) | Lacks(letter: char)

  predicate Holds(r: Rule, w: Word)
  {
    match r
    case At(i, l) => i < |w| && w[i] == l
    case Has(l) => l in w
    case Lacks(l) => l !in w
  }

  /** Letter `c` is tagged correct or present somewhere in the row. */
  predicate IsAccounted(row: seq<Tile>, c: char)
  {
    exists j :: 0 <= j < |row| && row[j].1 != Absent && row[j].0 == c
  }

  /** The first pass: the list of letters tagged correct or present, in row
      order (repeats kept). */
  function Accounted(row: seq<Tile>): (acc: seq<char>)
    ensures forall c :: c in acc <==> IsAccounted(row, c)
  {
    if row == [] then []
    else
      var n := |row| - 1;
      var acc := Accounted(row[..n]);
      assert forall j :: 0 <= j < n ==> row[..n][j] == row[j];
      acc + (if row[n].1 != Absent then [row[n].0] else [])
  }

  /** The positional rules of the correct tiles among the first `n`. */
  function CorrectRules(row: seq<Tile>, n: nat): (rules: seq<Rule>)
    requires n <= |row|
    ensures forall r :: r in rules <==> exists i :: 0 <= i < n && row[i].1 == Correct && r == At(i, row[i].0)
  {
    if n == 0 then []
    else CorrectRules(row, n - 1) + (if row[n - 1].1 == Correct then [At(n - 1, row[n - 1].0)] else [])
  }

  /** The containment rules of the present tiles among the first `n`; the
      tile's own position is not excluded. */
  function PresentRules(row: seq<Tile>, n: nat): (rules: seq<Rule>)
    requires n <= |row|
    ensures forall r :: r in rules <==> exists i :: 0 <= i < n && row[i].1 == Present && r == Has(row[i].0)
  {
    if n == 0 then []
    else PresentRules(row, n - 1) + (if row[n - 1].1 == Present then [Has(row[n - 1].0)] else [])
  }

  /** The exclusion rules of the absent tiles among the first `n` whose letter
      is not in `acc`, the letters accounted for by the row. */
  function AbsentRules(row: seq<Tile>, acc: seq<char>, n: nat): (rules: seq<Rule>)
    requires n <= |row|
    ensures forall r :: r in rules <==>
      exists i :: 0 <= i < n && row[i].1 == Absent && row[i].0 !in acc && r == Lacks(row[i].0)
  {
    if n == 0 then []
    else
      AbsentRules(row, acc, n - 1)
      + (if row[n - 1].1 == Absent && row[n - 1].0 !in acc then [Lacks(row[n - 1].0)] else [])
  }

  /** Reference reading of the row's tiles, one predicate per tag. */
  predicate MatchesCorrect(w: Word, row: seq<Tile>)
  {
    forall i :: 0 <= i < |row| && row[i].1 == Correct ==> i < |w| && w[i] == row[i].0
  }

  predicate MatchesPresent(w: Word, row: seq<Tile>)
  {
    forall i :: 0 <= i < |row| && row[i].1 == Present ==> row[i].0 in w
  }

  predicate MatchesAbsent(w: Word, row: seq<Tile>)
  {
    forall i :: 0 <= i < |row| && row[i].1 == Absent && !IsAccounted(row, row[i].0) ==> row[i].0 !in w
  }

  predicate HasTag(row: seq<Tile>, t: Tag)
  {
    exists i :: 0 <= i < |row| && row[i].1 == t
  }

  /** Some absent tile carries a letter the row does not account for. */
  predicate HasLiveAbsent(row: seq<Tile>)
  {
    exists i :: 0 <= i < |row| && row[i].1 == Absent && !IsAccounted(row, row[i].0)
  }
}
