/** How the score table follows the word state. */
module ScoreTableProperties {
  import opened Feedback
  import opened Narrowing
  import opened ScoreTable

  /** Re-filtering keeps exactly the old keys that are live, with their old
      scores. */
  lemma RestrictKeys(t: Table, live: seq<Word>)
    ensures KeySet(Restrict(t, live)) == KeySet(t) * ElemSet(live)
    ensures forall p :: p in Restrict(t, live) ==> p in t
  {
    var r := Restrict(t, live);
    forall w ensures w in KeySet(r) <==> w in KeySet(t) * ElemSet(live) {
      if w in KeySet(t) * ElemSet(live) {
        var p :| p in t && p.0 == w;
        assert p in r;
      }
    }
  }

  /** Re-filtering keeps the entries' relative order. */
  lemma {:induction false} RestrictAppend(t1: Table, t2: Table, live: seq<Word>)
    ensures Restrict(t1 + t2, live) == Restrict(t1, live) + Restrict(t2, live)
  {
    if t1 == [] {
      assert t1 + t2 == t2;
    } else {
      assert (t1 + t2)[0] == t1[0];
      assert (t1 + t2)[1..] == t1[1..] + t2;
      RestrictAppend(t1[1..], t2, live);
    }
  }

  /** Built from a list without repeats, the table lists the words in that
      order. */
  lemma {:induction false} CreateTableOrder(words: seq<Word>, zipf: Word -> Score)
    requires Distinct(words)
    ensures |CreateTable(words, zipf)| == |words|
    ensures forall i :: 0 <= i < |words| ==> CreateTable(words, zipf)[i] == (words[i], zipf(words[i]))
  {
    if words != [] {
      var n := |words| - 1;
      assert words == words[..n] + [words[n]];
      CreateTableOrder(words[..n], zipf);
      assert words[n] !in ElemSet(words[..n]);
    }
  }

  /** When the table's keys are the live words, re-filtering against a new
      state drawn from them leaves keys equal to the new state. */
  lemma RestrictKeepsStep(t: Table, words: set<Word>, live: seq<Word>)
    requires KeySet(t) == words
    requires ElemSet(live) <= words
    ensures KeySet(Restrict(t, live)) == ElemSet(live)
  {
    RestrictKeys(t, live);
  }

  /** The greedy choice is a key of the table. */
  lemma GreedyIsKey(t: Table)
    requires t != []
    ensures Greedy(t).Some? && Greedy(t).value in KeySet(t)
  {
    var k := FirstMax(t);
    assert t[k] in t;
  }
}
