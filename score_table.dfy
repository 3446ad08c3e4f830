/**
  The word-to-score dictionary. Python dictionaries keep insertion order and
  the greedy choice depends on it, so the table is a sequence of
  (word, score) entries with pairwise distinct words.
*/
module ScoreTable {
  import opened Wrappers
  import opened Feedback
  import opened Narrowing

  /** A score from the frequency scorer; only its order matters here. */
  type Score = real

  type Table = seq<(Word, Score)>

  predicate DistinctKeys(t: Table)
  {
    forall i, j :: 0 <= i < j < |t| ==> t[i].0 != t[j].0
  }

  function KeySet(t: Table): set<Word>
  {
    set p | p in t :: p.0
  }

  /** `d[k] = v`: a key already present keeps its place and takes the new
      value; a new key goes at the end. */
  function Put(t: Table, k: Word, v: Score): (r: Table)
    requires DistinctKeys(t)
    ensures DistinctKeys(r)
    ensures forall p :: p in r <==> p == (k, v) || (p in t && p.0 != k)
    ensures k !in KeySet(t) ==> r == t + [(k, v)]
    ensures k in KeySet(t) ==> exists i :: 0 <= i < |t| && t[i].0 == k && r == t[i := (k, v)]
    ensures |r| == if k in KeySet(t) then |t| else |t| + 1
  {
    if t == [] then [(k, v)]
    else if t[0].0 == k then
      assert forall p :: p in t[1..] ==> p.0 != k;
      [(k, v)] + t[1..]
    else
      assert t == [t[0]] + t[1..];
      var rest := Put(t[1..], k, v);
      assert t[0].0 !in KeySet(rest) by {
        assert forall p :: p in t[1..] ==> p.0 != t[0].0;
      }
      [t[0]] + rest
  }

  lemma PutKeys(t: Table, k: Word, v: Score)
    requires DistinctKeys(t)
    ensures KeySet(Put(t, k, v)) == KeySet(t) + {k}
  {
    var r := Put(t, k, v);
    forall w | w in KeySet(t) + {k} ensures w in KeySet(r) {
      if w != k {
        var p :| p in t && p.0 == w;
        assert p in r;
      } else {
        assert (k, v) in r;
      }
    }
  }

  /** `dict(zip(words, map(zipf, words)))`: every word keyed to its score. */
  function CreateTable(words: seq<Word>, zipf: Word -> Score): (t: Table)
    ensures DistinctKeys(t)
    ensures KeySet(t) == ElemSet(words)
    ensures forall p :: p in t ==> p.1 == zipf(p.0)
    ensures |t| <= |words|
  {
    if words == [] then []
    else
      var n := |words| - 1;
      assert words == words[..n] + [words[n]];
      var t := CreateTable(words[..n], zipf);
      PutKeys(t, words[n], zipf(words[n]));
      Put(t, words[n], zipf(words[n]))
  }

  /** `{word: z for word, z in d.items() if word in live}`. */
  function Restrict(t: Table, live: seq<Word>): (r: Table)
    ensures forall p :: p in r <==> p in t && p.0 in live
    ensures |r| <= |t|
    ensures DistinctKeys(t) ==> DistinctKeys(r)
  {
    if t == [] then []
    else
      assert t == [t[0]] + t[1..];
      (if t[0].0 in live then [t[0]] else []) + Restrict(t[1..], live)
  }

  /** Index of the entry `max(d.items(), key=score)` returns: a greatest
      score, and the first entry holding it. */
  function FirstMax(t: Table): (k: nat)
    requires |t| > 0
    ensures k < |t|
    ensures forall j :: 0 <= j < |t| ==> t[j].1 <= t[k].1
    ensures forall j :: 0 <= j < k ==> t[j].1 < t[k].1
  {
    if |t| == 1 then 0
    else
      var n := |t| - 1;
      var k := FirstMax(t[..n]);
      assert forall j :: 0 <= j < n ==> t[..n][j] == t[j];
      if t[n].1 > t[k].1 then n else k
  }

  /** The greedy choice; `max` of an empty dictionary raises, given as None. */
  function Greedy(t: Table): (r: Option<Word>)
    ensures r == None <==> t == []
    ensures r.Some? ==> exists k :: (
      && 0 <= k < |t| && t[k].0 == r.value
      && (forall j :: 0 <= j < |t| ==> t[j].1 <= t[k].1)
      && (forall j :: 0 <= j < k ==> t[j].1 < t[k].1))
  {
    if t == [] then None else Some(t[FirstMax(t)].0)
  }
}
