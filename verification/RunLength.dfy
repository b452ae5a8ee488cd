/** The words a compressing scope records and the samples they stand for. */
module RunLength {

  /** A recorded word: with bit 31 clear a sample, with bit 31 set a repeat of `extra` + 1
      more samples like the last. */
  datatype Word = Sample(value: nat) | Repeat(extra: nat)

  function Copies(v: nat, n: nat): (s: seq<nat>)
    ensures |s| == n && forall i :: 0 <= i < n ==> s[i] == v
  {
    seq(n, _ => v)
  }

  /** No repeat directly follows a repeat. */
  ghost predicate Alternating(words: seq<Word>)
  {
    forall k :: 0 < k < |words| && words[k].Repeat? ==> words[k - 1].Sample?
  }

  lemma AlternatingPart(words: seq<Word>, lo: nat, hi: nat)
    requires Alternating(words) && lo <= hi <= |words|
    ensures Alternating(words[lo..hi])
  {
  }

  /** One more word; a repeat of nothing is skipped. */
  function Extend(samples: seq<nat>, w: Word): seq<nat> {
    if w.Sample? then samples + [w.value]
    else if |samples| == 0 then []
    else samples + Copies(samples[|samples| - 1], w.extra + 1)
  }

  /** The samples a string of words stands for. */
  function Expand(words: seq<Word>): seq<nat> {
    if |words| == 0 then [] else Extend(Expand(words[..|words| - 1]), words[|words| - 1])
  }

  predicate Suffix(short: seq<nat>, long: seq<nat>) {
    |short| <= |long| && long[|long| - |short|..] == short
  }

  lemma ExpandOne(words: seq<Word>, w: Word)
    ensures Expand(words + [w]) == Extend(Expand(words), w)
  {
    assert (words + [w])[..|words|] == words;
  }

  /** One more repeat in the last word is one more sample. */
  lemma LongerRepeat(samples: seq<nat>, extra: nat)
    requires |samples| > 0
    ensures var run := Extend(samples, Repeat(extra));
      Extend(samples, Repeat(extra + 1)) == run + [run[|run| - 1]]
  {
    var v := samples[|samples| - 1];
    assert Copies(v, extra + 2) == Copies(v, extra + 1) + [v];
  }

  /** More words only add samples. */
  lemma {:induction false} ExpandGrows(words: seq<Word>, more: seq<Word>)
    ensures Expand(words) <= Expand(words + more)
  {
    if |more| == 0 {
      assert words + more == words;
    } else {
      var front := more[..|more| - 1];
      ExpandGrows(words, front);
      ExpandOne(words + front, more[|more| - 1]);
      assert words + front + [more[|more| - 1]] == words + more;
    }
  }

  /** Losing the oldest words loses the oldest samples, and no others. */
  lemma {:induction false} ExpandSuffix(lost: seq<Word>, words: seq<Word>)
    ensures Suffix(Expand(words), Expand(lost + words))
  {
    if |words| == 0 {
      assert lost + words == lost;
    } else {
      var front, w := words[..|words| - 1], words[|words| - 1];
      ExpandSuffix(lost, front);
      ExpandOne(lost + front, w);
      assert lost + front + [w] == lost + words;
      SuffixGrows(Expand(front), Expand(lost + front), w);
    }
  }

  lemma SuffixAppend(short: seq<nat>, long: seq<nat>, tail: seq<nat>)
    requires Suffix(short, long)
    ensures Suffix(short + tail, long + tail)
  {
    var at := |long| - |short|;
    assert (long + tail)[at..] == long[at..] + tail;
  }

  lemma SuffixGrows(short: seq<nat>, long: seq<nat>, w: Word)
    requires Suffix(short, long)
    ensures Suffix(Extend(short, w), Extend(long, w))
  {
    if w.Sample? {
      SuffixAppend(short, long, [w.value]);
    } else if |short| > 0 {
      assert short[|short| - 1] == long[|long| - 1];
      SuffixAppend(short, long, Copies(short[|short| - 1], w.extra + 1));
    }
  }
}
