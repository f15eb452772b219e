/**
 * Order-preserving filtering of word lists: the completed and unlearned
 * queries of the store, the title search of the list screens, and the
 * classes of equal sort key that define a stable sort.
 */
module Selection {
  import opened Words
  import opened Text
  import opened Keys

  /** What a filter keeps. */
  datatype Criterion =
    | Completed
    | Unlearned
    | TitleContains(query: string)
    | Tie(sortType: SortType, like: Word)

  predicate Keep(c: Criterion, w: Word) {
    match c
    case Completed => w.isCompleted
    case Unlearned => !w.isCompleted
    case TitleContains(q) => ContainsIgnoringCase(w.title, q)
    case Tie(t, k) => SameKey(t, w, k)
  }

  /** `xs` is `ys` with some elements dropped and the rest in their original order. */
  predicate IsSubsequence<T(==)>(xs: seq<T>, ys: seq<T>)
    decreases |ys|
  {
    xs == [] || (ys != [] && ((xs[0] == ys[0] && IsSubsequence(xs[1..], ys[1..])) || IsSubsequence(xs, ys[1..])))
  }

  /**
   * Kotlin's `filter`: the words of `xs` that `c` keeps, in their order.
   * The result is an in-order subsequence of `xs` holding every kept word
   * exactly as often as `xs` does and no other word, which determines it.
   */
  function Select(c: Criterion, xs: seq<Word>): (r: seq<Word>)
    ensures IsSubsequence(r, xs)
    ensures forall w :: multiset(r)[w] == if Keep(c, w) then multiset(xs)[w] else 0
  {
    if xs == [] then []
    else
      var rest := Select(c, xs[1..]);
      assert multiset(xs) == multiset{xs[0]} + multiset(xs[1..]) by {
        assert xs == [xs[0]] + xs[1..];
      }
      if Keep(c, xs[0]) then
        assert ([xs[0]] + rest)[1..] == rest;
        [xs[0]] + rest
      else
        assert IsSubsequence(rest, xs[1..]);
        rest
  }

  /** Soundness and completeness of filtering, stated on membership. */
  lemma SelectMembers(c: Criterion, xs: seq<Word>, w: Word)
    ensures w in Select(c, xs) <==> w in xs && Keep(c, w)
  {
    assert w in Select(c, xs) <==> multiset(Select(c, xs))[w] > 0;
    assert w in xs <==> multiset(xs)[w] > 0;
  }

  /** Filtering distributes over concatenation. */
  lemma {:induction false} SelectAppend(c: Criterion, xs: seq<Word>, ys: seq<Word>)
    ensures Select(c, xs + ys) == Select(c, xs) + Select(c, ys)
    decreases |xs|
  {
    if xs == [] {
      assert xs + ys == ys;
    } else {
      assert (xs + ys)[1..] == xs[1..] + ys;
      SelectAppend(c, xs[1..], ys);
    }
  }

  /** Completed and unlearned words split any list: together they are all of it, and no word is in both. */
  lemma CompletedUnlearnedPartition(xs: seq<Word>)
    ensures multiset(Select(Completed, xs)) + multiset(Select(Unlearned, xs)) == multiset(xs)
    ensures forall w :: !(w in Select(Completed, xs) && w in Select(Unlearned, xs))
  {
    var a, b := Select(Completed, xs), Select(Unlearned, xs);
    assert forall w :: (multiset(a) + multiset(b))[w] == multiset(xs)[w];
    forall w ensures !(w in a && w in b) {
      SelectMembers(Completed, xs, w);
      SelectMembers(Unlearned, xs, w);
    }
  }
}
