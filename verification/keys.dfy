/**
 * The sort configuration of the list screens and the order it induces on
 * words: by title (Kotlin string order) or by creation date, ascending or
 * descending.
 */
module Keys {
  import opened Words
  import opened Text

  datatype SortType = Title | Date
  datatype SortOrder = Ascending | Descending
  datatype SortConfig = SortConfig(sortType: SortType, sortOrder: SortOrder)

  /** The configuration a list screen starts with: by date, ascending. */
  const DefaultConfig := SortConfig(Date, Ascending)

  /** The key of `a` is at most the key of `b`. */
  predicate KeyLe(t: SortType, a: Word, b: Word) {
    match t
    case Title => CompareTo(a.title, b.title) <= 0
    case Date => a.date <= b.date
  }

  /** `a` and `b` have equal sort keys, so a stable sort keeps their order. */
  predicate SameKey(t: SortType, a: Word, b: Word) {
    match t
    case Title => a.title == b.title
    case Date => a.date == b.date
  }

  /** `a` may precede `b` in a list sorted under `c`. */
  predicate InOrder(c: SortConfig, a: Word, b: Word) {
    if c.sortOrder == Ascending then KeyLe(c.sortType, a, b) else KeyLe(c.sortType, b, a)
  }

  /** Every pair of positions is in order. */
  predicate Sorted(c: SortConfig, xs: seq<Word>) {
    forall i, j :: 0 <= i < j < |xs| ==> InOrder(c, xs[i], xs[j])
  }

  /** Any two words can be placed in some order. */
  lemma InOrderTotal(c: SortConfig, a: Word, b: Word)
    ensures InOrder(c, a, b) || InOrder(c, b, a)
  {
    if c.sortType == Title {
      CompareToAntisymmetric(a.title, b.title);
    }
  }

  lemma InOrderTransitive(c: SortConfig, a: Word, b: Word, d: Word)
    requires InOrder(c, a, b) && InOrder(c, b, d)
    ensures InOrder(c, a, d)
  {
    if c.sortType == Title {
      if c.sortOrder == Ascending {
        CompareToTransitive(a.title, b.title, d.title);
      } else {
        CompareToTransitive(d.title, b.title, a.title);
      }
    }
  }

  /** Words in order both ways are exactly the words with equal keys. */
  lemma InOrderBothWays(c: SortConfig, a: Word, b: Word)
    ensures InOrder(c, a, b) && InOrder(c, b, a) <==> SameKey(c.sortType, a, b)
  {
    if c.sortType == Title {
      CompareToAntisymmetric(a.title, b.title);
      CompareToZero(a.title, b.title);
    }
  }

  /** A word equal in key to one in order before `b` is itself in order before `b`. */
  lemma InOrderRespectsSameKey(c: SortConfig, a: Word, a': Word, b: Word)
    requires SameKey(c.sortType, a, a')
    ensures InOrder(c, a, b) <==> InOrder(c, a', b)
    ensures InOrder(c, b, a) <==> InOrder(c, b, a')
  {
  }
}
