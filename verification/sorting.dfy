/**
 * Kotlin's `sortedBy { key }` and `sortedByDescending { key }` on word
 * lists. Both are stable: words with equal keys keep their relative order,
 * in either direction. The sort is written as insertion sort; since a
 * sorted, stable rearrangement of a list is unique (`SortedTiesUnique`),
 * this yields exactly the list the library's merge sort yields.
 */
module Sorting {
  import opened Words
  import opened Keys
  import opened Selection

  /** For every key, the words with that key appear in the same order in both lists. */
  ghost predicate SameTies(t: SortType, xs: seq<Word>, ys: seq<Word>) {
    forall k :: Select(Tie(t, k), xs) == Select(Tie(t, k), ys)
  }

  /** Places `x` before the first word of `ys` that it may precede. */
  function Insert(c: SortConfig, x: Word, ys: seq<Word>): (r: seq<Word>)
    ensures multiset(r) == multiset(ys) + multiset{x}
  {
    if ys == [] then [x]
    else
      assert ys == [ys[0]] + ys[1..];
      if InOrder(c, x, ys[0]) then [x] + ys
      else [ys[0]] + Insert(c, x, ys[1..])
  }

  /** Inserting into a sorted list keeps it sorted. */
  lemma {:induction false} InsertSorted(c: SortConfig, x: Word, ys: seq<Word>)
    requires Sorted(c, ys)
    ensures Sorted(c, Insert(c, x, ys))
  {
    if ys == [] {
    } else if InOrder(c, x, ys[0]) {
      forall j | 0 <= j < |ys| ensures InOrder(c, x, ys[j]) {
        if j > 0 { InOrderTransitive(c, x, ys[0], ys[j]); }
      }
      ConsSorted(c, x, ys);
    } else {
      var rest := Insert(c, x, ys[1..]);
      Sorted1(c, ys);
      InsertSorted(c, x, ys[1..]);
      InOrderTotal(c, x, ys[0]);
      forall j | 0 <= j < |rest| ensures InOrder(c, ys[0], rest[j]) {
        assert rest[j] in multiset(rest);
      }
      ConsSorted(c, ys[0], rest);
    }
  }

  /** A word in order before every word of a sorted list can head it. */
  lemma ConsSorted(c: SortConfig, y: Word, rest: seq<Word>)
    requires Sorted(c, rest)
    requires forall j :: 0 <= j < |rest| ==> InOrder(c, y, rest[j])
    ensures Sorted(c, [y] + rest)
  {
    var r := [y] + rest;
    forall i, j | 0 <= i < j < |r| ensures InOrder(c, r[i], r[j]) {
      if i > 0 { assert r[i] == rest[i - 1] && r[j] == rest[j - 1]; }
    }
  }

  /**
   * Inserting `x` adds it to the front of its own key class and leaves every
   * other class unchanged: `x` goes before every word with its key.
   */
  lemma {:induction false} InsertTies(c: SortConfig, x: Word, ys: seq<Word>, k: Word)
    ensures Select(Tie(c.sortType, k), Insert(c, x, ys))
         == Select(Tie(c.sortType, k), [x] + ys)
  {
    var t := c.sortType;
    if ys != [] && !InOrder(c, x, ys[0]) {
      var rest := Insert(c, x, ys[1..]);
      InsertTies(c, x, ys[1..], k);
      InOrderBothWays(c, x, ys[0]);
      InOrderTotal(c, x, ys[0]);
      assert ([ys[0]] + rest)[1..] == rest;
      assert ([x] + ys)[1..] == ys;
      assert ([x] + ys[1..])[1..] == ys[1..];
      assert ys == [ys[0]] + ys[1..];
      // x and ys[0] have different keys, so at most one of them is kept
      assert !(SameKey(t, x, k) && SameKey(t, ys[0], k));
    }
  }

  /**
   * The list `sortedBy`/`sortedByDescending` returns: ordered under `c`, a
   * rearrangement of `xs`, and stable, each key class in input order.
   */
  function Sort(c: SortConfig, xs: seq<Word>): (r: seq<Word>)
    ensures Sorted(c, r)
    ensures multiset(r) == multiset(xs)
    ensures SameTies(c.sortType, r, xs)
  {
    if xs == [] then []
    else
      var rest := Sort(c, xs[1..]);
      InsertSorted(c, xs[0], rest);
      assert xs == [xs[0]] + xs[1..];
      assert SameTies(c.sortType, Insert(c, xs[0], rest), xs) by {
        forall k ensures Select(Tie(c.sortType, k), Insert(c, xs[0], rest)) == Select(Tie(c.sortType, k), xs) {
          InsertTies(c, xs[0], rest, k);
          assert ([xs[0]] + rest)[1..] == rest;
        }
      }
      Insert(c, xs[0], rest)
  }

  /** The first word of a list with a given key heads that key's class. */
  lemma SelectHead(t: SortType, xs: seq<Word>, k: Word)
    requires xs != [] && SameKey(t, xs[0], k)
    ensures Select(Tie(t, k), xs) == [xs[0]] + Select(Tie(t, k), xs[1..])
  {
  }

  /**
   * Two sorted lists with the same key classes are equal. So a stable
   * sort has exactly one possible result, whatever algorithm computes it.
   */
  lemma {:induction false} SortedTiesUnique(c: SortConfig, ys: seq<Word>, zs: seq<Word>)
    requires Sorted(c, ys) && Sorted(c, zs)
    requires SameTies(c.sortType, ys, zs)
    ensures ys == zs
    decreases |ys|
  {
    TiesSameWords(c.sortType, ys, zs);
    if ys == [] {
      assert |zs| == |multiset(zs)| == 0;
    } else {
      assert zs != [] by {
        assert |zs| == |multiset(zs)| == |multiset(ys)| == |ys|;
      }
      HeadsEqual(c, ys, zs);
      TiesOfTails(c.sortType, ys, zs);
      Sorted1(c, ys);
      Sorted1(c, zs);
      SortedTiesUnique(c, ys[1..], zs[1..]);
      assert ys == [ys[0]] + ys[1..] && zs == [zs[0]] + zs[1..];
    }
  }

  /** Two sorted lists with the same key classes start with the same word. */
  lemma HeadsEqual(c: SortConfig, ys: seq<Word>, zs: seq<Word>)
    requires Sorted(c, ys) && Sorted(c, zs) && ys != [] && zs != []
    requires SameTies(c.sortType, ys, zs)
    ensures ys[0] == zs[0]
  {
    var t, y, z := c.sortType, ys[0], zs[0];
    FirstPrecedesAll(c, ys, zs);
    FirstPrecedesAll(c, zs, ys);
    InOrderBothWays(c, y, z);
    SelectHead(t, ys, y);
    SelectHead(t, zs, y);
    assert Select(Tie(t, y), ys)[0] == Select(Tie(t, y), zs)[0];
  }

  /** Dropping a common first word keeps the key classes equal. */
  lemma TiesOfTails(t: SortType, ys: seq<Word>, zs: seq<Word>)
    requires ys != [] && zs != [] && ys[0] == zs[0]
    requires SameTies(t, ys, zs)
    ensures SameTies(t, ys[1..], zs[1..])
  {
    forall k ensures Select(Tie(t, k), ys[1..]) == Select(Tie(t, k), zs[1..]) {
      assert Select(Tie(t, k), ys) == Select(Tie(t, k), zs);
      if SameKey(t, ys[0], k) {
        SelectHead(t, ys, k);
        SelectHead(t, zs, k);
        assert Select(Tie(t, k), ys[1..]) == Select(Tie(t, k), ys)[1..];
      }
    }
  }

  /** The tail of a sorted list is sorted. */
  lemma Sorted1(c: SortConfig, xs: seq<Word>)
    requires Sorted(c, xs) && xs != []
    ensures Sorted(c, xs[1..])
  {
    forall i, j | 0 <= i < j < |xs| - 1 ensures InOrder(c, xs[1..][i], xs[1..][j]) {
      assert xs[1..][i] == xs[i + 1] && xs[1..][j] == xs[j + 1];
    }
  }

  /** Lists with the same key classes hold the same words, so keeping the
      key classes already makes a list a rearrangement. */
  lemma TiesSameWords(t: SortType, ys: seq<Word>, zs: seq<Word>)
    requires SameTies(t, ys, zs)
    ensures multiset(ys) == multiset(zs)
  {
    forall w ensures multiset(ys)[w] == multiset(zs)[w] {
      assert Keep(Tie(t, w), w);
      assert multiset(Select(Tie(t, w), ys)) == multiset(Select(Tie(t, w), zs));
    }
  }

  /** The head of a sorted list precedes every word of a list with the same key classes. */
  lemma FirstPrecedesAll(c: SortConfig, ys: seq<Word>, zs: seq<Word>)
    requires Sorted(c, ys) && ys != [] && zs != []
    requires SameTies(c.sortType, ys, zs)
    ensures InOrder(c, ys[0], zs[0])
  {
    var t, z := c.sortType, zs[0];
    SelectHead(t, zs, z);
    assert z in Select(Tie(t, z), ys);
    SelectMembers(Tie(t, z), ys, z);
    var i :| 0 <= i < |ys| && ys[i] == Select(Tie(t, z), ys)[0];
    SelectMembers(Tie(t, z), ys, ys[i]);
    InOrderBothWays(c, ys[0], ys[0]);
    InOrderRespectsSameKey(c, ys[i], z, ys[0]);
  }

  /** Any sorted list keeping the key classes of `xs` is the sort of `xs`. */
  lemma SortUnique(c: SortConfig, xs: seq<Word>, ys: seq<Word>)
    requires Sorted(c, ys) && SameTies(c.sortType, ys, xs)
    ensures ys == Sort(c, xs)
  {
    SortedTiesUnique(c, ys, Sort(c, xs));
  }

  /** Sorting an already sorted list changes nothing. */
  lemma SortSorted(c: SortConfig, xs: seq<Word>)
    requires Sorted(c, xs)
    ensures Sort(c, xs) == xs
  {
    SortUnique(c, xs, xs);
  }

  /** Re-applying the same sort is idempotent. */
  lemma SortIdempotent(c: SortConfig, xs: seq<Word>)
    ensures Sort(c, Sort(c, xs)) == Sort(c, xs)
  {
    SortSorted(c, Sort(c, xs));
  }

  function Reverse(xs: seq<Word>): (r: seq<Word>)
    ensures |r| == |xs|
    ensures forall i :: 0 <= i < |xs| ==> r[i] == xs[|xs| - 1 - i]
  {
    if xs == [] then [] else Reverse(xs[1..]) + [xs[0]]
  }

  /** No two words of `xs` share a key. */
  ghost predicate DistinctKeys(t: SortType, xs: seq<Word>) {
    forall i, j :: 0 <= i < j < |xs| ==> !SameKey(t, xs[i], xs[j])
  }

  /**
   * Descending is not the reverse of ascending: both directions keep words
   * with equal keys in input order, so two words of the same date come out
   * in the same order either way.
   */
  lemma DescendingIsNotReverse(a: Word, b: Word)
    requires a.date == b.date && a != b
    ensures Sort(SortConfig(Date, Ascending), [a, b]) == [a, b]
    ensures Sort(SortConfig(Date, Descending), [a, b]) == [a, b]
    ensures Reverse(Sort(SortConfig(Date, Ascending), [a, b])) != Sort(SortConfig(Date, Descending), [a, b])
  {
    assert [a, b][1..] == [b];
  }

  /** With all keys distinct, descending is exactly ascending reversed. */
  lemma DistinctKeysReverse(t: SortType, xs: seq<Word>)
    requires DistinctKeys(t, xs)
    ensures Sort(SortConfig(t, Descending), xs) == Reverse(Sort(SortConfig(t, Ascending), xs))
  {
    var up, down := SortConfig(t, Ascending), SortConfig(t, Descending);
    var zs := Sort(up, xs);
    var rs := Reverse(zs);
    assert Sorted(down, rs) by {
      forall i, j | 0 <= i < j < |rs| ensures InOrder(down, rs[i], rs[j]) {
        assert InOrder(up, zs[|zs| - 1 - j], zs[|zs| - 1 - i]);
      }
    }
    forall k ensures Select(Tie(t, k), rs) == Select(Tie(t, k), xs) {
      SelectReverse(Tie(t, k), zs);
      AtMostOneTie(t, xs, k);
      var cls := Select(Tie(t, k), xs);
      assert Reverse(cls) == cls;
    }
    SortUnique(down, xs, rs);
  }

  /** Filtering commutes with reversal. */
  lemma {:induction false} SelectReverse(c: Criterion, xs: seq<Word>)
    ensures Select(c, Reverse(xs)) == Reverse(Select(c, xs))
  {
    if xs != [] {
      var x, rest := xs[0], xs[1..];
      SelectReverse(c, rest);
      SelectAppend(c, Reverse(rest), [x]);
      assert [x][1..] == [];
      var tail := Select(c, rest);
      if Keep(c, x) {
        assert Select(c, [x]) == [x];
        assert Select(c, xs) == [x] + tail;
        assert ([x] + tail)[1..] == tail;
        assert Reverse([x] + tail) == Reverse(tail) + [x];
      } else {
        assert Select(c, [x]) == [];
        assert Select(c, xs) == tail;
      }
    }
  }

  /** With distinct keys, each key class holds at most one word. */
  lemma {:induction false} AtMostOneTie(t: SortType, xs: seq<Word>, k: Word)
    requires DistinctKeys(t, xs)
    ensures |Select(Tie(t, k), xs)| <= 1
  {
    if xs != [] {
      var rest := xs[1..];
      assert DistinctKeys(t, rest) by {
        forall i, j | 0 <= i < j < |rest| ensures !SameKey(t, rest[i], rest[j]) {
          assert rest[i] == xs[i + 1] && rest[j] == xs[j + 1];
        }
      }
      if SameKey(t, xs[0], k) {
        assert forall j :: 0 <= j < |rest| ==> rest[j] == xs[j + 1];
        forall w ensures multiset(Select(Tie(t, k), rest))[w] == 0 {
        }
        assert multiset(Select(Tie(t, k), rest)) == multiset{};
      } else {
        AtMostOneTie(t, rest, k);
      }
    }
  }
}
