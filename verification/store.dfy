/**
 * The hand-written in-memory word store: a map from id to word plus a
 * counter of ids handed out. Kotlin's `mutableMapOf` is a LinkedHashMap, so
 * `values` come out in first-insertion order; `order` records that order.
 */
module WordStore {
  import opened Wrappers
  import opened Words
  import opened Selection

  datatype Store = Store(items: map<int, Word>, order: seq<int>, counter: int)

  /** A new store: no words, counter at zero. */
  const Empty := Store(map[], [], 0)

  /** The map and its insertion order agree: `order` lists each key once. */
  ghost predicate Linked(s: Store) {
    && (forall i :: 0 <= i < |s.order| ==> s.order[i] in s.items)
    && (forall k :: k in s.items ==> k in s.order)
    && NoDuplicates(s.order)
  }

  predicate NoDuplicates(xs: seq<int>) {
    forall i, j :: 0 <= i < j < |xs| ==> xs[i] != xs[j]
  }

  /** Every stored word carries its own key as id. */
  ghost predicate KeysAreIds(s: Store) {
    forall k :: k in s.items ==> s.items[k].id == Some(k)
  }

  /** Every key is an id already handed out, so the next one is fresh. */
  ghost predicate IdsIssued(s: Store) {
    0 <= s.counter && forall k :: k in s.items ==> 1 <= k <= s.counter
  }

  ghost predicate Valid(s: Store) {
    Linked(s) && KeysAreIds(s) && IdsIssued(s)
  }

  /** `order` without `k`. */
  function Without(order: seq<int>, k: int): (r: seq<int>)
    ensures forall x :: x in r <==> x in order && x != k
    ensures |r| <= |order|
  {
    if order == [] then []
    else if order[0] == k then Without(order[1..], k)
    else [order[0]] + Without(order[1..], k)
  }

  /** `items[k] = w`: overwrite in place, or append a new key at the end. */
  function Put(s: Store, k: int, w: Word): (r: Store)
    ensures r.items == s.items[k := w] && r.counter == s.counter
  {
    if k in s.items then s.(items := s.items[k := w])
    else s.(items := s.items[k := w], order := s.order + [k])
  }

  /** `getWord(id)`: the stored word, or none for a missing id. */
  function Get(s: Store, id: int): (r: Option<Word>)
    ensures r.Some? <==> id in s.items
    ensures r.Some? ==> r.value == s.items[id]
  {
    if id in s.items then Some(s.items[id]) else None
  }

  /**
   * `addWord`: bump the counter and store a copy of the word under the new
   * counter value, with that value as its id.
   */
  function Add(s: Store, w: Word): (r: Store)
    ensures r.counter == s.counter + 1
    ensures Get(r, r.counter) == Some(w.(id := Some(r.counter)))
    ensures forall k :: k != r.counter ==> Get(r, k) == Get(s, k)
  {
    var id := s.counter + 1;
    Put(s.(counter := id), id, w.(id := Some(id)))
  }

  /**
   * `updateWord`: store the word under its own id, overwriting or inserting;
   * a missing id is a null dereference (`!!`), modelled as no store at all.
   */
  function Update(s: Store, w: Word): (r: Option<Store>)
    ensures r.None? <==> w.id.None?
    ensures r.Some? ==> Get(r.value, w.id.value) == Some(w)
    ensures r.Some? ==> forall k :: k != w.id.value ==> Get(r.value, k) == Get(s, k)
    ensures r.Some? ==> r.value.counter == s.counter
  {
    match w.id
    case None => None
    case Some(k) => Some(Put(s, k, w))
  }

  /** `deleteWord`: remove the key if present; the counter is untouched. */
  function Delete(s: Store, id: int): (r: Store)
    ensures Get(r, id).None?
    ensures forall k :: k != id ==> Get(r, k) == Get(s, k)
    ensures r.counter == s.counter
  {
    Store(s.items - {id}, Without(s.order, id), s.counter)
  }

  /** Deleting an id that is not stored is a no-op, not an error. */
  lemma DeleteAbsent(s: Store, id: int)
    requires Linked(s) && id !in s.items
    ensures Delete(s, id) == s
  {
    WithoutAbsent(s.order, id);
    assert s.items - {id} == s.items;
  }

  /** Removing a key that is not there leaves the order as it was. */
  lemma {:induction false} WithoutAbsent(order: seq<int>, k: int)
    requires k !in order
    ensures Without(order, k) == order
  {
    if order != [] {
      WithoutAbsent(order[1..], k);
      assert order == [order[0]] + order[1..];
    }
  }

  /** The words stored under `order`, in that order. */
  function Values(items: map<int, Word>, order: seq<int>): (r: seq<Word>)
    ensures |r| <= |order|
  {
    if order == [] then []
    else (if order[0] in items then [items[order[0]]] else []) + Values(items, order[1..])
  }

  /**
   * `getAllWords`: every stored word in insertion order. With the order in
   * step with the map, position `i` holds the word under the `i`-th key
   * inserted, and every stored word appears.
   */
  function AllWords(s: Store): (r: seq<Word>)
    ensures Linked(s) ==> |r| == |s.order|
    ensures Linked(s) ==> forall i :: 0 <= i < |r| ==> r[i] == s.items[s.order[i]]
    ensures Linked(s) ==> forall k :: k in s.items ==> s.items[k] in r
  {
    var r := Values(s.items, s.order);
    assert Linked(s) ==>
      && |r| == |s.order|
      && (forall i :: 0 <= i < |r| ==> r[i] == s.items[s.order[i]])
      && (forall k :: k in s.items ==> s.items[k] in r) by {
      if Linked(s) {
        ValuesAt(s.items, s.order);
        forall k | k in s.items ensures s.items[k] in r {
          var i :| 0 <= i < |s.order| && s.order[i] == k;
          assert r[i] == s.items[k];
        }
      }
    }
    r
  }

  /** `getCompletedWords`: exactly the learned words, in insertion order. */
  function CompletedWords(s: Store): (r: seq<Word>)
    ensures IsSubsequence(r, AllWords(s))
    ensures forall w :: w in r <==> w in AllWords(s) && w.isCompleted
  {
    var r := Select(Completed, AllWords(s));
    assert forall w :: w in r <==> w in AllWords(s) && w.isCompleted by {
      forall w ensures w in r <==> w in AllWords(s) && w.isCompleted {
        SelectMembers(Completed, AllWords(s), w);
      }
    }
    r
  }

  /** `getUnlearnedWords`: exactly the words not yet learned, in insertion order. */
  function UnlearnedWords(s: Store): (r: seq<Word>)
    ensures IsSubsequence(r, AllWords(s))
    ensures forall w :: w in r <==> w in AllWords(s) && !w.isCompleted
  {
    var r := Select(Unlearned, AllWords(s));
    assert forall w :: w in r <==> w in AllWords(s) && !w.isCompleted by {
      forall w ensures w in r <==> w in AllWords(s) && !w.isCompleted {
        SelectMembers(Unlearned, AllWords(s), w);
      }
    }
    r
  }

  /** When every listed key is stored, the values line up with the keys. */
  lemma {:induction false} ValuesAt(items: map<int, Word>, order: seq<int>)
    requires forall i :: 0 <= i < |order| ==> order[i] in items
    ensures |Values(items, order)| == |order|
    ensures forall i :: 0 <= i < |order| ==> Values(items, order)[i] == items[order[i]]
  {
    if order != [] {
      ValuesAt(items, order[1..]);
    }
  }

  /** The empty store satisfies every invariant. */
  lemma EmptyValid()
    ensures Valid(Empty) && AllWords(Empty) == []
  {
  }

  /**
   * Adding keeps the invariants, hands out an id no stored word has, and
   * appends the new word to the end of `getAllWords`.
   */
  lemma AddValid(s: Store, w: Word)
    requires Valid(s)
    ensures s.counter + 1 !in s.items
    ensures Valid(Add(s, w))
    ensures AllWords(Add(s, w)) == AllWords(s) + [w.(id := Some(s.counter + 1))]
  {
    var r := Add(s, w);
    var k := s.counter + 1;
    assert k !in s.order;
    assert r.order == s.order + [k];
    assert Linked(r) && KeysAreIds(r) && IdsIssued(r);
    var all, all' := AllWords(s), AllWords(r);
    assert |all'| == |all| + 1;
    forall i | 0 <= i < |all'| ensures all'[i] == (all + [w.(id := Some(k))])[i] {
      if i < |all| { assert r.order[i] == s.order[i] != k; }
    }
  }

  /**
   * Updating a word whose id was handed out keeps the invariants, and
   * `getAllWords` changes only at that word's position. An update never
   * fails for a missing entry: it inserts it.
   */
  lemma UpdateValid(s: Store, w: Word)
    requires Valid(s) && w.id.Some? && 1 <= w.id.value <= s.counter
    ensures Update(s, w).Some? && Valid(Update(s, w).value)
    ensures w.id.value in s.items ==>
      var all, all' := AllWords(s), AllWords(Update(s, w).value);
      |all'| == |all| &&
      forall i :: 0 <= i < |all| ==> all'[i] == if s.order[i] == w.id.value then w else all[i]
  {
    var r := Update(s, w).value;
    var k := w.id.value;
    assert r.order == if k in s.items then s.order else s.order + [k];
    assert Linked(r) && KeysAreIds(r) && IdsIssued(r);
  }

  /** Deleting keeps the invariants and removes at most one word from `getAllWords`. */
  lemma DeleteValid(s: Store, id: int)
    requires Valid(s)
    ensures Valid(Delete(s, id))
    ensures |AllWords(Delete(s, id))| == |AllWords(s)| - (if id in s.items then 1 else 0)
  {
    var r := Delete(s, id);
    WithoutUnique(s.order, id);
    WithoutLength(s.order, id);
    assert Linked(r) by {
      forall i | 0 <= i < |r.order| ensures r.order[i] in r.items {
        assert r.order[i] in r.order;
      }
    }
    assert KeysAreIds(r) && IdsIssued(r);
  }

  /**
   * Deleting a stored id cuts its word out of `getAllWords` at its
   * position, every other word keeping its order; deleting a missing id
   * leaves `getAllWords` as it was.
   */
  lemma DeleteCutsOut(s: Store, id: int)
    requires Valid(s)
    ensures forall i :: 0 <= i < |s.order| && s.order[i] == id ==>
              AllWords(Delete(s, id)) == AllWords(s)[..i] + AllWords(s)[i + 1..]
    ensures id !in s.items ==> AllWords(Delete(s, id)) == AllWords(s)
  {
    forall i | 0 <= i < |s.order| && s.order[i] == id
      ensures AllWords(Delete(s, id)) == AllWords(s)[..i] + AllWords(s)[i + 1..]
    {
      DeleteAt(s, i);
    }
    if id !in s.items {
      DeleteAbsent(s, id);
    }
  }

  /** Deleting the key inserted `i`-th cuts out position `i` of `getAllWords`. */
  lemma DeleteAt(s: Store, i: nat)
    requires Valid(s) && i < |s.order|
    ensures AllWords(Delete(s, s.order[i])) == AllWords(s)[..i] + AllWords(s)[i + 1..]
  {
    var id := s.order[i];
    var r := Delete(s, id);
    DeleteValid(s, id);
    WithoutAt(s.order, i);
    var all, all' := AllWords(s), AllWords(r);
    var cut := all[..i] + all[i + 1..];
    forall j | 0 <= j < |all'| ensures all'[j] == cut[j] {
      var m := if j < i then j else j + 1;
      assert r.order[j] == s.order[m] != id;
      assert cut[j] == all[m];
    }
  }

  /** Removing the key at position `i` of a duplicate-free order cuts out just that position. */
  lemma {:induction false} WithoutAt(order: seq<int>, i: nat)
    requires NoDuplicates(order) && i < |order|
    ensures Without(order, order[i]) == order[..i] + order[i + 1..]
  {
    var k := order[i];
    assert order[0] !in order[1..] by {
      forall j | 0 <= j < |order[1..]| ensures order[1..][j] != order[0] {
        assert order[1..][j] == order[j + 1];
      }
    }
    assert NoDuplicates(order[1..]) by {
      forall a, b | 0 <= a < b < |order[1..]| ensures order[1..][a] != order[1..][b] {
        assert order[1..][a] == order[a + 1] && order[1..][b] == order[b + 1];
      }
    }
    if i == 0 {
      WithoutAbsent(order[1..], k);
    } else {
      WithoutAt(order[1..], i - 1);
      assert order[1..][i - 1] == k;
      assert order[..i] == [order[0]] + order[1..][..i - 1];
      assert order[i + 1..] == order[1..][i..];
    }
  }

  lemma {:induction false} WithoutUnique(order: seq<int>, k: int)
    requires NoDuplicates(order)
    ensures NoDuplicates(Without(order, k))
  {
    if order != [] {
      WithoutUnique(order[1..], k);
      var rest := Without(order[1..], k);
      assert order[0] !in order[1..] by {
        forall j | 0 <= j < |order[1..]| ensures order[1..][j] != order[0] {
          assert order[1..][j] == order[j + 1];
        }
      }
      if order[0] != k {
        var r := [order[0]] + rest;
        forall i, j | 0 <= i < j < |r| ensures r[i] != r[j] {
          if i == 0 {
            assert r[j] in rest;
          } else {
            assert r[i] == rest[i - 1] && r[j] == rest[j - 1];
          }
        }
      }
    }
  }

  lemma {:induction false} WithoutLength(order: seq<int>, k: int)
    requires NoDuplicates(order)
    ensures |Without(order, k)| == |order| - (if k in order then 1 else 0)
  {
    if order != [] {
      WithoutLength(order[1..], k);
      assert order[0] !in order[1..];
    }
  }

  /**
   * The completed and unlearned queries split `getAllWords`: together they
   * hold every stored word, no word is in both, and each keeps the
   * insertion order.
   */
  lemma QueriesPartition(s: Store)
    ensures multiset(CompletedWords(s)) + multiset(UnlearnedWords(s)) == multiset(AllWords(s))
    ensures forall w :: !(w in CompletedWords(s) && w in UnlearnedWords(s))
    ensures IsSubsequence(CompletedWords(s), AllWords(s))
    ensures IsSubsequence(UnlearnedWords(s), AllWords(s))
    ensures forall w :: w in CompletedWords(s) ==> w.isCompleted
    ensures forall w :: w in UnlearnedWords(s) ==> !w.isCompleted
  {
    CompletedUnlearnedPartition(AllWords(s));
    forall w ensures (w in CompletedWords(s) ==> w.isCompleted) && (w in UnlearnedWords(s) ==> !w.isCompleted) {
      SelectMembers(Completed, AllWords(s), w);
      SelectMembers(Unlearned, AllWords(s), w);
    }
  }

  /**
   * Adding then reading back returns the word as given, with only its id
   * filled in.
   */
  lemma AddThenGet(s: Store, w: Word)
    ensures var r := Add(s, w);
      Get(r, r.counter) == Some(Word(Some(r.counter), w.title, w.definition, w.synonym, w.details, w.isCompleted, w.date))
  {
  }

  /**
   * An update whose id was never handed out is silently overwritten by a
   * later add: storing word 1 into an empty store and then adding another
   * word loses the first one.
   */
  lemma UnissuedUpdateIsOverwritten(a: Word, b: Word)
    requires a.id == Some(1) && a != b.(id := Some(1))
    ensures var s := Update(Empty, a).value; Get(s, 1) == Some(a)
    ensures var s := Add(Update(Empty, a).value, b); Get(s, 1) == Some(b.(id := Some(1))) && Get(s, 1) != Some(a)
  {
  }
}
