/**
 * The string operations the app relies on: Kotlin's `isBlank`, the
 * case-insensitive `contains`, and `String.compareTo`, which orders titles.
 * Characters are restricted to what the model needs: the whitespace set is
 * Kotlin's within Latin-1 and case folding is ASCII.
 */
module Text {

  /** Kotlin's `Char.isWhitespace` on Latin-1: tab to carriage return, the four
      information separators, space and the no-break space. */
  predicate IsWhitespace(c: char) {
    ('\t' <= c <= '\r') || ('\U{1C}' <= c <= '\U{1F}') || c == ' ' || c == '\U{A0}'
  }

  /** Kotlin's `isBlank`, checking one character after another: true
      exactly when the string is empty or all whitespace. */
  function IsBlank(s: string): (r: bool)
    ensures r <==> forall i :: 0 <= i < |s| ==> IsWhitespace(s[i])
  {
    s == [] || (IsWhitespace(s[0]) && IsBlank(s[1..]))
  }

  /** Upper-case mapping of a character (ASCII letters only). */
  function UpperCase(c: char): char {
    if 'a' <= c <= 'z' then (c as int - 32) as char else c
  }

  /** Kotlin's `Char.equals(other, ignoreCase = true)`. */
  predicate SameIgnoringCase(a: char, b: char) {
    a == b || UpperCase(a) == UpperCase(b)
  }

  /** `q` occurs in `s` at position `i`, character by character ignoring case. */
  predicate MatchesAt(s: string, i: nat, q: string) {
    i + |q| <= |s| && forall j :: 0 <= j < |q| ==> SameIgnoringCase(s[i + j], q[j])
  }

  /**
   * Kotlin's `indexOf(q, from, ignoreCase = true)`: the first position at or
   * after `from` where `q` occurs, or -1 when there is none.
   */
  function IndexOf(s: string, q: string, from: nat): (r: int)
    decreases |s| - from
    ensures r == -1 || (from <= r && MatchesAt(s, r, q))
    ensures r == -1 ==> forall i :: from <= i ==> !MatchesAt(s, i, q)
    ensures r != -1 ==> forall i :: from <= i < r ==> !MatchesAt(s, i, q)
  {
    if from + |q| > |s| then -1
    else if MatchesAt(s, from, q) then from
    else IndexOf(s, q, from + 1)
  }

  /** Kotlin's `s.contains(q, ignoreCase = true)`, which is `indexOf >= 0`. */
  predicate ContainsIgnoringCase(s: string, q: string) {
    IndexOf(s, q, 0) >= 0
  }

  /** The search succeeds exactly when `q` occurs somewhere in `s`. */
  lemma ContainsIff(s: string, q: string)
    ensures ContainsIgnoringCase(s, q) <==> exists i: nat :: MatchesAt(s, i, q)
  {
    if ContainsIgnoringCase(s, q) {
      var i: nat := IndexOf(s, q, 0);
      assert MatchesAt(s, i, q);
    }
  }

  /**
   * Kotlin's `String.compareTo`: the difference of the first differing
   * characters, or of the lengths when one string is a prefix of the other.
   */
  function CompareTo(a: string, b: string): (r: int)
    ensures a <= b || b <= a ==> r == |a| - |b|
    ensures !(a <= b) && !(b <= a) ==>
              exists k :: FirstDifference(a, b, k) && r == a[k] as int - b[k] as int
  {
    if |a| == 0 || |b| == 0 then |a| - |b|
    else if a[0] != b[0] then
      assert FirstDifference(a, b, 0);
      a[0] as int - b[0] as int
    else
      var r := CompareTo(a[1..], b[1..]);
      assert a == [a[0]] + a[1..] && b == [b[0]] + b[1..];
      assert !(a <= b) && !(b <= a) ==>
               exists k :: FirstDifference(a, b, k) && r == a[k] as int - b[k] as int by {
        if !(a <= b) && !(b <= a) {
          var k :| FirstDifference(a[1..], b[1..], k) && r == a[1..][k] as int - b[1..][k] as int;
          assert a[..k + 1] == [a[0]] + a[1..][..k] && b[..k + 1] == [b[0]] + b[1..][..k];
          assert FirstDifference(a, b, k + 1);
        }
      }
      r
  }

  /** `k` is the first position where `a` and `b` differ. */
  predicate FirstDifference(a: string, b: string, k: int) {
    0 <= k < |a| && k < |b| && a[..k] == b[..k] && a[k] != b[k]
  }

  /** Swapping the arguments negates the comparison. */
  lemma {:induction false} CompareToAntisymmetric(a: string, b: string)
    ensures CompareTo(b, a) == -CompareTo(a, b)
    decreases |a|
  {
    if |a| != 0 && |b| != 0 && a[0] == b[0] {
      CompareToAntisymmetric(a[1..], b[1..]);
    }
  }

  /** Two strings compare equal exactly when they are the same string. */
  lemma {:induction false} CompareToZero(a: string, b: string)
    ensures CompareTo(a, b) == 0 <==> a == b
    decreases |a|
  {
    if |a| != 0 && |b| != 0 {
      if a[0] == b[0] {
        CompareToZero(a[1..], b[1..]);
        if a[1..] == b[1..] {
          assert a == [a[0]] + a[1..] && b == [b[0]] + b[1..];
        }
      }
    }
  }

  /** "Compares at most" is transitive. */
  lemma {:induction false} CompareToTransitive(a: string, b: string, c: string)
    requires CompareTo(a, b) <= 0 && CompareTo(b, c) <= 0
    ensures CompareTo(a, c) <= 0
    decreases |a|
  {
    if |a| != 0 && |b| != 0 && |c| != 0 && a[0] == b[0] == c[0] {
      CompareToTransitive(a[1..], b[1..], c[1..]);
    }
  }
}
