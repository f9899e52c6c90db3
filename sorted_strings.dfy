/** The value-level view of the sorted string list: the `strcmp` order on strings,
    what it means for the list's contents to be in order, and the effect of an
    insert and a delete on the sequence of contents.  The heap-based list in
    module DoublyLinkedList is proved against these definitions. */
module SortedStrings {

  /** Three-way comparison in the manner of C's `strcmp`: the first position where
      the two strings differ decides, by character code; when one string is a
      prefix of the other, the shorter one is smaller.  Only the sign of the result
      is modelled: -1, 0 or 1. */
  function StrCmp(a: string, b: string): (r: int)
    ensures -1 <= r <= 1
    ensures r == 0 <==> a == b
  {
    if a == [] && b == [] then 0
    else if a == [] then -1
    else if b == [] then 1
    else if a[0] < b[0] then -1
    else if b[0] < a[0] then 1
    else StrCmp(a[1..], b[1..])
  }

  /** `strcmp(a, b) < 0`: the strict order the list is kept in. */
  predicate StrLess(a: string, b: string)
    ensures StrLess(a, b) ==> a != b
  {
    StrCmp(a, b) < 0
  }

  /** Swapping the arguments of StrCmp negates the result. */
  lemma {:induction false} StrCmpAntisymmetric(a: string, b: string)
    ensures StrCmp(a, b) == -StrCmp(b, a)
  {
    if a != [] && b != [] && a[0] == b[0] {
      StrCmpAntisymmetric(a[1..], b[1..]);
    }
  }

  /** StrLess is transitive. */
  lemma {:induction false} StrLessTransitive(a: string, b: string, c: string)
    requires StrLess(a, b) && StrLess(b, c)
    ensures StrLess(a, c)
  {
    if a != [] && b != [] && c != [] && a[0] == b[0] == c[0] {
      StrLessTransitive(a[1..], b[1..], c[1..]);
    }
  }

  /** Two different strings are ordered one way or the other, and never both. */
  lemma StrLessTrichotomy(a: string, b: string)
    ensures a == b || StrLess(a, b) || StrLess(b, a)
    ensures !(StrLess(a, b) && StrLess(b, a))
    ensures !StrLess(a, a)
  {
    StrCmpAntisymmetric(a, b);
  }

  /** Each element is strictly less than its successor. */
  predicate Sorted(s: seq<string>) {
    forall i :: 0 < i < |s| ==> StrLess(s[i - 1], s[i])
  }

  /** In a sorted sequence every earlier element is less than every later one. */
  lemma {:induction false} SortedPairwise(s: seq<string>, i: int, j: int)
    requires Sorted(s)
    requires 0 <= i < j < |s|
    ensures StrLess(s[i], s[j])
  {
    if i < j - 1 {
      SortedPairwise(s, i, j - 1);
      StrLessTransitive(s[i], s[j - 1], s[j]);
    }
  }

  /** A sorted sequence holds no value twice. */
  lemma SortedHasNoDuplicates(s: seq<string>)
    requires Sorted(s)
    ensures forall i, j :: 0 <= i < j < |s| ==> s[i] != s[j]
  {
    forall i, j | 0 <= i < j < |s| ensures s[i] != s[j] {
      SortedPairwise(s, i, j);
      StrLessTrichotomy(s[i], s[j]);
    }
  }

  /** The position the insert scan stops at: the first element that is not less
      than `x`, or `|s|` when every element is less. */
  function FirstNotLess(s: seq<string>, x: string): (k: nat)
    ensures k <= |s|
    ensures forall j :: 0 <= j < k ==> StrLess(s[j], x)
    ensures k < |s| ==> !StrLess(s[k], x)
  {
    if s == [] || !StrLess(s[0], x) then 0 else 1 + FirstNotLess(s[1..], x)
  }

  /** Any position with the two properties of FirstNotLess is the one it returns. */
  lemma FirstNotLessAt(s: seq<string>, x: string, k: nat)
    requires k <= |s|
    requires forall j :: 0 <= j < k ==> StrLess(s[j], x)
    requires k < |s| ==> !StrLess(s[k], x)
    ensures FirstNotLess(s, x) == k
  {
  }

  /** The contents after inserting `x`: unchanged when the scan stops on an equal
      element, otherwise `x` placed just before the element the scan stopped on
      (at the end when it ran off the list). */
  function SortedInsert(s: seq<string>, x: string): (r: seq<string>)
    ensures x in r
    ensures r == s || |r| == |s| + 1
  {
    var k := FirstNotLess(s, x);
    if k < |s| && s[k] == x then s else s[..k] + [x] + s[k..]
  }

  /** In a sorted sequence the insert scan stops on `x` exactly when `x` is present,
      so the duplicate test of the insert is exact. */
  lemma ScanFindsDuplicate(s: seq<string>, x: string)
    requires Sorted(s)
    ensures x in s <==> FirstNotLess(s, x) < |s| && s[FirstNotLess(s, x)] == x
  {
    var k := FirstNotLess(s, x);
    if x in s {
      var i :| 0 <= i < |s| && s[i] == x;
      StrLessTrichotomy(x, x);
      if i > k {
        SortedPairwise(s, k, i);
      }
    }
  }

  /** Inserting keeps the contents sorted. */
  lemma SortedInsertSorted(s: seq<string>, x: string)
    requires Sorted(s)
    ensures Sorted(SortedInsert(s, x))
  {
    var k := FirstNotLess(s, x);
    if !(k < |s| && s[k] == x) {
      var r := s[..k] + [x] + s[k..];
      forall i | 0 < i < |r| ensures StrLess(r[i - 1], r[i]) {
        if i == k + 1 {
          StrLessTrichotomy(s[k], x);
        }
      }
    }
  }

  /** The inserted contents hold exactly the old values and `x`; they grow by one
      exactly when `x` was absent. */
  lemma SortedInsertElements(s: seq<string>, x: string)
    requires Sorted(s)
    ensures forall y :: y in SortedInsert(s, x) <==> y in s || y == x
    ensures |SortedInsert(s, x)| == if x in s then |s| else |s| + 1
  {
    var k := FirstNotLess(s, x);
    ScanFindsDuplicate(s, x);
    if !(k < |s| && s[k] == x) {
      assert s == s[..k] + s[k..];
    }
  }

  /** The position the delete scan stops at: the first element equal to `x`, or
      `|s|` when there is none. */
  function IndexOf(s: seq<string>, x: string): (k: nat)
    ensures k <= |s|
    ensures forall j :: 0 <= j < k ==> s[j] != x
    ensures k < |s| <==> x in s
    ensures k < |s| ==> s[k] == x
  {
    if s == [] then 0 else if s[0] == x then 0 else 1 + IndexOf(s[1..], x)
  }

  /** Any position holding the first occurrence of `x` is the one IndexOf returns. */
  lemma IndexOfAt(s: seq<string>, x: string, k: nat)
    requires k < |s| && s[k] == x
    requires forall j :: 0 <= j < k ==> s[j] != x
    ensures IndexOf(s, x) == k
  {
  }

  /** The contents after deleting `x`: the element the scan found taken out, or
      the contents unchanged when it found none. */
  function Remove(s: seq<string>, x: string): (r: seq<string>)
    ensures x in s ==> |r| == |s| - 1
    ensures x !in s ==> r == s
  {
    var k := IndexOf(s, x);
    if k < |s| then s[..k] + s[k + 1..] else s
  }

  /** Deleting keeps the contents sorted. */
  lemma RemoveSorted(s: seq<string>, x: string)
    requires Sorted(s)
    ensures Sorted(Remove(s, x))
  {
    var k := IndexOf(s, x);
    if 0 < k < |s| - 1 {
      var r := Remove(s, x);
      forall i | 0 < i < |r| ensures StrLess(r[i - 1], r[i]) {
        if i == k {
          StrLessTransitive(s[k - 1], s[k], s[k + 1]);
        }
      }
    }
  }

  /** Deleting from sorted contents leaves every other value and drops `x`
      entirely; the contents shrink by one exactly when `x` was present. */
  lemma RemoveElements(s: seq<string>, x: string)
    requires Sorted(s)
    ensures forall y :: y in Remove(s, x) <==> y in s && y != x
    ensures |Remove(s, x)| == if x in s then |s| - 1 else |s|
  {
    var k := IndexOf(s, x);
    if k < |s| {
      SortedHasNoDuplicates(s);
      assert s == s[..k] + [s[k]] + s[k + 1..];
    }
  }

  /** Deleting a value just inserted into contents that lacked it restores them
      (whether or not they were sorted). */
  lemma InsertThenRemove(s: seq<string>, x: string)
    requires x !in s
    ensures Remove(SortedInsert(s, x), x) == s
  {
  }

  /** Inserting a value just deleted from sorted contents that held it restores them. */
  lemma RemoveThenInsert(s: seq<string>, x: string)
    requires Sorted(s) && x in s
    ensures SortedInsert(Remove(s, x), x) == s
  {
    var k := IndexOf(s, x);
    var r := s[..k] + s[k + 1..];
    assert Remove(s, x) == r;
    forall j | 0 <= j < k ensures StrLess(r[j], x) {
      assert r[j] == s[j];
      SortedPairwise(s, j, k);
    }
    if k < |r| {
      assert r[k] == s[k + 1];
      StrLessTrichotomy(s[k], s[k + 1]);
    }
    FirstNotLessAt(r, x, k);
    SpliceBack(s, k);
  }

  /** Taking element `k` out and putting it back gives the sequence again. */
  lemma SpliceBack(s: seq<string>, k: nat)
    requires k < |s|
    ensures var r := s[..k] + s[k + 1..]; r[..k] + [s[k]] + r[k..] == s
  {
    var r := s[..k] + s[k + 1..];
    assert r[..k] == s[..k] && r[k..] == s[k + 1..];
  }

  /** Two sorted sequences with the same values are the same sequence. */
  lemma {:induction false} SortedUnique(a: seq<string>, b: seq<string>)
    requires Sorted(a) && Sorted(b)
    requires forall y :: y in a <==> y in b
    ensures a == b
  {
    if a != [] {
      assert a[0] in a;
    }
    if b != [] {
      assert b[0] in b;
    }
    if a != [] && b != [] {
      var i :| 0 <= i < |b| && b[i] == a[0];
      var j :| 0 <= j < |a| && a[j] == b[0];
      if i > 0 && j > 0 {
        SortedPairwise(a, 0, j);
        SortedPairwise(b, 0, i);
        StrLessTrichotomy(a[0], b[0]);
      }
      assert a[0] == b[0];
      SortedHasNoDuplicates(a);
      SortedHasNoDuplicates(b);
      forall y ensures y in a[1..] <==> y in b[1..] {
        if y in a[1..] {
          var m :| 1 <= m < |a| && a[m] == y;
          assert y != a[0];
          assert y in b;
        }
        if y in b[1..] {
          var m :| 1 <= m < |b| && b[m] == y;
          assert y != b[0];
          assert y in a;
        }
      }
      SortedUnique(a[1..], b[1..]);
    }
  }

  /** The contents after a series of inserts do not depend on the order in which
      the values arrived. */
  lemma SortedInsertCommutes(s: seq<string>, x: string, y: string)
    requires Sorted(s)
    ensures SortedInsert(SortedInsert(s, x), y) == SortedInsert(SortedInsert(s, y), x)
  {
    SortedInsertSorted(s, x);
    SortedInsertSorted(s, y);
    SortedInsertSorted(SortedInsert(s, x), y);
    SortedInsertSorted(SortedInsert(s, y), x);
    SortedInsertElements(s, x);
    SortedInsertElements(s, y);
    SortedInsertElements(SortedInsert(s, x), y);
    SortedInsertElements(SortedInsert(s, y), x);
    SortedUnique(SortedInsert(SortedInsert(s, x), y), SortedInsert(SortedInsert(s, y), x));
  }
}
