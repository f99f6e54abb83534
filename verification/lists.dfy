/** Python's `list.remove` (drop the first occurrence), which the membership
    code relies on, the position where it cuts, and the "no duplicates"
    invariant. */
module Lists {

  /** No element occurs twice. */
  predicate NoDuplicates<T(==)>(s: seq<T>) {
    forall i, j :: 0 <= i < j < |s| ==> s[i] != s[j]
  }

  /** The position of the first occurrence of `x` in `s`: where
      `list.remove` cuts. */
  function IndexOf<T(==)>(s: seq<T>, x: T): (i: nat)
    requires x in s
    ensures i < |s| && s[i] == x
    ensures x !in s[..i]
  {
    if s[0] == x then 0
    else
      var k := IndexOf(s[1..], x);
      assert s[..k + 1] == [s[0]] + s[1..][..k];
      1 + k
  }

  /** `list.remove(x)`: the list without the first occurrence of `x`; the
      other elements keep their relative order. Python raises `ValueError`
      when `x` is absent, hence the precondition. */
  function RemoveFirst<T(==)>(s: seq<T>, x: T): (r: seq<T>)
    requires x in s
    ensures |r| == |s| - 1
  {
    if s[0] == x then s[1..] else [s[0]] + RemoveFirst(s[1..], x)
  }

  /** Cutting position `k + 1` out of a list is cutting position `k` out of
      its tail, behind the head. */
  lemma CutBehindHead<T>(s: seq<T>, k: nat)
    requires k + 1 < |s|
    ensures s[..k + 1] + s[k + 2..] == [s[0]] + (s[1..][..k] + s[1..][k + 1..])
  {
    var l := s[..k + 1] + s[k + 2..];
    var r := [s[0]] + (s[1..][..k] + s[1..][k + 1..]);
    assert |l| == |r|;
    forall a | 0 <= a < |l|
      ensures l[a] == r[a]
    {
      if a == 0 {
      } else if a <= k {
        assert r[a] == s[1..][..k][a - 1];
      } else {
        assert r[a] == s[1..][k + 1..][a - 1 - k];
      }
    }
  }

  /** `list.remove` cuts out exactly the first occurrence: what precedes it
      and what follows it are kept, in order. */
  lemma {:induction false} RemoveFirstCutsFirstOccurrence<T>(s: seq<T>, x: T)
    requires x in s
    ensures RemoveFirst(s, x) == s[..IndexOf(s, x)] + s[IndexOf(s, x) + 1..]
  {
    if s[0] == x {
      assert IndexOf(s, x) == 0 && RemoveFirst(s, x) == s[1..];
      assert s[..0] + s[1..] == s[1..];
    } else {
      var t := s[1..];
      var k := IndexOf(t, x);
      assert IndexOf(s, x) == k + 1;
      assert RemoveFirst(s, x) == [s[0]] + RemoveFirst(t, x);
      RemoveFirstCutsFirstOccurrence(t, x);
      CutBehindHead(s, k);
    }
  }

  /** Indexing a list with position `i` cut out. */
  lemma CutIndex<T>(s: seq<T>, i: nat, a: nat)
    requires i < |s| && a < |s| - 1
    ensures (s[..i] + s[i + 1..])[a] == s[if a < i then a else a + 1]
  {
  }

  /** Cutting a position out of a duplicate-free list keeps it
      duplicate-free and leaves no copy of the element that stood there. */
  lemma CutNoDuplicates<T>(s: seq<T>, i: nat)
    requires i < |s| && NoDuplicates(s)
    ensures NoDuplicates(s[..i] + s[i + 1..])
    ensures s[i] !in s[..i] + s[i + 1..]
  {
    var c := s[..i] + s[i + 1..];
    forall a, b | 0 <= a < b < |c|
      ensures c[a] != c[b]
    {
      CutIndex(s, i, a);
      CutIndex(s, i, b);
    }
    forall a | 0 <= a < |c|
      ensures c[a] != s[i]
    {
      CutIndex(s, i, a);
    }
  }

  /** Dropping the first occurrence from a duplicate-free list removes the
      element altogether and keeps the list duplicate-free. */
  lemma RemoveFirstNoDuplicates<T>(s: seq<T>, x: T)
    requires x in s
    requires NoDuplicates(s)
    ensures NoDuplicates(RemoveFirst(s, x))
    ensures x !in RemoveFirst(s, x)
  {
    RemoveFirstCutsFirstOccurrence(s, x);
    CutNoDuplicates(s, IndexOf(s, x));
  }

  /** `list.remove` takes exactly one copy of the element out of the list's
      contents and leaves every other element's count as it was. */
  lemma RemoveFirstMultiset<T>(s: seq<T>, x: T)
    requires x in s
    ensures multiset(RemoveFirst(s, x)) == multiset(s) - multiset{x}
  {
    var i := IndexOf(s, x);
    RemoveFirstCutsFirstOccurrence(s, x);
    assert s == s[..i] + [x] + s[i + 1..];
  }

  /** The first occurrence of an element appended to a list that did not
      contain it is the appended one. */
  lemma IndexOfAppended<T>(s: seq<T>, x: T)
    requires x !in s
    ensures IndexOf(s + [x], x) == |s|
  {
  }
}
