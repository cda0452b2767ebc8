/** Sequence helpers shared by the grid and the search: Python lists as Dafny sequences. */
module Seqs {

  /** No element occurs twice. */
  predicate NoDup<T(==)>(s: seq<T>)
  {
    forall i, j :: 0 <= i < j < |s| ==> s[i] != s[j]
  }

  /** Python's `list.remove(x)`: drops the first occurrence of `x` (the model's callers
      only remove elements that are present). */
  function RemoveFirst<T(==)>(s: seq<T>, x: T): (r: seq<T>)
    ensures multiset(r) == multiset(s) - multiset{x}
    ensures x in s ==> |r| == |s| - 1
    ensures x !in s ==> r == s
  {
    if s == [] then []
    else if s[0] == x then
      assert s == [s[0]] + s[1..];
      s[1..]
    else
      assert s == [s[0]] + s[1..];
      [s[0]] + RemoveFirst(s[1..], x)
  }

  /** `list.remove(x)` takes out the first occurrence of `x`, at `k`, and keeps the order
      of the rest. */
  lemma {:induction false} RemoveFirstAt<T>(s: seq<T>, x: T, k: nat)
    requires k < |s| && s[k] == x && x !in s[..k]
    ensures RemoveFirst(s, x) == s[..k] + s[k + 1..]
  {
    if k > 0 {
      var t := s[1..];
      assert s[0] != x by { assert s[0] == s[..k][0]; }
      assert x !in t[..k - 1] by { assert t[..k - 1] == s[1..k]; }
      RemoveFirstAt(t, x, k - 1);
      assert RemoveFirst(s, x) == [s[0]] + RemoveFirst(t, x);
      assert s[..k] == [s[0]] + t[..k - 1] && s[k + 1..] == t[k..];
    }
  }

  /** On a list without duplicates, removing `x` removes exactly `x` and keeps the rest distinct. */
  lemma {:induction false} RemoveFirstNoDup<T>(s: seq<T>, x: T)
    requires NoDup(s)
    ensures NoDup(RemoveFirst(s, x))
    ensures forall c :: c in RemoveFirst(s, x) <==> c in s && c != x
  {
    if s != [] {
      NoDupTail(s);
      if s[0] != x {
        RemoveFirstNoDup(s[1..], x);
        var r := RemoveFirst(s[1..], x);
        assert RemoveFirst(s, x) == [s[0]] + r;
        assert NoDup([s[0]] + r) by {
          forall i, j | 0 <= i < j < |r| + 1 ensures ([s[0]] + r)[i] != ([s[0]] + r)[j] {
            if i > 0 {
              assert ([s[0]] + r)[i] == r[i - 1] && ([s[0]] + r)[j] == r[j - 1];
            } else {
              assert ([s[0]] + r)[j] in r;
            }
          }
        }
      }
    }
  }

  /** The tail of a duplicate-free list is duplicate-free and misses the head. */
  lemma NoDupTail<T>(s: seq<T>)
    requires NoDup(s) && s != []
    ensures NoDup(s[1..]) && s[0] !in s[1..]
    ensures s == [s[0]] + s[1..]
  {
    var t := s[1..];
    forall i, j | 0 <= i < j < |t| ensures t[i] != t[j] {
      assert t[i] == s[i + 1] && t[j] == s[j + 1];
    }
  }

  /** Extending a prefix of `s` by one element. */
  lemma PrefixStep<T>(s: seq<T>, i: nat)
    requires i < |s|
    ensures s[..i + 1] == s[..i] + [s[i]]
    ensures NoDup(s) ==> s[i] !in s[..i]
  {
  }

  /** A prefix of full length is the sequence. */
  lemma PrefixFull<T>(s: seq<T>)
    ensures s[..|s|] == s
  {
  }
}
