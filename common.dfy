/** Value types and sequence helpers shared by the Wordle and MazeRunner models:
    Python's `None`-or-value results, `seq.index`, order-preserving filtering
    and the subsequence relation. */
module Common {

  /** Python's `Optional[T]`: `None` or a value. */
  datatype Option<T> = None | Some(value: T)

  /** Which reading of a step that the source gets wrong a model follows:
      the code as written, or the behaviour it evidently intends. */
  datatype Variant = AsWritten | Corrected

  /** Python's `s.index(x)`: the first position of `x` in `s`. */
  function IndexOf<T(==)>(s: seq<T>, x: T): (i: nat)
    requires x in s
    ensures i < |s| && s[i] == x
    ensures x !in s[..i]
  {
    if s[0] == x then 0 else 1 + IndexOf(s[1..], x)
  }

  /** Python's `zip(a, b)`: pairs up elements until the shorter input runs out. */
  function Zip<A, B>(a: seq<A>, b: seq<B>): (z: seq<(A, B)>)
    ensures |z| == if |a| < |b| then |a| else |b|
    ensures forall t :: 0 <= t < |z| ==> z[t] == (a[t], b[t])
  {
    if a == [] || b == [] then [] else [(a[0], b[0])] + Zip(a[1..], b[1..])
  }

  /** The first position holding `x` is the one before which `x` does not occur. */
  lemma IndexOfAt<T>(s: seq<T>, j: nat, x: T)
    requires j < |s| && s[j] == x && x !in s[..j]
    ensures IndexOf(s, x) == j
  {
  }

  /** The elements of `s` that satisfy `keep`, in their original order. */
  function Filter<T>(s: seq<T>, keep: T -> bool): (r: seq<T>)
    ensures |r| <= |s|
    ensures forall x :: x in r ==> x in s && keep(x)
  {
    if s == [] then []
    else Filter(s[..|s| - 1], keep) + (if keep(s[|s| - 1]) then [s[|s| - 1]] else [])
  }

  /** `sub` can be obtained from `s` by deleting elements. */
  predicate IsSubsequence<T(==)>(sub: seq<T>, s: seq<T>)
  {
    if sub == [] then true
    else if s == [] then false
    else if sub[|sub| - 1] == s[|s| - 1] then IsSubsequence(sub[..|sub| - 1], s[..|s| - 1])
    else IsSubsequence(sub, s[..|s| - 1])
  }

  /** No element occurs twice. */
  predicate NoDuplicates<T(==)>(s: seq<T>)
  {
    forall i, j :: 0 <= i < j < |s| ==> s[i] != s[j]
  }

  /** Filtering keeps exactly the elements that pass, each as often as before. */
  lemma {:induction false} FilterContents<T>(s: seq<T>, keep: T -> bool, x: T)
    ensures multiset(Filter(s, keep))[x] == if keep(x) then multiset(s)[x] else 0
    ensures x in Filter(s, keep) <==> x in s && keep(x)
  {
    if s != [] {
      var init, last := s[..|s| - 1], s[|s| - 1];
      FilterContents(init, keep, x);
      assert s == init + [last];
    }
  }

  /** Filtering a sequence whose every element passes changes nothing. */
  lemma {:induction false} FilterKeepsAll<T>(s: seq<T>, keep: T -> bool)
    requires forall x :: x in s ==> keep(x)
    ensures Filter(s, keep) == s
  {
    if s != [] {
      var init, last := s[..|s| - 1], s[|s| - 1];
      assert s == init + [last];
      FilterKeepsAll(init, keep);
    }
  }

  /** A filtered sequence is a subsequence of the original. */
  lemma {:induction false} FilterIsSubsequence<T>(s: seq<T>, keep: T -> bool)
    ensures IsSubsequence(Filter(s, keep), s)
  {
    if s != [] {
      var init, last := s[..|s| - 1], s[|s| - 1];
      FilterIsSubsequence(init, keep);
      if keep(last) {
        var f := Filter(init, keep) + [last];
        assert f[..|f| - 1] == Filter(init, keep);
      } else {
        SubsequenceOfPrefix(Filter(init, keep), init, last);
        assert init + [last] == s;
        assert Filter(init, keep) + [] == Filter(init, keep);
        assert Filter(s, keep) == Filter(init, keep);
      }
    }
  }

  /** A subsequence of `s` is also a subsequence of `s + [x]`. */
  lemma {:induction false} SubsequenceOfPrefix<T>(sub: seq<T>, s: seq<T>, x: T)
    requires IsSubsequence(sub, s)
    ensures IsSubsequence(sub, s + [x])
  {
    var t := s + [x];
    assert t[..|t| - 1] == s;
    if sub != [] && sub[|sub| - 1] == x {
      SubsequenceDropLast(sub, s);
    }
  }

  /** Dropping the last element of a subsequence leaves a subsequence. */
  lemma {:induction false} SubsequenceDropLast<T>(sub: seq<T>, s: seq<T>)
    requires sub != [] && IsSubsequence(sub, s)
    ensures IsSubsequence(sub[..|sub| - 1], s)
    decreases |s|
  {
    var init, s' := sub[..|sub| - 1], s[..|s| - 1];
    if init != [] {
      if sub[|sub| - 1] != s[|s| - 1] {
        SubsequenceDropLast(sub, s');
      }
      // now IsSubsequence(init, s') holds in both cases
      if init[|init| - 1] == s[|s| - 1] {
        SubsequenceDropLast(init, s');
      }
    }
  }

  /** Every element of a subsequence is an element of the original. */
  lemma {:induction false} SubsequenceMembers<T>(sub: seq<T>, s: seq<T>, x: T)
    requires IsSubsequence(sub, s) && x in sub
    ensures x in s
    decreases |s|
  {
    var s' := s[..|s| - 1];
    if sub[|sub| - 1] == s[|s| - 1] {
      if x != sub[|sub| - 1] {
        assert sub == sub[..|sub| - 1] + [sub[|sub| - 1]];
        SubsequenceMembers(sub[..|sub| - 1], s', x);
      }
    } else {
      SubsequenceMembers(sub, s', x);
    }
    assert s == s' + [s[|s| - 1]];
  }

  /** A subsequence of a sequence without duplicates has none either. */
  lemma {:induction false} SubsequenceNoDuplicates<T>(sub: seq<T>, s: seq<T>)
    requires IsSubsequence(sub, s) && NoDuplicates(s)
    ensures NoDuplicates(sub)
    decreases |s|
  {
    if sub != [] {
      var sub', s' := sub[..|sub| - 1], s[..|s| - 1];
      if sub[|sub| - 1] == s[|s| - 1] {
        SubsequenceNoDuplicates(sub', s');
        forall i | 0 <= i < |sub'|
          ensures sub'[i] != sub[|sub| - 1]
        {
          SubsequenceMembers(sub', s', sub'[i]);
        }
      } else {
        SubsequenceNoDuplicates(sub, s');
      }
    }
  }
}
