/** The array idioms the pages lean on, as functions over sequences:
    `Array.prototype.filter`, `[...new Set(xs)]` and `Array.prototype.indexOf`. */
module Seqs {

  /** No element occurs twice. */
  ghost predicate Unique<T>(s: seq<T>) {
    forall i, j :: 0 <= i < j < |s| ==> s[i] != s[j]
  }

  /** The elements of `s` that `keep` accepts, in their original order
      (`s.filter(keep)`). Every accepted element keeps its multiplicity and
      every rejected one disappears. */
  function Filter<T>(s: seq<T>, keep: T -> bool): (r: seq<T>)
    ensures |r| <= |s|
    ensures forall i :: 0 <= i < |r| ==> keep(r[i])
  {
    if s == [] then []
    else
      var rest := Filter(s[1..], keep);
      if keep(s[0]) then [s[0]] + rest else rest
  }

  /** Content of `Filter`: an accepted element occurs as often as in `s`, a
      rejected one not at all. */
  lemma {:induction false} FilterCount<T>(s: seq<T>, keep: T -> bool, x: T)
    ensures multiset(Filter(s, keep))[x] == if keep(x) then multiset(s)[x] else 0
  {
    if s != [] {
      assert s == [s[0]] + s[1..];
      FilterCount(s[1..], keep, x);
    }
  }

  /** Membership form of the content of `Filter`. */
  lemma FilterMembership<T>(s: seq<T>, keep: T -> bool, x: T)
    ensures x in Filter(s, keep) <==> x in s && keep(x)
  {
    FilterCount(s, keep, x);
    assert x in Filter(s, keep) <==> multiset(Filter(s, keep))[x] > 0;
    assert x in s <==> multiset(s)[x] > 0;
  }

  /** Filtering distributes over concatenation, so the survivors keep their
      relative order. */
  lemma {:induction false} FilterConcat<T>(a: seq<T>, b: seq<T>, keep: T -> bool)
    ensures Filter(a + b, keep) == Filter(a, keep) + Filter(b, keep)
  {
    if a == [] {
      assert a + b == b;
    } else {
      assert (a + b)[0] == a[0];
      assert (a + b)[1..] == a[1..] + b;
      FilterConcat(a[1..], b, keep);
    }
  }

  /** A sequence whose every element is accepted is its own filter. */
  lemma {:induction false} FilterKeepsAll<T>(s: seq<T>, keep: T -> bool)
    requires forall i :: 0 <= i < |s| ==> keep(s[i])
    ensures Filter(s, keep) == s
  {
    if s != [] {
      FilterKeepsAll(s[1..], keep);
    }
  }

  /** Filtering out a single rejected element cuts exactly that position. */
  lemma {:induction false} FilterDropsOne<T>(s: seq<T>, k: nat, keep: T -> bool)
    requires k < |s| && !keep(s[k])
    requires forall i :: 0 <= i < |s| && i != k ==> keep(s[i])
    ensures Filter(s, keep) == s[..k] + s[k + 1..]
  {
    if k == 0 {
      FilterKeepsAll(s[1..], keep);
    } else {
      FilterDropsOne(s[1..], k - 1, keep);
      assert s[1..][..k - 1] + s[1..][k..] == s[1..k] + s[k + 1..];
      assert s[..k] == [s[0]] + s[1..k];
    }
  }

  /** `a` is `b` with some elements left out and the rest in their order. */
  ghost predicate IsSubsequence<T>(a: seq<T>, b: seq<T>)
    decreases |b|
  {
    if a == [] then true
    else if b == [] then false
    else (a[0] == b[0] && IsSubsequence(a[1..], b[1..])) || IsSubsequence(a, b[1..])
  }

  /** The survivors of a filter keep their order. */
  lemma {:induction false} FilterIsSubsequence<T>(s: seq<T>, keep: T -> bool)
    ensures IsSubsequence(Filter(s, keep), s)
  {
    if s != [] {
      FilterIsSubsequence(s[1..], keep);
    }
  }

  /** In a sequence without repeats, the survivors of a filter keep their
      relative order: an earlier survivor sits earlier in `s`. */
  lemma {:induction false} FilterKeepsOrder<T>(s: seq<T>, keep: T -> bool, i: nat, j: nat)
    requires Unique(s)
    requires i < j < |Filter(s, keep)|
    ensures IndexOf(s, Filter(s, keep)[i]) < IndexOf(s, Filter(s, keep)[j])
  {
    var f, rest := Filter(s, keep), Filter(s[1..], keep);
    assert Unique(s[1..]) by {
      forall a, b | 0 <= a < b < |s[1..]| ensures s[1..][a] != s[1..][b] {
        assert s[1..][a] == s[a + 1] && s[1..][b] == s[b + 1];
      }
    }
    assert s[0] !in s[1..] by {
      forall k | 0 <= k < |s[1..]| ensures s[1..][k] != s[0] {
        assert s[1..][k] == s[k + 1];
      }
    }
    FilterMembership(s[1..], keep, f[j]);
    if keep(s[0]) && i == 0 {
      assert f[0] == s[0];
    } else {
      var i', j' := if keep(s[0]) then i - 1 else i, if keep(s[0]) then j - 1 else j;
      assert f[i] == rest[i'] && f[j] == rest[j'];
      FilterMembership(s[1..], keep, f[i]);
      FilterKeepsOrder(s[1..], keep, i', j');
    }
  }

  /** `s.map(f)`. */
  function MapSeq<T, U>(s: seq<T>, f: T -> U): (r: seq<U>)
    ensures |r| == |s|
    ensures forall i :: 0 <= i < |r| ==> r[i] == f(s[i])
  {
    seq(|s|, i requires 0 <= i < |s| => f(s[i]))
  }

  /** Mapping and then filtering is filtering first, by the same test seen
      through `f`, and then mapping. */
  lemma {:induction false} FilterAfterMap<T, U>(s: seq<T>, f: T -> U, keep: U -> bool, keepBefore: T -> bool)
    requires forall x :: keepBefore(x) == keep(f(x))
    ensures Filter(MapSeq(s, f), keep) == MapSeq(Filter(s, keepBefore), f)
  {
    if s != [] {
      assert MapSeq(s, f)[1..] == MapSeq(s[1..], f);
      FilterAfterMap(s[1..], f, keep, keepBefore);
    }
  }

  /** Filtering preserves uniqueness. */
  lemma FilterUnique<T>(s: seq<T>, keep: T -> bool)
    requires Unique(s)
    ensures Unique(Filter(s, keep))
  {
    var r := Filter(s, keep);
    forall x | x in multiset(r)
      ensures multiset(r)[x] <= 1
    {
      UniqueCount(s, x);
      FilterCount(s, keep, x);
    }
    CountUnique(r);
  }

  /** In a unique sequence every element occurs at most once. */
  lemma {:induction false} UniqueCount<T>(s: seq<T>, x: T)
    requires Unique(s)
    ensures multiset(s)[x] <= 1
  {
    if s != [] {
      assert s == [s[0]] + s[1..];
      UniqueCount(s[1..], x);
      if s[0] == x {
        assert x !in s[1..];
      }
    }
  }

  /** A sequence with no element counted twice is unique. */
  lemma {:induction false} CountUnique<T>(s: seq<T>)
    requires forall x :: multiset(s)[x] <= 1
    ensures Unique(s)
  {
    if s != [] {
      assert s == [s[0]] + s[1..];
      forall x ensures multiset(s[1..])[x] <= 1 {
        assert multiset(s)[x] == multiset([s[0]])[x] + multiset(s[1..])[x];
      }
      CountUnique(s[1..]);
      assert s[0] !in s[1..] by {
        assert multiset(s)[s[0]] == 1 + multiset(s[1..])[s[0]];
      }
      forall i, j | 0 <= i < j < |s| ensures s[i] != s[j] {
        if i == 0 {
          assert s[j] == s[1..][j - 1];
        } else {
          assert s[i] == s[1..][i - 1] && s[j] == s[1..][j - 1];
        }
      }
    }
  }

  /** `[...new Set(s)]`: the elements of `s` without repeats, each at the
      position of its first appearance. */
  function Dedup<T(==,!new)>(s: seq<T>): (r: seq<T>)
    ensures forall x :: x in r <==> x in s
    ensures Unique(r)
  {
    if s == [] then []
    else
      var d := Dedup(s[..|s| - 1]);
      assert s == s[..|s| - 1] + [s[|s| - 1]];
      if s[|s| - 1] in d then d else d + [s[|s| - 1]]
  }

  /** `s.indexOf(x)`: the first position holding `x`, or -1. */
  function IndexOf<T(==)>(s: seq<T>, x: T): (r: int)
    ensures -1 <= r < |s|
    ensures r == -1 <==> x !in s
    ensures 0 <= r ==> s[r] == x && x !in s[..r]
  {
    if s == [] then -1
    else if s[0] == x then 0
    else
      var k := IndexOf(s[1..], x);
      assert s[1..][..if k < 0 then 0 else k] == s[1..if k < 0 then 1 else k + 1];
      if k == -1 then -1 else k + 1
  }

  /** Any position holding `x` with no `x` before it is `IndexOf`'s answer. */
  lemma {:induction false} IndexOfIs<T>(s: seq<T>, x: T, i: nat)
    requires i < |s| && s[i] == x && x !in s[..i]
    ensures IndexOf(s, x) == i
  {
    if 0 < i {
      assert s[0] in s[..i];
      assert s[1..][..i - 1] == s[1..i];
      IndexOfIs(s[1..], x, i - 1);
    }
  }

  /** The position of `x` in `a + b` is its position in `a` when it occurs
      there, and otherwise `|a|` past its position in `b`. */
  lemma IndexOfAppend<T>(a: seq<T>, b: seq<T>, x: T)
    ensures x in a ==> IndexOf(a + b, x) == IndexOf(a, x)
    ensures x !in a && x in b ==> IndexOf(a + b, x) == |a| + IndexOf(b, x)
  {
    if x in a {
      var i := IndexOf(a, x);
      assert (a + b)[..i] == a[..i];
      IndexOfIs(a + b, x, i);
    } else if x in b {
      var i := IndexOf(b, x);
      assert (a + b)[..|a| + i] == a + b[..i];
      IndexOfIs(a + b, x, |a| + i);
    }
  }

  /** `Dedup` keeps the order of first appearance: of two elements of `s`,
      the one that appears first in `s` comes first in `Dedup(s)`. */
  lemma {:induction false} DedupKeepsFirstAppearanceOrder<T(!new)>(s: seq<T>, x: T, y: T)
    requires x in s && y in s
    ensures IndexOf(Dedup(s), x) < IndexOf(Dedup(s), y) <==> IndexOf(s, x) < IndexOf(s, y)
    decreases |s|
  {
    var t, z := s[..|s| - 1], s[|s| - 1];
    assert s == t + [z];
    var d := Dedup(t);
    IndexOfAppend(t, [z], x);
    IndexOfAppend(t, [z], y);
    if z in d {
      if x in t && y in t {
        DedupKeepsFirstAppearanceOrder(t, x, y);
      }
    } else {
      IndexOfAppend(d, [z], x);
      IndexOfAppend(d, [z], y);
      if x in t && y in t {
        DedupKeepsFirstAppearanceOrder(t, x, y);
      }
    }
  }
}
