/** Sequence facts shared by the pattern catalogue and the colour palette:
    occurrence counts, removal of every copy of a value, first-occurrence
    deduplication and sums. */
module Sequences {

  /** No value occurs twice in s. */
  ghost predicate NoDuplicates<T>(s: seq<T>) {
    forall i, j :: 0 <= i < j < |s| ==> s[i] != s[j]
  }

  /** Strictly increasing, hence without duplicates. */
  ghost predicate Ascending(s: seq<int>) {
    forall i, j :: 0 <= i < j < |s| ==> s[i] < s[j]
  }

  /** Number of occurrences of x in s. */
  function Count<T(==)>(s: seq<T>, x: T): (n: nat)
    ensures n <= |s|
    ensures n > 0 <==> x in s
  {
    if s == [] then 0
    else
      assert s == s[..|s| - 1] + [s[|s| - 1]];
      Count(s[..|s| - 1], x) + (if s[|s| - 1] == x then 1 else 0)
  }

  /** Counting over a concatenation. */
  lemma {:induction false} CountAppend<T>(a: seq<T>, b: seq<T>, x: T)
    ensures Count(a + b, x) == Count(a, x) + Count(b, x)
    decreases |b|
  {
    if b == [] {
      assert a + b == a;
    } else {
      var b' := b[..|b| - 1];
      assert (a + b)[..|a + b| - 1] == a + b';
      CountAppend(a, b', x);
    }
  }

  /** The position of the first occurrence of x in s. */
  function IndexOf<T(==)>(s: seq<T>, x: T): (i: nat)
    requires x in s
    ensures i < |s| && s[i] == x && x !in s[..i]
  {
    if s[0] == x then 0
    else
      assert s == [s[0]] + s[1..];
      1 + IndexOf(s[1..], x)
  }

  /** The first occurrence is unique: any index holding x with no x before it is IndexOf. */
  lemma IndexOfUnique<T>(s: seq<T>, x: T, i: nat)
    requires i < |s| && s[i] == x && x !in s[..i]
    ensures IndexOf(s, x) == i
  {
    var k := IndexOf(s, x);
    assert forall j :: 0 <= j < i ==> s[..i][j] == s[j];
    assert forall j :: 0 <= j < k ==> s[..k][j] == s[j];
  }

  /** s with every copy of x taken out, the others kept in order. */
  function RemoveAll<T(==,!new)>(s: seq<T>, x: T): (r: seq<T>)
    ensures x !in r
    ensures forall y :: y != x ==> Count(r, y) == Count(s, y)
    ensures |r| == |s| - Count(s, x)
  {
    if s == [] then []
    else
      var rest := RemoveAll(s[..|s| - 1], x);
      var last := s[|s| - 1];
      if last == x then rest
      else
        assert (rest + [last])[..|rest + [last]| - 1] == rest;
        rest + [last]
  }

  lemma {:induction false} RemoveAllAppendOne<T(!new)>(s: seq<T>, c: T, x: T)
    ensures RemoveAll(s + [c], x) == if c == x then RemoveAll(s, x) else RemoveAll(s, x) + [c]
  {
    assert (s + [c])[..|s + [c]| - 1] == s;
  }

  /** The first occurrence of every value of s, in the order they first appear. */
  function Firsts<T(==,!new)>(s: seq<T>): (r: seq<T>)
    ensures NoDuplicates(r)
    ensures forall y :: y in r <==> y in s
    ensures |r| <= |s|
  {
    if s == [] then []
    else
      var init := s[..|s| - 1];
      var last := s[|s| - 1];
      assert s == init + [last];
      var f := Firsts(init);
      if last in init then f else f + [last]
  }

  lemma FirstsAppendOne<T(!new)>(s: seq<T>, c: T)
    ensures Firsts(s + [c]) == if c in s then Firsts(s) else Firsts(s) + [c]
  {
    assert (s + [c])[..|s + [c]| - 1] == s;
  }

  /** Peeling the first sample: it opens the deduplicated list, and the rest is
      the deduplication of what remains once its copies are gone. */
  lemma {:induction false} FirstsCons<T(!new)>(x: T, rest: seq<T>)
    ensures Firsts([x] + rest) == [x] + Firsts(RemoveAll(rest, x))
    decreases |rest|
  {
    if rest == [] {
      assert [x] + rest == [] + [x];
      FirstsAppendOne([], x);
    } else {
      var init, c := rest[..|rest| - 1], rest[|rest| - 1];
      var r := RemoveAll(init, x);
      assert rest == init + [c];
      AppendAssociates([x], init, [c]);
      FirstsCons(x, init);
      FirstsAppendOne([x] + init, c);
      RemoveAllAppendOne(init, c, x);
      if c == x {
        assert c in [x] + init;
      } else {
        FirstsAppendOne(r, c);
        MemberRemoveAll(init, x, c);
        if c !in r {
          AppendAssociates([x], Firsts(r), [c]);
        }
      }
    }
  }

  lemma MemberRemoveAll<T(!new)>(s: seq<T>, x: T, y: T)
    requires y != x
    ensures y in RemoveAll(s, x) <==> y in s
  {
    assert Count(RemoveAll(s, x), y) == Count(s, y);
  }

  /** Deduplication keeps first-occurrence order. */
  lemma {:induction false} FirstsKeepOrder<T(!new)>(s: seq<T>, i: nat, j: nat)
    requires i < j < |Firsts(s)|
    ensures IndexOf(s, Firsts(s)[i]) < IndexOf(s, Firsts(s)[j])
    decreases |s|
  {
    var init := s[..|s| - 1];
    var c := s[|s| - 1];
    assert s == init + [c];
    FirstsAppendOne(init, c);
    var f := Firsts(init);
    var a := Firsts(s)[i];
    var b := Firsts(s)[j];
    assert a in init;
    IndexOfUnique(s, a, IndexOf(init, a));
    if j < |f| {
      FirstsKeepOrder(init, i, j);
      IndexOfUnique(s, b, IndexOf(init, b));
    } else {
      assert b == c && c !in init;
      IndexOfUnique(s, b, |init|);
    }
  }

  /** Sum of a sequence of integers. */
  function Sum(s: seq<int>): int {
    if s == [] then 0 else Sum(s[..|s| - 1]) + s[|s| - 1]
  }

  /** A sum of non-negative entries is non-negative. */
  lemma {:induction false} SumNonNegative(s: seq<int>)
    requires forall i :: 0 <= i < |s| ==> s[i] >= 0
    ensures Sum(s) >= 0
    decreases |s|
  {
    if s != [] {
      SumNonNegative(s[..|s| - 1]);
    }
  }

  lemma SumAppendOne(s: seq<int>, x: int)
    ensures Sum(s + [x]) == Sum(s) + x
  {
    assert (s + [x])[..|s + [x]| - 1] == s;
  }

  /** Replacing one entry changes the sum by the difference. */
  lemma {:induction false} SumUpdate(s: seq<int>, k: nat, v: int)
    requires k < |s|
    ensures Sum(s[k := v]) == Sum(s) - s[k] + v
    decreases |s|
  {
    var n := |s| - 1;
    if k == n {
      assert s[k := v][..n] == s[..n];
    } else {
      assert s[k := v][..n] == s[..n][k := v];
      SumUpdate(s[..n], k, v);
    }
  }

  /** Raising one entry by one raises the sum by one. */
  lemma {:induction false} SumBump(a: seq<int>, b: seq<int>, k: nat)
    requires |a| == |b| && k < |a|
    requires b[k] == a[k] + 1
    requires forall i :: 0 <= i < |a| && i != k ==> b[i] == a[i]
    ensures Sum(b) == Sum(a) + 1
    decreases |a|
  {
    var n := |a| - 1;
    if k == n {
      assert a[..n] == b[..n];
    } else {
      SumBump(a[..n], b[..n], k);
    }
  }

  /** Occurrence counts of every key in s. */
  function Counts<T(==)>(s: seq<T>, keys: seq<T>): (r: seq<int>)
    ensures |r| == |keys|
    ensures forall i :: 0 <= i < |keys| ==> r[i] == Count(s, keys[i])
  {
    seq(|keys|, i requires 0 <= i < |keys| => Count(s, keys[i]))
  }

  lemma CountAppendOne<T>(s: seq<T>, c: T, y: T)
    ensures Count(s + [c], y) == Count(s, y) + (if c == y then 1 else 0)
  {
    assert (s + [c])[..|s + [c]| - 1] == s;
  }

  /** The counts of the distinct values add up to the number of samples. */
  lemma {:induction false} CountsOfFirstsSum<T(!new)>(s: seq<T>)
    ensures Sum(Counts(s, Firsts(s))) == |s|
    decreases |s|
  {
    if s != [] {
      var init := s[..|s| - 1];
      var c := s[|s| - 1];
      assert s == init + [c];
      CountsOfFirstsSum(init);
      FirstsAppendOne(init, c);
      if c in init {
        CountsSumSeen(init, c, Firsts(init));
      } else {
        CountsSumUnseen(init, c, Firsts(init));
      }
    }
  }

  lemma CountsSumSeen<T>(init: seq<T>, c: T, f: seq<T>)
    requires NoDuplicates(f) && c in f
    ensures Sum(Counts(init + [c], f)) == Sum(Counts(init, f)) + 1
  {
    var k := IndexOf(f, c);
    var before := Counts(init, f);
    var after := Counts(init + [c], f);
    forall i | 0 <= i < |f| ensures after[i] == before[i] + (if i == k then 1 else 0) {
      CountAppendOne(init, c, f[i]);
    }
    SumBump(before, after, k);
  }

  lemma CountsSumUnseen<T>(init: seq<T>, c: T, f: seq<T>)
    requires c !in f
    ensures Sum(Counts(init + [c], f + [c])) == Sum(Counts(init, f)) + Count(init, c) + 1
  {
    var before := Counts(init, f);
    var after := Counts(init + [c], f + [c]);
    forall i | 0 <= i < |f| ensures after[i] == before[i] {
      CountAppendOne(init, c, f[i]);
    }
    CountAppendOne(init, c, c);
    assert after == before + [Count(init, c) + 1];
    SumAppendOne(before, Count(init, c) + 1);
  }

  /** A constant sequence deduplicates to its one value, which occurs |s| times. */
  lemma {:induction false} FirstsOfConstant<T(!new)>(s: seq<T>, x: T)
    requires |s| > 0
    requires forall i :: 0 <= i < |s| ==> s[i] == x
    ensures Firsts(s) == [x]
    ensures Count(s, x) == |s|
    decreases |s|
  {
    var init := s[..|s| - 1];
    assert s == init + [x];
    FirstsAppendOne(init, x);
    CountAppend(init, [x], x);
    assert Count([x], x) == Count([] + [x], x);
    if |init| > 0 {
      FirstsOfConstant(init, x);
    }
  }

  /** Deduplicating a prefix gives a prefix of the deduplication. */
  lemma {:induction false} FirstsPrefix<T(!new)>(a: seq<T>, b: seq<T>)
    ensures Firsts(a) <= Firsts(a + b)
    decreases |b|
  {
    if b == [] {
      assert a + b == a;
    } else {
      var b' := b[..|b| - 1];
      var c := b[|b| - 1];
      assert a + b == (a + b') + [c];
      FirstsPrefix(a, b');
      FirstsAppendOne(a + b', c);
    }
  }

  /** The first occurrence of a value is the same in any extension. */
  lemma IndexOfPrefix<T>(a: seq<T>, b: seq<T>, x: T)
    requires x in a && a <= b
    ensures IndexOf(b, x) == IndexOf(a, x)
  {
    var i := IndexOf(a, x);
    assert b[..i] == a[..i];
    IndexOfUnique(b, x, i);
  }

  /** In a sequence without duplicates every index is the first occurrence of its value. */
  lemma IndexOfDistinct<T>(s: seq<T>, i: nat)
    requires NoDuplicates(s) && i < |s|
    ensures IndexOf(s, s[i]) == i
  {
    IndexOfUnique(s, s[i], i);
  }

  lemma AppendAssociates<T>(a: seq<T>, b: seq<T>, c: seq<T>)
    ensures (a + b) + c == a + (b + c)
  {
  }

  /** A sequence from position i on is its element i followed by the rest. */
  lemma SplitAt<T>(s: seq<T>, i: int)
    requires 0 <= i < |s|
    ensures s[i..] == [s[i]] + s[i + 1..]
  {
  }

  /** The empty sequence is a left unit of concatenation. */
  lemma EmptyPrefix<T>(s: seq<T>)
    ensures [] + s == s
  {
  }

  /** Cutting a concatenation at the seam gives back its two parts. */
  lemma CutAtSeam<T>(a: seq<T>, b: seq<T>)
    ensures (a + b)[..|a|] == a && (a + b)[|a|..] == b
  {
  }

  /** Of two updates of the same entry only the second one shows. */
  lemma UpdateTwice<T>(s: seq<T>, k: int, x: T, y: T)
    requires 0 <= k < |s|
    ensures s[k := x][k := y] == s[k := y]
  {
  }
}
