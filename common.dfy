/**
 * Small vocabulary shared by the modules of the transport catalogue model:
 * an optional value (a nullable pointer, an empty std::optional), the
 * ordering std::string uses, and a model of std::sort on strings.
 */
module Common {

  datatype Option<T> = None | Some(value: T)

  /** Elements of a sequence, as a set (what inserting a range into an unordered_set yields). */
  function Elements<T>(s: seq<T>): set<T> {
    set x | x in s
  }

  /** No element occurs twice: the iteration order of a hash container. */
  predicate Distinct<T(==)>(s: seq<T>) {
    forall i, j :: 0 <= i < j < |s| ==> s[i] != s[j]
  }

  /** `order` lists each element of `members` exactly once: an iteration order of a hash container. */
  predicate Enumerates<T(==)>(order: seq<T>, members: set<T>) {
    Distinct(order) && (forall k :: 0 <= k < |order| ==> order[k] in members) && (forall x :: x in members ==> x in order)
  }

  function Reverse<T>(s: seq<T>): (r: seq<T>)
    ensures |r| == |s|
    ensures forall k :: 0 <= k < |s| ==> r[k] == s[|s| - 1 - k]
  {
    if s == [] then [] else Reverse(s[1..]) + [s[0]]
  }

  /**
   * A back-and-forth line: the stops as listed, then the same stops again in
   * reverse order back to the first one; the last listed stop is not repeated.
   */
  function OutAndBack<T>(s: seq<T>): (r: seq<T>)
    requires |s| >= 1
    ensures |r| == 2 * |s| - 1
    ensures forall k :: 0 <= k < |s| ==> r[k] == s[k]
    ensures forall k :: |s| <= k < |r| ==> r[k] == s[2 * |s| - 2 - k]
    ensures forall k :: 0 <= k < |r| ==> r[k] == r[|r| - 1 - k]
  {
    s + Reverse(s[..|s| - 1])
  }

  /** The position of the first x in s, if any: what a linear search for x finds. */
  function IndexOf<T(==)>(s: seq<T>, x: T): (r: Option<nat>)
    ensures r.None? <==> x !in s
    ensures r.Some? ==> r.value < |s| && s[r.value] == x && forall k :: 0 <= k < r.value ==> s[k] != x
  {
    if s == [] then None
    else if s[0] == x then Some(0)
    else match IndexOf(s[1..], x) {
      case None => None
      case Some(k) => Some(k + 1)
    }
  }

  /** Number of occurrences of x in s. */
  function Count<T(==)>(s: seq<T>, x: T): nat {
    if s == [] then 0 else Count(s[..|s| - 1], x) + (if s[|s| - 1] == x then 1 else 0)
  }

  function Repeat<T>(x: T, n: nat): (r: seq<T>)
    ensures |r| == n && forall k :: 0 <= k < n ==> r[k] == x
  {
    if n == 0 then [] else Repeat(x, n - 1) + [x]
  }

  // ---------------------------------------------------------------------------
  // std::string's operator<: lexicographic, character by character; a proper
  // prefix is smaller than the longer string.

  predicate Less(a: string, b: string) {
    if |a| == 0 then |b| > 0
    else if |b| == 0 then false
    else a[0] < b[0] || (a[0] == b[0] && Less(a[1..], b[1..]))
  }

  predicate LessEq(a: string, b: string) {
    a == b || Less(a, b)
  }

  lemma {:induction false} LessAsymmetric(a: string, b: string)
    ensures !(Less(a, b) && Less(b, a))
  {
    if |a| > 0 && |b| > 0 && a[0] == b[0] {
      LessAsymmetric(a[1..], b[1..]);
    }
  }

  lemma {:induction false} LessIrreflexive(a: string)
    ensures !Less(a, a)
  {
    LessAsymmetric(a, a);
  }

  lemma {:induction false} LessTransitive(a: string, b: string, c: string)
    requires Less(a, b) && Less(b, c)
    ensures Less(a, c)
  {
    if |a| > 0 && a[0] == b[0] && b[0] == c[0] {
      LessTransitive(a[1..], b[1..], c[1..]);
    }
  }

  lemma {:induction false} LessTotal(a: string, b: string)
    ensures a == b || Less(a, b) || Less(b, a)
  {
    if |a| > 0 && |b| > 0 && a[0] == b[0] {
      LessTotal(a[1..], b[1..]);
      if a[1..] == b[1..] {
        assert a == [a[0]] + a[1..] && b == [b[0]] + b[1..];
      }
    }
  }

  lemma LessEqTransitive(a: string, b: string, c: string)
    requires LessEq(a, b) && LessEq(b, c)
    ensures LessEq(a, c)
  {
    if a != b && b != c {
      LessTransitive(a, b, c);
    }
  }

  lemma LessEqAntisymmetric(a: string, b: string)
    requires LessEq(a, b) && LessEq(b, a)
    ensures a == b
  {
    LessAsymmetric(a, b);
  }

  /** Ascending order, as std::sort leaves a vector of strings. */
  predicate Sorted(s: seq<string>) {
    forall i, j :: 0 <= i < j < |s| ==> LessEq(s[i], s[j])
  }

  /** Inserts x before the first element it does not exceed. */
  function Insert(x: string, s: seq<string>): (r: seq<string>)
    requires Sorted(s)
    ensures multiset(r) == multiset(s) + multiset{x}
    ensures Sorted(r)
  {
    if s == [] then [x]
    else if LessEq(x, s[0]) then
      assert forall j :: 0 <= j < |s| ==> LessEq(x, s[j]) by {
        forall j | 0 <= j < |s| ensures LessEq(x, s[j]) {
          LessEqTransitive(x, s[0], s[j]);
        }
      }
      [x] + s
    else
      LessTotal(x, s[0]);
      var t := Insert(x, s[1..]);
      assert s == [s[0]] + s[1..];
      LowerBound(s[0], x, s[1..], t);
      [s[0]] + t
  }

  /** A lower bound of x and of every element of `rest` bounds any arrangement of them. */
  lemma LowerBound(low: string, x: string, rest: seq<string>, t: seq<string>)
    requires LessEq(low, x) && forall j :: 0 <= j < |rest| ==> LessEq(low, rest[j])
    requires multiset(t) == multiset(rest) + multiset{x}
    ensures forall j :: 0 <= j < |t| ==> LessEq(low, t[j])
  {
    forall j | 0 <= j < |t| ensures LessEq(low, t[j]) {
      assert t[j] in multiset(t);
      if t[j] != x {
        assert t[j] in multiset(rest);
        var k :| 0 <= k < |rest| && rest[k] == t[j];
      }
    }
  }

  /** The effect of std::sort on a vector of strings: an ascending permutation. */
  function Sort(s: seq<string>): (r: seq<string>)
    ensures multiset(r) == multiset(s)
    ensures Sorted(r)
  {
    if s == [] then []
    else
      assert s == [s[0]] + s[1..];
      Insert(s[0], Sort(s[1..]))
  }

  /**
   * An ascending permutation is unique, so the result of sorting does not
   * depend on the order in which a hash container handed out the elements.
   */
  lemma {:induction false} SortedPermutationUnique(a: seq<string>, b: seq<string>)
    requires Sorted(a) && Sorted(b) && multiset(a) == multiset(b)
    ensures a == b
  {
    if a != [] {
      assert |b| == |a| by {
        assert |multiset(a)| == |a| && |multiset(b)| == |b|;
      }
      assert a[0] in multiset(b) && b[0] in multiset(a);
      var i :| 0 <= i < |b| && b[i] == a[0];
      var j :| 0 <= j < |a| && a[j] == b[0];
      assert LessEq(b[0], a[0]) && LessEq(a[0], b[0]);
      LessEqAntisymmetric(a[0], b[0]);
      assert a == [a[0]] + a[1..] && b == [b[0]] + b[1..];
      assert multiset(a) == multiset{a[0]} + multiset(a[1..]);
      assert multiset(b) == multiset{b[0]} + multiset(b[1..]);
      calc {
        multiset(a[1..]);
        multiset(a) - multiset{a[0]};
        multiset(b) - multiset{b[0]};
        multiset(b[1..]);
      }
      SortedPermutationUnique(a[1..], b[1..]);
    }
  }

  /** Sorting a sequence without repetitions gives a strictly ascending sequence. */
  lemma SortedDistinctIsStrict(s: seq<string>)
    requires Sorted(s) && Distinct(s)
    ensures forall i, j :: 0 <= i < j < |s| ==> Less(s[i], s[j])
  {
  }

  lemma {:induction false} DistinctMultiplicity<T>(s: seq<T>, x: T)
    requires Distinct(s)
    ensures multiset(s)[x] <= 1
  {
    if s != [] {
      var last := s[|s| - 1];
      assert s == s[..|s| - 1] + [last];
      DistinctMultiplicity(s[..|s| - 1], x);
      if x == last {
        assert x !in s[..|s| - 1];
      }
    }
  }

  lemma DistinctMultiset<T>(s: seq<T>, t: seq<T>)
    requires Distinct(s) && multiset(s) == multiset(t)
    ensures Distinct(t)
  {
    forall i, j | 0 <= i < j < |t| ensures t[i] != t[j] {
      if t[i] == t[j] {
        assert multiset(t)[t[i]] >= 2 by {
          assert t == t[..i] + [t[i]] + t[i + 1..j] + [t[j]] + t[j + 1..];
        }
        DistinctMultiplicity(s, t[i]);
        assert false;
      }
    }
  }

  /** A set built from a sequence has at most as many elements as the sequence. */
  lemma {:induction false} ElementsCardinality<T>(s: seq<T>)
    ensures |Elements(s)| <= |s|
    ensures Distinct(s) ==> |Elements(s)| == |s|
  {
    if s != [] {
      var init := s[..|s| - 1];
      ElementsCardinality(init);
      assert Elements(s) == Elements(init) + {s[|s| - 1]};
      if Distinct(s) {
        assert Distinct(init);
        assert s[|s| - 1] !in Elements(init);
      }
    }
  }

  /** Two enumerations without repetition of the same set are permutations of each other. */
  lemma DistinctSameElements<T>(a: seq<T>, b: seq<T>)
    requires Distinct(a) && Distinct(b) && Elements(a) == Elements(b)
    ensures multiset(a) == multiset(b)
  {
    forall x ensures multiset(a)[x] == multiset(b)[x] {
      DistinctMultiplicity(a, x);
      DistinctMultiplicity(b, x);
      assert x in a <==> x in Elements(a);
      assert x in b <==> x in Elements(b);
    }
  }

  /** Appending one more element after a concatenation. */
  lemma AppendOne<T>(a: seq<T>, b: seq<T>, x: T)
    ensures a + (b + [x]) == (a + b) + [x]
  {
  }

  /** Pushing x and then appending the rest is appending x followed by the rest. */
  lemma PushThenRest<T>(a: seq<T>, x: T, rest: seq<T>)
    ensures (a + [x]) + rest == a + ([x] + rest)
  {
  }

  /**
   * The loop both readers use to run a back-and-forth line back: it appends
   * the stops before the last one in reverse order.
   */
  method ExpandOutAndBack<T>(listed: seq<T>) returns (stops: seq<T>)
    requires |listed| >= 1
    ensures stops == OutAndBack(listed)
  {
    var n := |listed|;
    stops := listed;
    var i := n - 1;
    while i > 0
      invariant 0 <= i <= n - 1 && |stops| == 2 * n - 1 - i
      invariant stops[..n] == listed
      invariant forall k :: n <= k < |stops| ==> stops[k] == listed[2 * n - 2 - k]
    {
      stops := stops + [stops[i - 1]];
      i := i - 1;
    }
    assert forall k :: 0 <= k < |stops| ==> stops[k] == OutAndBack(listed)[k];
  }

  /** The elements of s that satisfy p, in their order in s. */
  function Filter<T>(s: seq<T>, p: T -> bool): seq<T> {
    if s == [] then [] else Filter(s[..|s| - 1], p) + if p(s[|s| - 1]) then [s[|s| - 1]] else []
  }

  /** How many elements of s satisfy p. */
  function CountIf<T>(s: seq<T>, p: T -> bool): nat {
    if s == [] then 0 else CountIf(s[..|s| - 1], p) + if p(s[|s| - 1]) then 1 else 0
  }

  /** Filtering keeps exactly the elements that satisfy p, one per such position. */
  lemma {:induction false} FilterKeeps<T>(s: seq<T>, p: T -> bool)
    ensures |Filter(s, p)| == CountIf(s, p) <= |s|
    ensures forall x :: x in Filter(s, p) <==> x in s && p(x)
  {
    if s != [] {
      var init := s[..|s| - 1];
      FilterKeeps(init, p);
      assert s == init + [s[|s| - 1]];
    }
  }

  /** An element that satisfies p lands after the ones before it that do: filtering keeps the order. */
  lemma {:induction false} FilterAt<T>(s: seq<T>, p: T -> bool, k: nat)
    requires k < |s| && p(s[k])
    ensures CountIf(s[..k], p) < |Filter(s, p)| && Filter(s, p)[CountIf(s[..k], p)] == s[k]
    decreases |s|
  {
    var init := s[..|s| - 1];
    FilterKeeps(init, p);
    if k == |s| - 1 {
      assert s[..k] == init;
    } else {
      assert init[..k] == s[..k];
      FilterAt(init, p, k);
    }
  }

  lemma MulAtLeast(p: int, x: int)
    requires p > 0 && x >= 1
    ensures p * x >= p
  {
    if x > 1 {
      MulAtLeast(p, x - 1);
      assert p * x == p * (x - 1) + p;
    }
  }

  /** The remainder of q * p + r is r when 0 <= r < p. */
  lemma ModUnique(a: int, p: int, q: int, r: int)
    requires p > 0 && 0 <= r < p && a == q * p + r
    ensures a % p == r
  {
    var x := a / p - q;
    assert p * x == r - a % p;
    if x >= 1 {
      MulAtLeast(p, x);
    } else if x <= -1 {
      MulAtLeast(p, -x);
      assert p * -x == -(p * x);
    }
  }

  /** A counter modulo p steps up by one and returns to 0 at p. */
  lemma ModNext(n: nat, p: nat)
    requires p > 0
    ensures (n + 1) % p == if n % p + 1 == p then 0 else n % p + 1
  {
    var q, r := n / p, n % p;
    assert n == q * p + r;
    if r + 1 == p {
      assert n + 1 == (q + 1) * p + 0;
      ModUnique(n + 1, p, q + 1, 0);
    } else {
      ModUnique(n + 1, p, q, r + 1);
    }
  }

  /** Filtering one element more: it is kept exactly when it satisfies p. */
  lemma FilterNext<T>(s: seq<T>, p: T -> bool, i: nat)
    requires i < |s|
    ensures Filter(s[..i + 1], p) == Filter(s[..i], p) + if p(s[i]) then [s[i]] else []
  {
    assert s[..i + 1][..i] == s[..i];
  }

  /** Sorting keeps exactly the elements it was given. */
  lemma SortKeeps(s: seq<string>)
    ensures forall x :: x in Sort(s) <==> x in s
  {
    assert forall x :: x in Sort(s) <==> x in multiset(Sort(s));
  }

  /** Filtering a sequence without repetitions leaves none. */
  lemma {:induction false} FilterDistinct<T>(s: seq<T>, p: T -> bool)
    requires Distinct(s)
    ensures Distinct(Filter(s, p))
  {
    if s != [] {
      var init := s[..|s| - 1];
      assert Distinct(init);
      FilterDistinct(init, p);
      FilterKeeps(init, p);
      assert s[|s| - 1] !in init;
    }
  }

  /** Filtering a sorted sequence leaves it sorted. */
  lemma {:induction false} FilterSorted(s: seq<string>, p: string -> bool)
    requires Sorted(s)
    ensures Sorted(Filter(s, p))
  {
    if s != [] {
      var init := s[..|s| - 1];
      FilterSorted(init, p);
      FilterKeeps(init, p);
      var f := Filter(init, p);
      var last := s[|s| - 1];
      forall x | x in f ensures LessEq(x, last) {
        var i :| 0 <= i < |init| && init[i] == x;
        assert s[i] == x;
      }
      if p(last) {
        var r := f + [last];
        forall i, j | 0 <= i < j < |r| ensures LessEq(r[i], r[j]) {
          assert r[i] == f[i] && r[i] in f;
        }
      }
    }
  }
}
