/**
 * Orderings. An ordering `o` of `n` items says that position `i` receives
 * the item originally at index `o[i]`; a transformation is only ever made
 * from an ordering that is a permutation of `[0, n)`.
 */
module Permutations {

  predicate InRange(o: seq<nat>, n: nat) {
    forall i :: 0 <= i < |o| ==> o[i] < n
  }

  predicate Distinct<T(==)>(s: seq<T>) {
    forall i, j :: 0 <= i < j < |s| ==> s[i] != s[j]
  }

  predicate IsPermutation(o: seq<nat>, n: nat) {
    |o| == n && InRange(o, n) && Distinct(o)
  }

  /**
   * What the tool needs of an ordering it indexes with, for `n` items: for
   * every item index `i`, `o[i]` is an item index too.
   */
  predicate OrderingFor(o: seq<nat>, n: nat) {
    n <= |o| && forall i :: 0 <= i < n ==> o[i] < n
  }

  lemma PermutationIsOrderingFor(o: seq<nat>, n: nat)
    requires IsPermutation(o, n)
    ensures OrderingFor(o, n) && o[..n] == o
  {
  }

  /** `std::iota` over a vector of `n` elements: the ordering that changes nothing. */
  function Identity(n: nat): (r: seq<nat>)
    ensures |r| == n
  {
    seq(n, i => i)
  }

  lemma IdentityIsPermutation(n: nat)
    ensures IsPermutation(Identity(n), n)
  {
  }

  /** Slot `i` of the result holds `xs[o[i]]`. */
  function Apply<T>(o: seq<nat>, xs: seq<T>): (r: seq<T>)
    requires InRange(o, |xs|)
    ensures |r| == |o|
  {
    seq(|o|, i requires 0 <= i < |o| => xs[o[i]])
  }

  lemma ApplyIdentity<T>(xs: seq<T>)
    ensures Apply(Identity(|xs|), xs) == xs
  {
  }

  /** Shuffling a permutation again (as `std::shuffle` does in place) yields a permutation. */
  lemma ApplyPreservesPermutation(s: seq<nat>, o: seq<nat>, n: nat)
    requires IsPermutation(s, n) && IsPermutation(o, n)
    ensures IsPermutation(Apply(s, o), n)
  {
    var r := Apply(s, o);
    forall i, j | 0 <= i < j < n
      ensures r[i] != r[j]
    {
      assert s[i] != s[j];
    }
  }

  /** The values `o[0..k)`. */
  function Image(o: seq<nat>, k: nat): set<nat>
    requires k <= |o|
  {
    set i | 0 <= i < k :: o[i]
  }

  lemma {:induction false} ImageSize(o: seq<nat>, k: nat)
    requires k <= |o| && Distinct(o)
    ensures |Image(o, k)| == k
  {
    if k > 0 {
      ImageSize(o, k - 1);
      assert Image(o, k) == Image(o, k - 1) + {o[k - 1]};
      assert o[k - 1] !in Image(o, k - 1);
    }
  }

  lemma {:induction false} SubsetSize(a: set<nat>, b: set<nat>)
    requires a <= b
    ensures |a| <= |b|
    decreases |a|
  {
    if a != {} {
      var y :| y in a;
      SubsetSize(a - {y}, b - {y});
    }
  }

  lemma SubsetOfEqualSize(a: set<nat>, b: set<nat>)
    requires a <= b && |a| == |b|
    ensures a == b
  {
    if a != b {
      assert exists x :: x in b && x !in a;
      var x :| x in b && x !in a;
      SubsetSize(a, b - {x});
    }
  }

  /** A permutation of `[0, n)` takes every value below `n`. */
  lemma PermutationSurjective(o: seq<nat>, n: nat, v: nat)
    requires IsPermutation(o, n) && v < n
    ensures v in o
  {
    var id := Identity(n);
    ImageSize(o, n);
    ImageSize(id, n);
    assert Image(o, n) <= Image(id, n) by {
      forall i | 0 <= i < n
        ensures o[i] in Image(id, n)
      {
        assert id[o[i]] == o[i];
      }
    }
    SubsetOfEqualSize(Image(o, n), Image(id, n));
    assert id[v] == v;
    assert v in Image(o, n);
    var i :| 0 <= i < n && o[i] == v;
  }

  /** The index at which `v` occurs in `o`. */
  function IndexOf(o: seq<nat>, v: nat): (i: nat)
    requires v in o
    ensures i < |o| && o[i] == v
    ensures forall j :: 0 <= j < i ==> o[j] != v
  {
    if o[0] == v then 0 else 1 + IndexOf(o[1..], v)
  }

  /** The ordering that undoes `o`. */
  function Inverse(o: seq<nat>): (r: seq<nat>)
    requires IsPermutation(o, |o|)
    ensures |r| == |o|
  {
    seq(|o|, v requires 0 <= v < |o| => (PermutationSurjective(o, |o|, v); IndexOf(o, v)))
  }

  lemma InverseIsPermutation(o: seq<nat>)
    requires IsPermutation(o, |o|)
    ensures IsPermutation(Inverse(o), |o|)
    ensures forall v :: 0 <= v < |o| ==> o[Inverse(o)[v]] == v
    ensures forall i :: 0 <= i < |o| ==> Inverse(o)[o[i]] == i
  {
    var r := Inverse(o);
    forall i | 0 <= i < |o|
      ensures r[o[i]] == i
    {
      var k := r[o[i]];
      assert o[k] == o[i];
    }
  }

  /** Undoing a reordering recovers the original list. */
  lemma ApplyInverseRoundTrip<T>(o: seq<nat>, xs: seq<T>)
    requires IsPermutation(o, |xs|)
    ensures InRange(Inverse(o), |Apply(o, xs)|)
    ensures Apply(Inverse(o), Apply(o, xs)) == xs
  {
    InverseIsPermutation(o);
  }

  /** Reordering by the inverse and then by `o` also changes nothing. */
  lemma InverseApplyRoundTrip<T>(o: seq<nat>, xs: seq<T>)
    requires IsPermutation(o, |xs|)
    ensures InRange(Inverse(o), |xs|)
    ensures Apply(o, Apply(Inverse(o), xs)) == xs
  {
    InverseIsPermutation(o);
  }

  /** Below two items there is only the identity ordering. */
  lemma {:induction false} SmallPermutationIsIdentity(o: seq<nat>, n: nat)
    requires IsPermutation(o, n) && n < 2
    ensures o == Identity(n)
  {
    if n == 1 {
      assert o[0] == 0;
    }
  }

  /** Two items admit exactly one ordering other than the identity. */
  lemma TwoItemPermutations(o: seq<nat>)
    requires IsPermutation(o, 2)
    ensures o == [0, 1] || o == [1, 0]
  {
    assert o[0] < 2 && o[1] < 2 && o[0] != o[1];
  }

  // --------------------------------------------------------- enumeration

  /** `p` with `v` inserted before index `j`. */
  function Insert(p: seq<nat>, v: nat, j: nat): (r: seq<nat>)
    requires j <= |p|
    ensures |r| == |p| + 1
    ensures r[j] == v
    ensures forall i :: 0 <= i < j ==> r[i] == p[i]
    ensures forall i :: j < i < |r| ==> r[i] == p[i - 1]
  {
    p[..j] + [v] + p[j..]
  }

  /** `o` without the element at index `j`. */
  function Remove(o: seq<nat>, j: nat): (r: seq<nat>)
    requires j < |o|
    ensures |r| == |o| - 1
    ensures forall i :: 0 <= i < j ==> r[i] == o[i]
    ensures forall i :: j <= i < |r| ==> r[i] == o[i + 1]
  {
    o[..j] + o[j + 1..]
  }

  /** `v` inserted at each position of `p`, first to last. */
  function InsertAll(p: seq<nat>, v: nat): (r: seq<seq<nat>>)
    ensures |r| == |p| + 1
    ensures forall j :: 0 <= j <= |p| ==> r[j] == Insert(p, v, j)
  {
    seq(|p| + 1, j requires 0 <= j <= |p| => Insert(p, v, j))
  }

  /** `InsertAll(p, v)` for each `p` of `ps`, concatenated. */
  function InsertEach(ps: seq<seq<nat>>, v: nat): seq<seq<nat>>
    decreases |ps|
  {
    if |ps| == 0 then [] else InsertEach(ps[..|ps| - 1], v) + InsertAll(ps[|ps| - 1], v)
  }

  /** The orderings of `n` items: those of `n - 1` items with `n - 1` inserted at every position. */
  function Perms(n: nat): seq<seq<nat>>
  {
    if n == 0 then [[]] else InsertEach(Perms(n - 1), n - 1)
  }

  lemma InsertIsPermutation(p: seq<nat>, m: nat, j: nat)
    requires IsPermutation(p, m) && j <= m
    ensures IsPermutation(Insert(p, m, j), m + 1)
  {
    var r := Insert(p, m, j);
    forall a, b | 0 <= a < b < |r|
      ensures r[a] != r[b]
    {
      if a != j && b != j {
        var a' := if a < j then a else a - 1;
        var b' := if b < j then b else b - 1;
        assert r[a] == p[a'] && r[b] == p[b'] && a' < b';
      } else if a == j {
        assert r[b] == p[b - 1] && p[b - 1] < m;
      } else {
        assert r[a] == p[a] && p[a] < m;
      }
    }
  }

  lemma RemoveIsPermutation(o: seq<nat>, m: nat)
    requires IsPermutation(o, m + 1)
    ensures m in o
    ensures IsPermutation(Remove(o, IndexOf(o, m)), m)
    ensures Insert(Remove(o, IndexOf(o, m)), m, IndexOf(o, m)) == o
  {
    PermutationSurjective(o, m + 1, m);
    var j := IndexOf(o, m);
    var p := Remove(o, j);
    forall i | 0 <= i < |p|
      ensures p[i] < m
    {
      var i' := if i < j then i else i + 1;
      assert p[i] == o[i'] && i' != j;
    }
    forall a, b | 0 <= a < b < |p|
      ensures p[a] != p[b]
    {
      var a' := if a < j then a else a + 1;
      var b' := if b < j then b else b + 1;
      assert p[a] == o[a'] && p[b] == o[b'] && a' < b';
    }
    var r := Insert(p, m, j);
    assert forall i :: 0 <= i < |o| ==> r[i] == o[i];
  }

  lemma {:induction false} InsertEachMember(ps: seq<seq<nat>>, v: nat, o: seq<nat>)
    ensures o in InsertEach(ps, v) <==>
              exists k, j :: 0 <= k < |ps| && 0 <= j <= |ps[k]| && o == Insert(ps[k], v, j)
    decreases |ps|
  {
    if |ps| > 0 {
      var init := ps[..|ps| - 1];
      var last := ps[|ps| - 1];
      InsertEachMember(init, v, o);
      assert forall k :: 0 <= k < |init| ==> init[k] == ps[k];
      if o in InsertAll(last, v) {
        var j :| 0 <= j < |InsertAll(last, v)| && InsertAll(last, v)[j] == o;
        assert o == Insert(ps[|ps| - 1], v, j);
      }
      if exists k, j :: 0 <= k < |ps| && 0 <= j <= |ps[k]| && o == Insert(ps[k], v, j) {
        var k, j :| 0 <= k < |ps| && 0 <= j <= |ps[k]| && o == Insert(ps[k], v, j);
        if k == |ps| - 1 {
          assert InsertAll(last, v)[j] == o;
        }
      }
    }
  }

  lemma {:induction false} InsertEachPermutations(ps: seq<seq<nat>>, m: nat)
    requires forall k :: 0 <= k < |ps| ==> IsPermutation(ps[k], m)
    ensures forall o :: o in InsertEach(ps, m) ==> IsPermutation(o, m + 1)
    decreases |ps|
  {
    if |ps| > 0 {
      var init := ps[..|ps| - 1];
      var last := ps[|ps| - 1];
      assert forall k :: 0 <= k < |init| ==> init[k] == ps[k];
      InsertEachPermutations(init, m);
      forall j | 0 <= j <= m
        ensures IsPermutation(InsertAll(last, m)[j], m + 1)
      {
        InsertIsPermutation(last, m, j);
      }
    }
  }

  /** Everything `Perms(n)` lists is an ordering of `n` items. */
  lemma {:induction false} PermsArePermutations(n: nat)
    ensures forall o :: o in Perms(n) ==> IsPermutation(o, n)
  {
    if n > 0 {
      var ps := Perms(n - 1);
      PermsArePermutations(n - 1);
      assert forall k :: 0 <= k < |ps| ==> ps[k] in ps;
      InsertEachPermutations(ps, n - 1);
    }
  }

  /** `Perms(n)` lists every ordering of `n` items. */
  lemma {:induction false} PermsComplete(n: nat, o: seq<nat>)
    requires IsPermutation(o, n)
    ensures o in Perms(n)
  {
    if n == 0 {
      assert o == [];
    } else {
      var m := n - 1;
      RemoveIsPermutation(o, m);
      var j := IndexOf(o, m);
      var p := Remove(o, j);
      var ps := Perms(m);
      PermsComplete(m, p);
      var k :| 0 <= k < |ps| && ps[k] == p;
      assert |p| == m && j <= m;
      assert 0 <= k < |ps| && 0 <= j <= |ps[k]| && o == Insert(ps[k], m, j);
      InsertEachMember(ps, m, o);
      assert Perms(n) == InsertEach(ps, m);
    }
  }

  /** Inserting `v` at two different positions gives two different orderings. */
  lemma InsertAtDifferentPositions(p: seq<nat>, v: nat, j1: nat, j2: nat)
    requires j1 <= |p| && j2 <= |p| && j1 != j2 && v !in p
    ensures Insert(p, v, j1) != Insert(p, v, j2)
  {
    var r2 := Insert(p, v, j2);
    if j1 < j2 {
      assert r2[j1] == p[j1];
    } else {
      assert r2[j1] == p[j1 - 1];
    }
    assert r2[j1] != Insert(p, v, j1)[j1];
  }

  /** Inserting `v` into two different orderings gives two different orderings. */
  lemma InsertIntoDifferent(p1: seq<nat>, p2: seq<nat>, v: nat, j1: nat, j2: nat)
    requires j1 <= |p1| && j2 <= |p2| && p1 != p2 && v !in p1 && v !in p2
    ensures Insert(p1, v, j1) != Insert(p2, v, j2)
  {
    var r1 := Insert(p1, v, j1);
    var r2 := Insert(p2, v, j2);
    if |p1| != |p2| {
      assert |r1| != |r2|;
    } else if j1 < j2 {
      assert r2[j1] == p2[j1] && r2[j1] != r1[j1];
    } else if j2 < j1 {
      assert r1[j2] == p1[j2] && r1[j2] != r2[j2];
    } else {
      var i :| 0 <= i < |p1| && p1[i] != p2[i];
      var i' := if i < j1 then i else i + 1;
      assert r1[i'] == p1[i] && r2[i'] == p2[i];
    }
  }

  lemma {:induction false} InsertEachDistinct(ps: seq<seq<nat>>, v: nat)
    requires Distinct(ps)
    requires forall k :: 0 <= k < |ps| ==> v !in ps[k]
    ensures Distinct(InsertEach(ps, v))
    decreases |ps|
  {
    if |ps| > 0 {
      var init := ps[..|ps| - 1];
      var last := ps[|ps| - 1];
      InsertEachDistinct(init, v);
      var a: seq<seq<nat>> := InsertEach(init, v);
      var b: seq<seq<nat>> := InsertAll(last, v);
      var ab: seq<seq<nat>> := a + b;
      forall x: int, y: int | 0 <= x < y < |ab|
        ensures ab[x] != ab[y]
      {
        if y < |a| {
          assert ab[x] == a[x] && ab[y] == a[y];
        } else if x >= |a| {
          assert ab[x] == Insert(last, v, x - |a|) && ab[y] == Insert(last, v, y - |a|);
          InsertAtDifferentPositions(last, v, x - |a|, y - |a|);
        } else {
          InsertEachMember(init, v, a[x]);
          assert a[x] in a;
          var k, j :| 0 <= k < |init| && 0 <= j <= |init[k]| && a[x] == Insert(init[k], v, j);
          assert init[k] == ps[k] && ps[k] != ps[|ps| - 1];
          assert ab[x] == a[x] && ab[y] == Insert(last, v, y - |a|);
          InsertIntoDifferent(init[k], last, v, j, y - |a|);
        }
      }
      assert InsertEach(ps, v) == ab;
    }
  }

  /** No ordering is listed twice. */
  lemma {:induction false} PermsDistinct(n: nat)
    ensures Distinct(Perms(n))
  {
    if n > 0 {
      var ps := Perms(n - 1);
      PermsDistinct(n - 1);
      PermsArePermutations(n - 1);
      forall k | 0 <= k < |ps|
        ensures n - 1 !in ps[k]
      {
        assert ps[k] in ps;
      }
      InsertEachDistinct(ps, n - 1);
    }
  }

  lemma {:induction false} InsertEachLength(ps: seq<seq<nat>>, v: nat, m: nat)
    requires forall k :: 0 <= k < |ps| ==> |ps[k]| == m
    ensures |InsertEach(ps, v)| == |ps| * (m + 1)
    decreases |ps|
  {
    if |ps| > 0 {
      InsertEachLength(ps[..|ps| - 1], v, m);
    }
  }

  /** One more item multiplies the number of orderings by the number of items. */
  lemma PermsLength(n: nat)
    requires n > 0
    ensures |Perms(n)| == |Perms(n - 1)| * n
  {
    var m := n - 1;
    var ps := Perms(m);
    PermsArePermutations(m);
    forall k | 0 <= k < |ps|
      ensures |ps[k]| == m
    {
      assert ps[k] in ps;
    }
    InsertEachLength(ps, m, m);
    assert Perms(n) == InsertEach(ps, m);
    assert m + 1 == n;
  }

  // --------------------------------------------------------- filtering

  /** `xs` with every occurrence of `x` removed. */
  function Without<T(==,!new)>(xs: seq<T>, x: T): (r: seq<T>)
    ensures forall y :: y in r <==> y in xs && y != x
    ensures |r| <= |xs|
    decreases |xs|
  {
    if |xs| == 0 then []
    else if xs[|xs| - 1] == x then Without(xs[..|xs| - 1], x)
    else Without(xs[..|xs| - 1], x) + [xs[|xs| - 1]]
  }

  /** Removing one element that occurs once keeps the list distinct and shortens it by one. */
  lemma {:induction false} WithoutDistinct<T(!new)>(xs: seq<T>, x: T)
    requires Distinct(xs)
    ensures Distinct(Without(xs, x))
    ensures |Without(xs, x)| == if x in xs then |xs| - 1 else |xs|
    decreases |xs|
  {
    if |xs| > 0 {
      var init := xs[..|xs| - 1];
      var last := xs[|xs| - 1];
      assert forall i, j :: 0 <= i < j < |init| ==> init[i] == xs[i] && init[j] == xs[j];
      WithoutDistinct(init, x);
      assert last !in init by {
        forall i | 0 <= i < |init|
          ensures init[i] != last
        {
          assert init[i] == xs[i];
        }
      }
      assert x in xs <==> x in init || x == last by {
        assert xs == init + [last];
      }
    }
  }

  lemma {:induction false} WithoutShorter<T(!new)>(ys: seq<T>, x: T)
    requires x in ys
    ensures |Without(ys, x)| < |ys|
    decreases |ys|
  {
    var init := ys[..|ys| - 1];
    if ys[|ys| - 1] != x {
      assert x in init by {
        assert ys == init + [ys[|ys| - 1]];
      }
      WithoutShorter(init, x);
    }
  }

  /** Pigeonhole: a list without repetitions, drawn from `ys`, is no longer than `ys`. */
  lemma {:induction false} DistinctWithin<T(!new)>(xs: seq<T>, ys: seq<T>)
    requires Distinct(xs)
    requires forall i :: 0 <= i < |xs| ==> xs[i] in ys
    ensures |xs| <= |ys|
    decreases |xs|
  {
    if |xs| > 0 {
      var init := xs[..|xs| - 1];
      var x := xs[|xs| - 1];
      forall i | 0 <= i < |init|
        ensures init[i] in Without(ys, x)
      {
        assert init[i] == xs[i] && xs[i] != x;
      }
      assert Distinct(init) by {
        assert forall i :: 0 <= i < |init| ==> init[i] == xs[i];
      }
      DistinctWithin(init, Without(ys, x));
      WithoutShorter(ys, x);
    }
  }

  /** Two lists without repetitions and with no element in common concatenate to one without repetitions. */
  lemma DistinctConcat<T>(a: seq<T>, b: seq<T>)
    requires Distinct(a) && Distinct(b)
    requires forall x :: x in a ==> x !in b
    ensures Distinct(a + b)
  {
    forall x: int, y: int | 0 <= x < y < |a + b|
      ensures (a + b)[x] != (a + b)[y]
    {
      if y < |a| {
        assert (a + b)[x] == a[x] && (a + b)[y] == a[y];
      } else if x >= |a| {
        assert (a + b)[x] == b[x - |a|] && (a + b)[y] == b[y - |a|];
      } else {
        assert (a + b)[x] == a[x] && a[x] in a;
        assert (a + b)[y] == b[y - |a|] && b[y - |a|] in b;
      }
    }
  }
}
