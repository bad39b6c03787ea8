/**
 * Utility functions of the tool: factorial, the random helpers (with the
 * generator replaced by a stream of its outputs) and the path at which a
 * JSON report is written.
 */
module SemanticUtil {
  import opened Common
  import opened Strings
  import opened Permutations

  // ---------------------------------------------------------------- factorial

  /** The number of orderings of `n` items, over unbounded naturals. */
  function Factorial(n: nat): (r: nat)
    ensures r >= 1
    ensures r >= n
  {
    if n == 0 || n == 1 then 1 else Factorial(n - 1) * n
  }

  lemma FactorialStep(n: nat)
    requires n >= 1
    ensures Factorial(n) == n * Factorial(n - 1)
  {
  }

  /**
   * `factorial` as compiled: an `unsigned long` result, so every
   * multiplication wraps modulo 2^64.
   */
  function Factorial64(n: nat): (r: nat)
    ensures r < ULONG_MODULUS
  {
    if n == 0 || n == 1 then 1 else (Factorial64(n - 1) * n) % ULONG_MODULUS
  }

  const FACTORIAL_20: nat := 2432902008176640000

  lemma Factorial20()
    ensures Factorial(20) == FACTORIAL_20
  {
    assert Factorial(2) == 2;
    assert Factorial(3) == 6;
    assert Factorial(4) == 24;
    assert Factorial(5) == 120;
    assert Factorial(6) == 720;
    assert Factorial(7) == 5040;
    assert Factorial(8) == 40320;
    assert Factorial(9) == 362880;
    assert Factorial(10) == 3628800;
    assert Factorial(11) == 39916800;
    assert Factorial(12) == 479001600;
    assert Factorial(13) == 6227020800;
    assert Factorial(14) == 87178291200;
    assert Factorial(15) == 1307674368000;
    assert Factorial(16) == 20922789888000;
    assert Factorial(17) == 355687428096000;
    assert Factorial(18) == 6402373705728000;
    assert Factorial(19) == 121645100408832000;
  }

  lemma FactorialGrows(n: nat)
    requires n >= 1
    ensures Factorial(n - 1) <= Factorial(n)
  {
    if n >= 2 {
      var f := Factorial(n - 1);
      assert Factorial(n) == f * n;
      MulAtLeast(f, n);
    }
  }

  lemma MulAtLeast(x: nat, n: nat)
    requires n >= 1
    ensures x <= x * n
  {
    MulSucc(x, n);
    var g: nat := x * (n - 1);
  }

  lemma {:induction false} FactorialMonotone(m: nat, n: nat)
    requires m <= n
    ensures Factorial(m) <= Factorial(n)
    decreases n - m
  {
    if m < n {
      FactorialMonotone(m, n - 1);
      FactorialGrows(n);
    }
  }

  lemma ModOfSum(x: nat, y: nat)
    ensures (x + y) % ULONG_MODULUS == (x % ULONG_MODULUS + y % ULONG_MODULUS) % ULONG_MODULUS
  {
  }

  lemma MulSucc(x: nat, n: nat)
    requires n > 0
    ensures x * n == x * (n - 1) + x
  {
  }

  lemma ModStep(p: nat, q: nat, r: nat, a: nat)
    requires p % ULONG_MODULUS == q % ULONG_MODULUS && r == a % ULONG_MODULUS
    ensures (p + r) % ULONG_MODULUS == (q + a) % ULONG_MODULUS
  {
    ModOfSum(p, r);
    ModOfSum(q, a);
  }

  lemma {:induction false} ModOfProduct(a: nat, n: nat)
    ensures (a % ULONG_MODULUS * n) % ULONG_MODULUS == (a * n) % ULONG_MODULUS
  {
    if n > 0 {
      var r := a % ULONG_MODULUS;
      ModOfProduct(a, n - 1);
      MulSucc(r, n);
      MulSucc(a, n);
      ModStep(r * (n - 1), a * (n - 1), r, a);
    }
  }

  /** The 64-bit factorial is the true factorial reduced modulo 2^64. */
  lemma {:induction false} Factorial64IsReduced(n: nat)
    ensures Factorial64(n) == Factorial(n) % ULONG_MODULUS
  {
    if n >= 2 {
      Factorial64IsReduced(n - 1);
      ModOfProduct(Factorial(n - 1), n);
    }
  }

  /** Up to 20 items the 64-bit factorial is exact. */
  lemma {:induction false} Factorial64Exact(n: nat)
    requires n <= 20
    ensures Factorial64(n) == Factorial(n)
  {
    if n >= 2 {
      Factorial64Exact(n - 1);
      FactorialMonotone(n, 20);
      Factorial20();
      assert Factorial64(n) == (Factorial(n - 1) * n) % ULONG_MODULUS;
    }
  }

  /** From 21 items on it is not: `factorial(21)` wraps around. */
  lemma Factorial64Overflows()
    ensures Factorial64(21) != Factorial(21)
    ensures Factorial64(21) == 14197454024290336768
  {
    Factorial64Exact(20);
    Factorial20();
    var f20 := Factorial64(20);
    assert f20 == FACTORIAL_20;
    assert Factorial64(21) == (f20 * 21) % ULONG_MODULUS;
    assert f20 * 21 == 51090942171709440000;
    assert 51090942171709440000 % ULONG_MODULUS == 14197454024290336768;
    FactorialStep(21);
    assert Factorial(21) == 51090942171709440000;
  }

  /** `n!` is the number of orderings of `n` items. */
  lemma {:induction false} FactorialCountsOrderings(n: nat)
    ensures |Perms(n)| == Factorial(n)
  {
    if n > 0 {
      FactorialCountsOrderings(n - 1);
      PermsLength(n);
    }
  }

  /** The orderings a shuffle-until-moved loop can accept: all but the identity. */
  function NonIdentityOrderings(n: nat): seq<seq<nat>> {
    Without(Perms(n), Identity(n))
  }

  /** There are `n! - 1` of them, each listed once, and they are exactly the non-identity permutations. */
  lemma NonIdentityOrderingsSpec(n: nat)
    ensures |NonIdentityOrderings(n)| == Factorial(n) - 1
    ensures Distinct(NonIdentityOrderings(n))
    ensures forall o :: o in NonIdentityOrderings(n) <==> IsPermutation(o, n) && o != Identity(n)
  {
    PermsDistinct(n);
    PermsArePermutations(n);
    IdentityIsPermutation(n);
    PermsComplete(n, Identity(n));
    WithoutDistinct(Perms(n), Identity(n));
    FactorialCountsOrderings(n);
    forall o | IsPermutation(o, n)
      ensures o in Perms(n)
    {
      PermsComplete(n, o);
    }
  }

  // ------------------------------------------------------------ random range

  /**
   * `random_0_to_n(n)` as written: `uniform_int_distribution(0, n)` draws
   * from the closed range, so `k == n` is a possible result.
   */
  predicate Random0ToNAsWritten(n: nat, k: nat) {
    k <= n
  }

  /** The range the declaration documents: `[0, n-1]`, a valid index. */
  predicate Random0ToN(n: nat, k: nat) {
    k < n
  }

  /** As written, the draw can be `n`, one past the last candidate. */
  lemma Random0ToNAsWrittenCanOverrun(n: nat)
    ensures Random0ToNAsWritten(n, n) && !Random0ToN(n, n)
  {
  }

  /** Every draw in the documented range indexes a list of `n` elements. */
  lemma Random0ToNIndexes<T>(xs: seq<T>, k: nat)
    requires Random0ToN(|xs|, k)
    ensures 0 <= k < |xs| && xs[k] in xs
  {
  }

  // ------------------------------------------------------ random orderings

  /** The ordering after shuffling the identity by each of `shuffles` in turn. */
  function Shuffled(n: nat, shuffles: seq<seq<nat>>): (r: seq<nat>)
    requires forall k :: 0 <= k < |shuffles| ==> IsPermutation(shuffles[k], n)
    ensures IsPermutation(r, n)
    decreases |shuffles|
  {
    if |shuffles| == 0 then
      IdentityIsPermutation(n);
      Identity(n)
    else
      var prev := Shuffled(n, shuffles[..|shuffles| - 1]);
      ApplyPreservesPermutation(shuffles[|shuffles| - 1], prev, n);
      Apply(shuffles[|shuffles| - 1], prev)
  }

  /**
   * `generate_random_ordering(n)`: start from `[0, n)` and shuffle it until it
   * differs from the identity. `shuffles` are the permutations the generator
   * performs, one per pass of the `do ... while`; `None` means that the loop
   * has not exited within them.
   */
  method GenerateRandomOrdering(n: nat, shuffles: seq<seq<nat>>) returns (r: Option<seq<nat>>)
    requires forall k :: 0 <= k < |shuffles| ==> IsPermutation(shuffles[k], n)
    ensures r.Some? ==> IsPermutation(r.value, n) && r.value != Identity(n)
    ensures r.Some? ==> exists k :: 1 <= k <= |shuffles| && r.value == Shuffled(n, shuffles[..k])
                                    && forall j :: 1 <= j < k ==> Shuffled(n, shuffles[..j]) == Identity(n)
    ensures r.None? ==> forall j :: 1 <= j <= |shuffles| ==> Shuffled(n, shuffles[..j]) == Identity(n)
    ensures n < 2 ==> r.None?
  {
    var ordering := Identity(n);
    var original := ordering;
    if |shuffles| == 0 {
      return None;
    }
    assert shuffles[..0] == [];
    ApplyPreservesPermutation(shuffles[0], ordering, n);
    ordering := Apply(shuffles[0], ordering);
    var i := 1;
    assert ordering == Shuffled(n, shuffles[..1]);
    while ordering == original
      invariant 1 <= i <= |shuffles|
      invariant ordering == Shuffled(n, shuffles[..i])
      invariant forall j :: 1 <= j < i ==> Shuffled(n, shuffles[..j]) == Identity(n)
      decreases |shuffles| - i
    {
      if i == |shuffles| {
        return None;
      }
      assert shuffles[..i + 1][..i] == shuffles[..i];
      ordering := Apply(shuffles[i], ordering);
      i := i + 1;
    }
    if n < 2 {
      SmallPermutationIsIdentity(ordering, n);
    }
    return Some(ordering);
  }

  // ------------------------------------------------------------ JSON output

  /** The directory `writeJSONToFile` writes into: with a version, `outputPath + "v" + version`. */
  function JsonDirectory(outputPath: string, version: int): string {
    if version != -1 then outputPath + "v" + IntToString(version) else outputPath
  }

  /** The file `writeJSONToFile` opens: the directory, a `/`, then the file name. */
  function JsonFilePath(outputPath: string, version: int, fileName: string): string {
    JsonDirectory(outputPath, version) + "/" + fileName
  }

  /** The report of version `v` lies in `outputPath + "v" + v`, the analytics straight under `outputPath`. */
  lemma JsonFilePathShape(outputPath: string, version: int, fileName: string)
    ensures version == -1 ==> JsonFilePath(outputPath, version, fileName) == outputPath + "/" + fileName
    ensures version >= 0 ==> JsonFilePath(outputPath, version, fileName)
                               == outputPath + "v" + NatToString(version) + "/" + fileName
  {
  }

  lemma DigitsBeforeSlash(a: string, b: string, x: string, y: string)
    requires AllDigits(a) && AllDigits(b)
    requires a + "/" + x == b + "/" + y
    ensures a == b && x == y
  {
    var s := a + "/" + x;
    assert forall i :: 0 <= i < |a| ==> s[i] != '/';
    assert forall i :: 0 <= i < |b| ==> s[i] != '/' by {
      assert s == b + "/" + y;
    }
    assert s[|a|] == '/' && s[|b|] == '/';
    assert |a| == |b|;
    assert a == s[..|a|] == b;
    assert x == s[|a| + 1..] == y;
  }

  /** Two different versions never write the same report file, nor the analytics file. */
  lemma JsonPathsDistinct(outputPath: string, v1: int, v2: int, fileName: string)
    requires v1 >= -1 && v2 >= -1 && v1 != v2
    ensures JsonFilePath(outputPath, v1, fileName) != JsonFilePath(outputPath, v2, fileName)
  {
    var p1 := JsonFilePath(outputPath, v1, fileName);
    var p2 := JsonFilePath(outputPath, v2, fileName);
    var k := |outputPath|;
    if v1 == -1 {
      assert p1[k] == '/' && p2[k] == 'v';
    } else if v2 == -1 {
      assert p1[k] == 'v' && p2[k] == '/';
    } else if p1 == p2 {
      var d1 := NatToString(v1);
      var d2 := NatToString(v2);
      assert p1 == (outputPath + "v") + (d1 + "/" + fileName);
      assert p2 == (outputPath + "v") + (d2 + "/" + fileName);
      assert d1 + "/" + fileName == p1[k + 1..] == d2 + "/" + fileName;
      DigitsBeforeSlash(d1, d2, fileName, fileName);
      NatToStringInjective(v1, v2);
    }
  }
}
