/**
 * The driver of function parameter reordering (`fpreordering`): collect the
 * valid candidates, compute the statistics for the analytics report, decide
 * how many transformations to make, and accept random non-identity,
 * non-duplicate orderings until that many are chosen.
 */
module FPSelection {
  import opened Common
  import opened Strings
  import opened Permutations
  import opened SemanticUtil
  import opened Candidates
  import opened FunctionReordering

  // -------------------------------------------------------------- candidates

  /** The valid entries of a registry, in registry order. */
  function ValidEntries<K>(es: seq<Entry<K>>): (r: seq<Entry<K>>)
    ensures |r| <= |es|
    decreases |es|
  {
    if |es| == 0 then []
    else ValidEntries(es[..|es| - 1]) + (if es[|es| - 1].valid then [es[|es| - 1]] else [])
  }

  /** The valid entries are exactly the registry's entries whose flag is set. */
  lemma {:induction false} ValidEntriesMembers<K(!new)>(es: seq<Entry<K>>)
    ensures forall e :: e in ValidEntries(es) <==> e in es && e.valid
    decreases |es|
  {
    if |es| > 0 {
      ValidEntriesMembers(es[..|es| - 1]);
      assert es == es[..|es| - 1] + [es[|es| - 1]];
    }
  }

  /** Keys stay unique among the valid entries. */
  lemma {:induction false} ValidEntriesUnique<K(!new)>(es: seq<Entry<K>>, keyOf: K -> string)
    requires UniqueKeys(es, keyOf)
    ensures UniqueKeys(ValidEntries(es), keyOf)
    decreases |es|
  {
    if |es| > 0 {
      var init := es[..|es| - 1];
      var last := es[|es| - 1];
      assert UniqueKeys(init, keyOf) by {
        assert forall i :: 0 <= i < |init| ==> init[i] == es[i];
      }
      ValidEntriesUnique(init, keyOf);
      ValidEntriesMembers(init);
      var v := ValidEntries(init);
      forall i | 0 <= i < |v|
        ensures keyOf(v[i].id) != keyOf(last.id)
      {
        assert v[i] in v;
        assert v[i] in init;
        var j :| 0 <= j < |init| && init[j] == v[i];
        assert es[j] == v[i];
      }
    }
  }

  /** Candidates as registry entries: each is valid and carries its items. */
  function AsEntries(cands: seq<FunctionUnique>, items: seq<seq<Item>>): (r: seq<Entry<FunctionUnique>>)
    requires |cands| == |items|
    ensures |r| == |cands|
  {
    seq(|cands|, i requires 0 <= i < |cands| => Entry(cands[i], true, items[i]))
  }

  /**
   * The candidate list: the identity of every valid registry entry, in
   * registry order, with the items that `candidates[candidate]` later reads.
   */
  method CollectValid(r: FPReordering) returns (cands: seq<FunctionUnique>, items: seq<seq<Item>>)
    requires r.Valid()
    ensures |cands| == |items|
    ensures AsEntries(cands, items) == ValidEntries(r.candidates.Entries())
  {
    ghost var es := r.candidates.Entries();
    cands := [];
    items := [];
    var i := 0;
    while i < |r.candidates.ids|
      invariant 0 <= i <= |r.candidates.ids|
      invariant |cands| == |items|
      invariant AsEntries(cands, items) == ValidEntries(es[..i])
    {
      assert es[..i + 1][..i] == es[..i];
      if r.candidates.datas[i].valid {
        cands := cands + [r.candidates.ids[i]];
        items := items + [r.candidates.datas[i].items];
      }
      i := i + 1;
    }
    assert es[..i] == es;
  }

  /** No two candidates share a key, so no two are `==`. */
  predicate KeysDistinct(cands: seq<FunctionUnique>) {
    forall i, j :: 0 <= i < j < |cands| ==> Key(cands[i]) != Key(cands[j])
  }

  /**
   * The collected candidates have distinct keys, and looking any of them up
   * in the registry again finds the entry it was collected from.
   */
  lemma CollectedCandidates(es: seq<Entry<FunctionUnique>>, cands: seq<FunctionUnique>, items: seq<seq<Item>>)
    requires UniqueKeys(es, Key)
    requires |cands| == |items| && AsEntries(cands, items) == ValidEntries(es)
    ensures KeysDistinct(cands)
    ensures forall i :: 0 <= i < |cands| ==> EntryOf(es, Key, cands[i]) == Some(Entry(cands[i], true, items[i]))
  {
    ValidEntriesUnique(es, Key);
    ValidEntriesMembers(es);
    var v := ValidEntries(es);
    forall i, j | 0 <= i < j < |cands|
      ensures Key(cands[i]) != Key(cands[j])
    {
      assert v[i].id == cands[i] && v[j].id == cands[j];
    }
    forall i | 0 <= i < |cands|
      ensures EntryOf(es, Key, cands[i]) == Some(Entry(cands[i], true, items[i]))
    {
      assert v[i] in es;
      var j :| 0 <= j < |es| && es[j] == v[i];
      KeyIndexUnique(es, Key, cands[i], j);
    }
  }

  // -------------------------------------------------------------- statistics

  /** The item count of each candidate. */
  function Counts(items: seq<seq<Item>>): (r: seq<nat>)
    ensures |r| == |items|
  {
    seq(|items|, i requires 0 <= i < |items| => |items[i]|)
  }

  /** How many of `ns` equal `n`. */
  function Count(ns: seq<nat>, n: nat): nat
    decreases |ns|
  {
    if |ns| == 0 then 0 else Count(ns[..|ns| - 1], n) + (if ns[|ns| - 1] == n then 1 else 0)
  }

  lemma {:induction false} CountAbsent(ns: seq<nat>, n: nat)
    requires n !in ns
    ensures Count(ns, n) == 0
    decreases |ns|
  {
    if |ns| > 0 {
      assert n !in ns[..|ns| - 1] by {
        assert ns == ns[..|ns| - 1] + [ns[|ns| - 1]];
      }
      CountAbsent(ns[..|ns| - 1], n);
    }
  }

  /** The sum of the histogram's values at the keys below `m`. */
  function SumBelow(h: map<nat, nat>, m: nat): nat {
    if m == 0 then 0 else SumBelow(h, m - 1) + (if m - 1 in h then h[m - 1] else 0)
  }

  /** `Count(ns, k)` summed over `k < m`. */
  function CountSum(ns: seq<nat>, m: nat): nat {
    if m == 0 then 0 else CountSum(ns, m - 1) + Count(ns, m - 1)
  }

  /** A bound above every item count. */
  function Bound(ns: seq<nat>): (b: nat)
    ensures forall i :: 0 <= i < |ns| ==> ns[i] < b
    decreases |ns|
  {
    if |ns| == 0 then 0
    else
      var b := Bound(ns[..|ns| - 1]);
      assert forall i :: 0 <= i < |ns| - 1 ==> ns[i] == ns[..|ns| - 1][i];
      if ns[|ns| - 1] < b then b else ns[|ns| - 1] + 1
  }

  lemma {:induction false} CountSumSnoc(ns: seq<nat>, m: nat)
    requires |ns| > 0
    ensures CountSum(ns, m) == CountSum(ns[..|ns| - 1], m) + (if ns[|ns| - 1] < m then 1 else 0)
  {
    if m > 0 {
      CountSumSnoc(ns, m - 1);
    }
  }

  /** Every item count below `m` is counted once. */
  lemma {:induction false} CountSumIsLength(ns: seq<nat>, m: nat)
    requires forall i :: 0 <= i < |ns| ==> ns[i] < m
    ensures CountSum(ns, m) == |ns|
    decreases |ns|
  {
    if |ns| == 0 {
      assert CountSum(ns, m) == 0 by {
        ZeroCountSum(ns, m);
      }
    } else {
      var init := ns[..|ns| - 1];
      assert forall i :: 0 <= i < |init| ==> init[i] == ns[i];
      CountSumIsLength(init, m);
      CountSumSnoc(ns, m);
    }
  }

  lemma {:induction false} ZeroCountSum(ns: seq<nat>, m: nat)
    requires |ns| == 0
    ensures CountSum(ns, m) == 0
  {
    if m > 0 {
      ZeroCountSum(ns, m - 1);
    }
  }

  lemma {:induction false} HistogramSums(h: map<nat, nat>, ns: seq<nat>, m: nat)
    requires forall n :: n in h <==> n in ns
    requires forall n :: n in h ==> h[n] == Count(ns, n)
    ensures SumBelow(h, m) == CountSum(ns, m)
  {
    if m > 0 {
      HistogramSums(h, ns, m - 1);
      if m - 1 !in h {
        CountAbsent(ns, m - 1);
      }
    }
  }

  /** `totalReorderings` as computed: a sum of 64-bit factorials in an `unsigned long`. */
  function TotalAsWritten(ns: seq<nat>): (r: nat)
    ensures r < ULONG_MODULUS
    decreases |ns|
  {
    if |ns| == 0 then 0 else (TotalAsWritten(ns[..|ns| - 1]) + Factorial64(ns[|ns| - 1])) % ULONG_MODULUS
  }

  /** The number of orderings over all candidates, without overflow. */
  function Total(ns: seq<nat>): nat
    decreases |ns|
  {
    if |ns| == 0 then 0 else Total(ns[..|ns| - 1]) + Factorial(ns[|ns| - 1])
  }

  /** The number of orderings the accept loop can take: the identity of each candidate excluded. */
  function NonIdentityTotal(ns: seq<nat>): nat
    decreases |ns|
  {
    if |ns| == 0 then 0 else NonIdentityTotal(ns[..|ns| - 1]) + (Factorial(ns[|ns| - 1]) - 1)
  }

  /** The computed total is the true total reduced modulo 2^64. */
  lemma {:induction false} TotalAsWrittenIsReduced(ns: seq<nat>)
    ensures TotalAsWritten(ns) == Total(ns) % ULONG_MODULUS
    decreases |ns|
  {
    if |ns| > 0 {
      var init := ns[..|ns| - 1];
      TotalAsWrittenIsReduced(init);
      Factorial64IsReduced(ns[|ns| - 1]);
      ModOfSum(Total(init), Factorial(ns[|ns| - 1]));
    }
  }

  /** The total counts one identity ordering per candidate on top of the acceptable ones. */
  lemma {:induction false} TotalCountsIdentities(ns: seq<nat>)
    ensures Total(ns) == NonIdentityTotal(ns) + |ns|
    decreases |ns|
  {
    if |ns| > 0 {
      TotalCountsIdentities(ns[..|ns| - 1]);
    }
  }

  /**
   * The statistics loop: the histogram maps every item count that occurs to
   * the number of candidates with that count, its values add up to the
   * number of candidates, and `total` is `totalReorderings` as computed.
   */
  method Statistics(ns: seq<nat>) returns (histogram: map<nat, nat>, total: nat)
    ensures forall n :: n in histogram <==> n in ns
    ensures forall n :: n in histogram ==> histogram[n] == Count(ns, n)
    ensures SumBelow(histogram, Bound(ns)) == |ns|
    ensures total == TotalAsWritten(ns)
  {
    histogram := map[];
    total := 0;
    var i := 0;
    while i < |ns|
      invariant 0 <= i <= |ns|
      invariant forall n :: n in histogram <==> n in ns[..i]
      invariant forall n :: n in histogram ==> histogram[n] == Count(ns[..i], n)
      invariant total == TotalAsWritten(ns[..i])
    {
      var nrOfItems := ns[i];
      assert ns[..i + 1][..i] == ns[..i];
      assert ns[..i + 1] == ns[..i] + [nrOfItems];
      total := (total + Factorial64(nrOfItems)) % ULONG_MODULUS;
      if nrOfItems in histogram {
        histogram := histogram[nrOfItems := histogram[nrOfItems] + 1];
      } else {
        CountAbsent(ns[..i], nrOfItems);
        histogram := histogram[nrOfItems := 1];
      }
      i := i + 1;
    }
    assert ns[..i] == ns;
    HistogramSums(histogram, ns, Bound(ns));
    CountSumIsLength(ns, Bound(ns));
  }

  // -------------------------------------------------------------- amount

  /** `std::min(numberOfReorderings, totalReorderings)` as written. */
  function AmountAsWritten(requested: nat, ns: seq<nat>): nat {
    Min(requested, TotalAsWritten(ns))
  }

  /** The clamp the accept loop can meet: identities excluded, no overflow. */
  function Amount(requested: nat, ns: seq<nat>): nat {
    Min(requested, NonIdentityTotal(ns))
  }

  // -------------------------------------------------------------- selection

  /**
   * One pass of the random choices: the candidate index `random_0_to_n`
   * returns, and the permutations the shuffles of that pass perform.
   */
  datatype Draw = Draw(index: nat, shuffles: seq<seq<nat>>)

  /** How the accept loop ended: done, out of random choices, or indexing past the candidate list. */
  datatype Status = Finished | DrawsExhausted | IndexOutOfRange

  /** The report written for one transformation. */
  datatype Report = Report(targetName: string, fileName: string, original: seq<JsonItem>, modified: seq<JsonItem>)

  const TRANSFORMATIONS_FILE: string := "transformations.json"

  function ReportOf(target: FunctionUnique, items: seq<Item>, ordering: seq<nat>): Report
    requires OrderingFor(ordering, |items|)
  {
    Report(target.name, target.fileName, ItemsJSON(items, Identity(|items|)), ItemsJSON(items, ordering))
  }

  /** Every shuffle a draw performs on a candidate's ordering is a permutation of its item indices. */
  predicate ShufflesFit(items: seq<seq<Item>>, draws: seq<Draw>) {
    forall k, j :: 0 <= k < |draws| && draws[k].index < |items| && 0 <= j < |draws[k].shuffles| ==>
      IsPermutation(draws[k].shuffles[j], |items[draws[k].index]|)
  }

  /** `t` reorders candidate `i` by a permutation other than the identity. */
  predicate AcceptedFrom(t: FPTransformation, cands: seq<FunctionUnique>, items: seq<seq<Item>>, i: nat)
    requires |cands| == |items|
  {
    i < |cands| && t.target == cands[i] && IsPermutation(t.ordering, |items[i]|) && t.ordering != Identity(|items[i]|)
  }

  /** `t` reorders some candidate by a permutation other than the identity. */
  ghost predicate Acceptable(t: FPTransformation, cands: seq<FunctionUnique>, items: seq<seq<Item>>)
    requires |cands| == |items|
  {
    exists i: nat :: AcceptedFrom(t, cands, items, i)
  }

  ghost predicate Accepted(ts: seq<FPTransformation>, cands: seq<FunctionUnique>, items: seq<seq<Item>>)
    requires |cands| == |items|
  {
    forall k :: 0 <= k < |ts| ==> Acceptable(ts[k], cands, items)
  }

  /** No two transformations have `==` targets and the same ordering. */
  predicate NoDuplicates(ts: seq<FPTransformation>) {
    forall k, l :: 0 <= k < l < |ts| ==> !(Equal(ts[k].target, ts[l].target) && ts[k].ordering == ts[l].ordering)
  }

  /** The duplicate check: some earlier transformation has an `==` target and the same ordering. */
  method FindDuplicate(ts: seq<FPTransformation>, chosen: FunctionUnique, ordering: seq<nat>) returns (found: bool)
    ensures found <==> exists k :: 0 <= k < |ts| && Equal(ts[k].target, chosen) && ts[k].ordering == ordering
  {
    found := false;
    var k := 0;
    while k < |ts|
      invariant 0 <= k <= |ts|
      invariant forall j :: 0 <= j < k ==> !(Equal(ts[j].target, chosen) && ts[j].ordering == ordering)
    {
      if Equal(ts[k].target, chosen) && ts[k].ordering == ordering {
        found := true;
        break;
      }
      k := k + 1;
    }
  }

  /** Where transformation `k` (counting from 0) is reported. */
  function ReportPath(outputPrefix: string, k: nat): string {
    JsonFilePath(outputPrefix, k + 1, TRANSFORMATIONS_FILE)
  }

  /** The report files written so far: one version directory per accepted transformation. */
  ghost predicate ReportedPaths(files: map<string, Report>, outputPrefix: string, n: nat) {
    forall p :: p in files <==> exists k :: 0 <= k < n && p == ReportPath(outputPrefix, k)
  }

  /** Transformation `k` is reported, in its own file, as a reordering of its candidate's items. */
  ghost predicate ReportedAt(files: map<string, Report>, outputPrefix: string, t: FPTransformation, k: nat,
                             cands: seq<FunctionUnique>, items: seq<seq<Item>>)
    requires |cands| == |items|
  {
    exists i: nat :: AcceptedFrom(t, cands, items, i) && ReportPath(outputPrefix, k) in files &&
                     files[ReportPath(outputPrefix, k)] == ReportOf(cands[i], items[i], t.ordering)
  }

  /** The reports written so far: one per accepted transformation, each at its own version directory. */
  ghost predicate Reported(files: map<string, Report>, outputPrefix: string, ts: seq<FPTransformation>,
                           cands: seq<FunctionUnique>, items: seq<seq<Item>>)
    requires |cands| == |items|
  {
    ReportedPaths(files, outputPrefix, |ts|) &&
    forall k :: 0 <= k < |ts| ==> ReportedAt(files, outputPrefix, ts[k], k, cands, items)
  }

  /** Each report path is written once: a new version never overwrites an earlier one. */
  lemma ReportPathsFresh(outputPrefix: string, n: nat)
    ensures forall k :: 0 <= k < n ==> ReportPath(outputPrefix, k) != ReportPath(outputPrefix, n)
  {
    forall k | 0 <= k < n
      ensures ReportPath(outputPrefix, k) != ReportPath(outputPrefix, n)
    {
      ReportPathsDiffer(outputPrefix, k, n);
      ReportPathUnfold(outputPrefix, k);
      ReportPathUnfold(outputPrefix, n);
    }
  }

  lemma ReportPathUnfold(outputPrefix: string, k: nat)
    ensures ReportPath(outputPrefix, k) == JsonFilePath(outputPrefix, k + 1, TRANSFORMATIONS_FILE)
  {
  }

  lemma ReportPathsDiffer(outputPrefix: string, k: nat, n: nat)
    requires k != n
    ensures JsonFilePath(outputPrefix, k + 1, TRANSFORMATIONS_FILE) != JsonFilePath(outputPrefix, n + 1, TRANSFORMATIONS_FILE)
  {
    JsonPathsDistinct(outputPrefix, k + 1, n + 1, TRANSFORMATIONS_FILE);
  }

  lemma ReportedPathsSnoc(files: map<string, Report>, outputPrefix: string, n: nat, r: Report)
    requires ReportedPaths(files, outputPrefix, n)
    ensures ReportedPaths(files[ReportPath(outputPrefix, n) := r], outputPrefix, n + 1)
  {
    var files' := files[ReportPath(outputPrefix, n) := r];
    forall q | q in files'
      ensures exists k :: 0 <= k < n + 1 && q == ReportPath(outputPrefix, k)
    {
      if q != ReportPath(outputPrefix, n) {
        var k :| 0 <= k < n && q == ReportPath(outputPrefix, k);
      }
    }
  }

  /** A report already written is untouched by the next one. */
  lemma ReportedAtKept(files: map<string, Report>, outputPrefix: string, t: FPTransformation, k: nat, n: nat,
                       cands: seq<FunctionUnique>, items: seq<seq<Item>>, r: Report)
    requires |cands| == |items| && ReportedAt(files, outputPrefix, t, k, cands, items) && k < n
    ensures ReportedAt(files[ReportPath(outputPrefix, n) := r], outputPrefix, t, k, cands, items)
  {
    ReportPathsFresh(outputPrefix, n);
    var i: nat :| AcceptedFrom(t, cands, items, i) && ReportPath(outputPrefix, k) in files &&
                  files[ReportPath(outputPrefix, k)] == ReportOf(cands[i], items[i], t.ordering);
    var files' := files[ReportPath(outputPrefix, n) := r];
    assert files'[ReportPath(outputPrefix, k)] == files[ReportPath(outputPrefix, k)];
  }

  /** The report just written is at the next version directory. */
  lemma ReportedAtNew(files: map<string, Report>, outputPrefix: string, t: FPTransformation, n: nat,
                      cands: seq<FunctionUnique>, items: seq<seq<Item>>, i: nat)
    requires |cands| == |items| && AcceptedFrom(t, cands, items, i)
    ensures ReportedAt(files[ReportPath(outputPrefix, n) := ReportOf(cands[i], items[i], t.ordering)],
                       outputPrefix, t, n, cands, items)
  {
  }

  lemma ReportedSnoc(files: map<string, Report>, outputPrefix: string, ts: seq<FPTransformation>,
                     cands: seq<FunctionUnique>, items: seq<seq<Item>>, t: FPTransformation, i: nat)
    requires |cands| == |items| && Reported(files, outputPrefix, ts, cands, items)
    requires AcceptedFrom(t, cands, items, i)
    ensures Reported(files[ReportPath(outputPrefix, |ts|) := ReportOf(cands[i], items[i], t.ordering)],
                     outputPrefix, ts + [t], cands, items)
  {
    var r := ReportOf(cands[i], items[i], t.ordering);
    var files' := files[ReportPath(outputPrefix, |ts|) := r];
    var ts' := ts + [t];
    ReportedPathsSnoc(files, outputPrefix, |ts|, r);
    forall k | 0 <= k < |ts'|
      ensures ReportedAt(files', outputPrefix, ts'[k], k, cands, items)
    {
      var tk := ts'[k];
      if k < |ts| {
        assert tk == ts[k];
        assert ReportedAt(files, outputPrefix, tk, k, cands, items);
        ReportedAtKept(files, outputPrefix, tk, k, |ts|, cands, items, r);
      } else {
        assert tk == t && k == |ts|;
        ReportedAtNew(files, outputPrefix, tk, k, cands, items, i);
      }
    }
  }

  /** An ordering that is not the identity and not taken for an `==` target can be added. */
  lemma AcceptSnoc(ts: seq<FPTransformation>, cands: seq<FunctionUnique>, items: seq<seq<Item>>, t: FPTransformation, i: nat)
    requires |cands| == |items| && Accepted(ts, cands, items) && NoDuplicates(ts)
    requires AcceptedFrom(t, cands, items, i)
    requires !exists k :: 0 <= k < |ts| && Equal(ts[k].target, t.target) && ts[k].ordering == t.ordering
    ensures Accepted(ts + [t], cands, items) && NoDuplicates(ts + [t])
  {
    var ts' := ts + [t];
    forall k | 0 <= k < |ts'|
      ensures Acceptable(ts'[k], cands, items)
    {
      if k < |ts| {
        var i': nat :| AcceptedFrom(ts[k], cands, items, i');
        assert ts'[k] == ts[k];
        assert AcceptedFrom(ts'[k], cands, items, i');
      } else {
        assert AcceptedFrom(ts'[k], cands, items, i);
      }
    }
    forall k, l | 0 <= k < l < |ts'|
      ensures !(Equal(ts'[k].target, ts'[l].target) && ts'[k].ordering == ts'[l].ordering)
    {
      assert ts'[k] == ts[k];
      if l < |ts| {
        assert ts'[l] == ts[l];
      }
    }
  }

  /**
   * The accept loop of `fpreordering`. Each pass draws a candidate index
   * and shuffles that candidate's identity ordering until it moves; an
   * ordering already taken for an `==` target is dropped, any other one is
   * reported under version `amountChosen + 1` and accepted. The loop stops
   * once `amount` transformations are accepted, or when the random choices
   * run out, or when the drawn index is past the end of the candidate list.
   */
  method Select(cands: seq<FunctionUnique>, items: seq<seq<Item>>, amount: nat, draws: seq<Draw>, outputPrefix: string)
    returns (ts: seq<FPTransformation>, files: map<string, Report>, status: Status)
    requires |cands| == |items|
    requires ShufflesFit(items, draws)
    ensures |ts| <= amount
    ensures status == Finished <==> |ts| == amount
    ensures Accepted(ts, cands, items) && NoDuplicates(ts)
    ensures Reported(files, outputPrefix, ts, cands, items)
    ensures (forall k :: 0 <= k < |draws| ==> Random0ToN(|cands|, draws[k].index)) ==> status != IndexOutOfRange
  {
    ts := [];
    files := map[];
    var amountChosen := 0;
    var d := 0;
    while amountChosen < amount
      invariant 0 <= d <= |draws|
      invariant amountChosen == |ts| <= amount
      invariant Accepted(ts, cands, items) && NoDuplicates(ts)
      invariant Reported(files, outputPrefix, ts, cands, items)
      decreases |draws| - d
    {
      if d == |draws| {
        return ts, files, DrawsExhausted;
      }
      var draw := draws[d];
      d := d + 1;
      if draw.index >= |cands| {
        assert !Random0ToN(|cands|, draws[d - 1].index);
        return ts, files, IndexOutOfRange;
      }
      var chosen := cands[draw.index];
      var chosenItems := items[draw.index];
      var n := |chosenItems|;
      forall j | 0 <= j < |draw.shuffles|
        ensures IsPermutation(draw.shuffles[j], n)
      {
        assert draws[d - 1].shuffles[j] == draw.shuffles[j];
      }
      var moved := GenerateRandomOrdering(n, draw.shuffles);
      if moved.None? {
        return ts, files, DrawsExhausted;
      }
      var ordering := moved.value;
      var found := FindDuplicate(ts, chosen, ordering);
      if found {
        continue;
      }
      var t := FPTransformation(chosen, ordering);
      AcceptSnoc(ts, cands, items, t, draw.index);
      ReportedSnoc(files, outputPrefix, ts, cands, items, t, draw.index);
      files := files[ReportPath(outputPrefix, amountChosen) := ReportOf(chosen, chosenItems, ordering)];
      ts := ts + [t];
      amountChosen := amountChosen + 1;
    }
    status := Finished;
  }

  // -------------------------------------------------------------- driver

  /** The analytics report, without the floating-point average and entropy. */
  datatype Analytics = Analytics(numberOfCandidates: nat, histogram: map<string, nat>)

  /** The histogram as the report holds it: each item count printed in decimal. */
  function HistogramJSON(h: map<nat, nat>): (r: map<string, nat>)
    ensures forall n :: n in h ==> NatToString(n) in r && r[NatToString(n)] == h[n]
    ensures forall key :: key in r ==> exists n :: n in h && key == NatToString(n)
  {
    forall m: nat, n: nat | NatToString(m) == NatToString(n)
      ensures m == n
    {
      NatToStringInjective(m, n);
    }
    map n | n in h :: NatToString(n) := h[n]
  }

  /** The item lists of registry entries. */
  function EntryItems<K>(es: seq<Entry<K>>): (r: seq<seq<Item>>)
    ensures |r| == |es|
  {
    seq(|es|, i requires 0 <= i < |es| => es[i].items)
  }

  /**
   * `fpreordering` up to the rewrite runs: analyse the translation units'
   * nodes, collect the valid candidates, compute the analytics, clamp the
   * requested number of reorderings at the total of `n!` as written, and
   * select that many transformations. Since the identity is never accepted,
   * the selection can finish only when that clamp is at most the total of
   * `n! - 1`.
   */
  method FPReorder(baseDirectory: string, outputDirectory: string, nodes: seq<Node>, numberOfReorderings: nat,
                   draws: seq<Draw>, outputPrefix: string)
    returns (cands: seq<FunctionUnique>, items: seq<seq<Item>>, analytics: Analytics,
             ts: seq<FPTransformation>, files: map<string, Report>, status: Status)
    requires ShufflesFit(EntryItems(ValidEntries(Run([], Key, AnalysisOps(nodes, baseDirectory)))), draws)
    ensures |cands| == |items|
    ensures AsEntries(cands, items) == ValidEntries(Run([], Key, AnalysisOps(nodes, baseDirectory)))
    ensures KeysDistinct(cands)
    ensures analytics.numberOfCandidates == |cands|
    ensures forall n :: n in Counts(items) ==>
              NatToString(n) in analytics.histogram && analytics.histogram[NatToString(n)] == Count(Counts(items), n)
    ensures forall key :: key in analytics.histogram ==> exists n :: n in Counts(items) && key == NatToString(n)
    ensures |ts| <= AmountAsWritten(numberOfReorderings, Counts(items))
    ensures status == Finished <==> |ts| == AmountAsWritten(numberOfReorderings, Counts(items))
    ensures status == Finished ==> AmountAsWritten(numberOfReorderings, Counts(items)) <= NonIdentityTotal(Counts(items))
    ensures Accepted(ts, cands, items) && NoDuplicates(ts)
    ensures Reported(files, outputPrefix, ts, cands, items)
  {
    var r := new FPReordering(baseDirectory, outputDirectory);
    Analyse(r, nodes);
    ghost var es := r.candidates.Entries();
    cands, items := CollectValid(r);
    CollectedCandidates(es, cands, items);
    var histogram, totalReorderings := Statistics(Counts(items));
    analytics := Analytics(|cands|, HistogramJSON(histogram));
    var amount := Min(numberOfReorderings, totalReorderings);
    forall i | 0 <= i < |items|
      ensures items[i] == EntryItems(ValidEntries(es))[i]
    {
      assert AsEntries(cands, items)[i].items == items[i];
    }
    assert items == EntryItems(ValidEntries(es));
    ts, files, status := Select(cands, items, amount, draws, outputPrefix);
    if status == Finished {
      FinishedNeedsEnoughOrderings(amount, ts, cands, items);
    }
  }

  // -------------------------------------------------------------- counting

  /** Candidate index and ordering: what an accepted transformation is made of. */
  type Choice = (nat, seq<nat>)

  function Block(i: nat, n: nat): (r: seq<Choice>)
    ensures |r| == |NonIdentityOrderings(n)|
  {
    seq(|NonIdentityOrderings(n)|, j requires 0 <= j < |NonIdentityOrderings(n)| => (i, NonIdentityOrderings(n)[j]))
  }

  /** Every choice the accept loop can make, candidate by candidate. */
  function AllChoices(ns: seq<nat>): seq<Choice>
    decreases |ns|
  {
    if |ns| == 0 then [] else AllChoices(ns[..|ns| - 1]) + Block(|ns| - 1, ns[|ns| - 1])
  }

  lemma BlockMembers(i: nat, n: nat)
    ensures forall c: Choice :: c in Block(i, n) <==> c.0 == i && IsPermutation(c.1, n) && c.1 != Identity(n)
  {
    NonIdentityOrderingsSpec(n);
    var b := Block(i, n);
    forall j | 0 <= j < |b|
      ensures b[j].0 == i && b[j].1 in NonIdentityOrderings(n)
    {
    }
    forall c: Choice | c.0 == i && c.1 in NonIdentityOrderings(n)
      ensures c in b
    {
      var j :| 0 <= j < |NonIdentityOrderings(n)| && NonIdentityOrderings(n)[j] == c.1;
      assert b[j] == c;
    }
  }

  lemma BlockDistinct(i: nat, n: nat)
    ensures Distinct(Block(i, n))
  {
    NonIdentityOrderingsSpec(n);
    var b := Block(i, n);
    forall x, y | 0 <= x < y < |b|
      ensures b[x] != b[y]
    {
      assert b[x].1 == NonIdentityOrderings(n)[x];
      assert b[y].1 == NonIdentityOrderings(n)[y];
    }
  }

  /** There are `NonIdentityTotal(ns)` choices. */
  lemma {:induction false} AllChoicesLength(ns: seq<nat>)
    ensures |AllChoices(ns)| == NonIdentityTotal(ns)
    decreases |ns|
  {
    if |ns| > 0 {
      AllChoicesLength(ns[..|ns| - 1]);
      NonIdentityOrderingsSpec(ns[|ns| - 1]);
    }
  }

  /** The choices are exactly the pairs of a candidate index and a non-identity permutation of its items. */
  lemma {:induction false} AllChoicesMembers(ns: seq<nat>)
    ensures forall c: Choice :: c in AllChoices(ns) <==>
              c.0 < |ns| && IsPermutation(c.1, ns[c.0]) && c.1 != Identity(ns[c.0])
    decreases |ns|
  {
    if |ns| > 0 {
      var init := ns[..|ns| - 1];
      var m := |ns| - 1;
      AllChoicesMembers(init);
      BlockMembers(m, ns[m]);
      forall c: Choice
        ensures c in AllChoices(ns) <==> c.0 < |ns| && IsPermutation(c.1, ns[c.0]) && c.1 != Identity(ns[c.0])
      {
        if c.0 < m {
          assert ns[c.0] == init[c.0];
        }
      }
    }
  }

  /** Each choice is listed once. */
  lemma {:induction false} AllChoicesDistinct(ns: seq<nat>)
    ensures Distinct(AllChoices(ns))
    decreases |ns|
  {
    if |ns| > 0 {
      var init := ns[..|ns| - 1];
      var m := |ns| - 1;
      AllChoicesDistinct(init);
      AllChoicesMembers(init);
      BlockMembers(m, ns[m]);
      BlockDistinct(m, ns[m]);
      var a: seq<Choice> := AllChoices(init);
      var b: seq<Choice> := Block(m, ns[m]);
      assert forall c :: c in a ==> c !in b by {
        forall c | c in a
          ensures c !in b
        {
          assert c.0 < m;
        }
      }
      DistinctConcat(a, b);
      assert AllChoices(ns) == a + b;
    }
  }

  /** Which candidate an accepted transformation came from. */
  ghost function ChoiceOf(ts: seq<FPTransformation>, cands: seq<FunctionUnique>, items: seq<seq<Item>>, k: nat): (c: Choice)
    requires |cands| == |items| && Accepted(ts, cands, items) && k < |ts|
    ensures AcceptedFrom(ts[k], cands, items, c.0) && c.1 == ts[k].ordering
  {
    var i :| AcceptedFrom(ts[k], cands, items, i);
    (i, ts[k].ordering)
  }

  /**
   * However the random choices fall, the accepted transformations number at
   * most the non-identity orderings over all candidates.
   */
  lemma AcceptedBound(ts: seq<FPTransformation>, cands: seq<FunctionUnique>, items: seq<seq<Item>>)
    requires |cands| == |items| && Accepted(ts, cands, items) && NoDuplicates(ts)
    ensures |ts| <= NonIdentityTotal(Counts(items))
  {
    var ns := Counts(items);
    var cs := seq(|ts|, k requires 0 <= k < |ts| => ChoiceOf(ts, cands, items, k));
    forall k, l | 0 <= k < l < |ts|
      ensures cs[k] != cs[l]
    {
      if cs[k].0 == cs[l].0 {
        EqualIsEquivalence(ts[k].target, ts[k].target, ts[k].target);
        assert ts[k].target == ts[l].target;
      }
    }
    AllChoicesMembers(ns);
    AllChoicesLength(ns);
    forall k | 0 <= k < |ts|
      ensures cs[k] in AllChoices(ns)
    {
      assert ns[cs[k].0] == |items[cs[k].0]|;
    }
    DistinctWithin(cs, AllChoices(ns));
  }

  /** Every choice, as a transformation. */
  function AllTransformations(cands: seq<FunctionUnique>, items: seq<seq<Item>>): (r: seq<FPTransformation>)
    requires |cands| == |items|
    ensures |r| == NonIdentityTotal(Counts(items))
  {
    var cs := AllChoices(Counts(items));
    AllChoicesMembers(Counts(items));
    AllChoicesLength(Counts(items));
    seq(|cs|, k requires 0 <= k < |cs| => assert cs[k] in cs; FPTransformation(cands[cs[k].0], cs[k].1))
  }

  /** Every one of them reorders its candidate by a non-identity permutation. */
  lemma AllTransformationsAccepted(cands: seq<FunctionUnique>, items: seq<seq<Item>>)
    requires |cands| == |items|
    ensures Accepted(AllTransformations(cands, items), cands, items)
  {
    var ns := Counts(items);
    var cs := AllChoices(ns);
    var ts := AllTransformations(cands, items);
    AllChoicesMembers(ns);
    forall k | 0 <= k < |ts|
      ensures Acceptable(ts[k], cands, items)
    {
      assert cs[k] in cs;
      assert AcceptedFrom(ts[k], cands, items, cs[k].0);
    }
  }

  /** With distinct candidates, no two of them are duplicates: the bound is reached exactly. */
  lemma AllTransformationsDistinct(cands: seq<FunctionUnique>, items: seq<seq<Item>>)
    requires |cands| == |items| && KeysDistinct(cands)
    ensures NoDuplicates(AllTransformations(cands, items))
  {
    var ns := Counts(items);
    var cs := AllChoices(ns);
    var ts := AllTransformations(cands, items);
    AllChoicesMembers(ns);
    AllChoicesDistinct(ns);
    forall k, l | 0 <= k < l < |ts|
      ensures !(Equal(ts[k].target, ts[l].target) && ts[k].ordering == ts[l].ordering)
    {
      assert cs[k] in cs && cs[l] in cs;
      var x, y := cs[k].0, cs[l].0;
      assert ts[k].target == cands[x] && ts[l].target == cands[y];
      if Equal(ts[k].target, ts[l].target) {
        EqualSharesKey(ts[k].target, ts[l].target);
        assert x == y;
        assert cs[k] != cs[l];
        assert ts[k].ordering != ts[l].ordering;
      }
    }
  }

  /** A finished run accepted `amount` transformations, so `amount` cannot exceed the acceptable orderings. */
  lemma FinishedNeedsEnoughOrderings(amount: nat, ts: seq<FPTransformation>, cands: seq<FunctionUnique>, items: seq<seq<Item>>)
    requires |cands| == |items| && Accepted(ts, cands, items) && NoDuplicates(ts) && |ts| == amount
    ensures amount <= NonIdentityTotal(Counts(items))
  {
    AcceptedBound(ts, cands, items);
  }

  /**
   * The corrected clamp asks for no more transformations than can be
   * accepted, and (with distinct candidates) that many can be.
   */
  lemma AmountReachable(requested: nat, cands: seq<FunctionUnique>, items: seq<seq<Item>>)
    requires |cands| == |items| && KeysDistinct(cands)
    ensures Amount(requested, Counts(items)) <= NonIdentityTotal(Counts(items))
    ensures var ts := AllTransformations(cands, items)[..Amount(requested, Counts(items))];
            Accepted(ts, cands, items) && NoDuplicates(ts)
  {
    AllTransformationsAccepted(cands, items);
    AllTransformationsDistinct(cands, items);
    var all := AllTransformations(cands, items);
    var ts := all[..Amount(requested, Counts(items))];
    assert forall k :: 0 <= k < |ts| ==> ts[k] == all[k];
  }

  /**
   * As written, the clamp counts the identity: one candidate with two
   * parameters and a request for two reorderings sets `amount` to 2, but
   * only one transformation can ever be accepted, so the loop cannot finish.
   */
  lemma ClampCountsIdentity(ts: seq<FPTransformation>)
    ensures var cands := [FunctionUnique("f", "a.c", true)];
            var items := [[Item("a", "int"), Item("b", "int")]];
            AmountAsWritten(2, Counts(items)) == 2 &&
            Amount(2, Counts(items)) == 1 &&
            (Accepted(ts, cands, items) && NoDuplicates(ts) ==> |ts| < AmountAsWritten(2, Counts(items)))
  {
    var cands := [FunctionUnique("f", "a.c", true)];
    var items := [[Item("a", "int"), Item("b", "int")]];
    var ns := Counts(items);
    assert ns == [2];
    assert [2][..0] == [];
    assert Factorial(2) == 2;
    Factorial64Exact(2);
    assert TotalAsWritten(ns) == 2;
    assert NonIdentityTotal(ns) == 1;
    if Accepted(ts, cands, items) && NoDuplicates(ts) {
      AcceptedBound(ts, cands, items);
    }
  }
}
