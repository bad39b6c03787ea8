/**
 * The per-candidate payload (`FunctionData`, `StructData` and their later
 * counterparts `FunctionUnique::Data`, `StructUnique::Data`, which all have
 * the same shape: a `valid` flag and a list of named, typed items) and the
 * registry that maps a candidate identity to its payload (an
 * `llvm::MapVector` keyed through `operator<`).
 */
module Candidates {
  import opened Common
  import opened Strings
  import opened Permutations

  // ------------------------------------------------------------------ items

  /** A parameter or a field as the payload records it: its name and its type as text. */
  datatype Item = Item(name: string, typeName: string)

  /** One element of the `items` array that `getJSON` builds. */
  datatype JsonItem = JsonItem(position: nat, name: string, typeName: string)

  /** The array `getJSON(ordering)` returns: entry `i` is at position `i` and describes item `ordering[i]`. */
  function ItemsJSON(items: seq<Item>, ordering: seq<nat>): seq<JsonItem>
    requires OrderingFor(ordering, |items|)
  {
    seq(|items|, i requires 0 <= i < |items| => JsonItem(i, items[ordering[i]].name, items[ordering[i]].typeName))
  }

  function ItemOf(j: JsonItem): Item {
    Item(j.name, j.typeName)
  }

  /** The items a JSON array describes, in array order. */
  function ItemsOf(js: seq<JsonItem>): (r: seq<Item>)
    ensures |r| == |js|
  {
    seq(|js|, i requires 0 <= i < |js| => ItemOf(js[i]))
  }

  /** The `position` fields of a JSON array, in array order. */
  function Positions(js: seq<JsonItem>): (r: seq<nat>)
    ensures |r| == |js|
  {
    seq(|js|, i requires 0 <= i < |js| => js[i].position)
  }

  /**
   * The report lists every item exactly once per slot: positions count up
   * from 0, and the item in slot `i` is the one the ordering puts there.
   */
  lemma ItemsJSONReorders(items: seq<Item>, ordering: seq<nat>)
    requires OrderingFor(ordering, |items|)
    ensures |ItemsJSON(items, ordering)| == |items|
    ensures Positions(ItemsJSON(items, ordering)) == Identity(|items|)
    ensures InRange(ordering[..|items|], |items|)
    ensures ItemsOf(ItemsJSON(items, ordering)) == Apply(ordering[..|items|], items)
  {
  }

  /** With the identity ordering the report reproduces the recorded list. */
  lemma ItemsJSONOriginal(items: seq<Item>)
    ensures OrderingFor(Identity(|items|), |items|)
    ensures ItemsOf(ItemsJSON(items, Identity(|items|))) == items
  {
  }

  /** The modified report together with its ordering determines the original list. */
  lemma ItemsJSONRoundTrip(items: seq<Item>, ordering: seq<nat>)
    requires IsPermutation(ordering, |items|)
    ensures OrderingFor(ordering, |items|)
    ensures InRange(Inverse(ordering), |items|)
    ensures Apply(Inverse(ordering), ItemsOf(ItemsJSON(items, ordering))) == items
  {
    ItemsJSONReorders(items, ordering);
    assert ordering[..|items|] == ordering;
    ApplyInverseRoundTrip(ordering, items);
  }

  // ---------------------------------------------------------------- payload

  /** `FunctionData` / `StructData`: whether the candidate is still valid and its recorded items. */
  class Data {
    var valid: bool
    var items: seq<Item>

    /** `FunctionData(bool valid = true)`: no items yet. */
    constructor (valid: bool)
      ensures this.valid == valid && items == []
    {
      this.valid := valid;
      items := [];
    }

    /** `empty()`. */
    predicate Empty()
      reads this
    {
      |items| == 0
    }

    /** `nrOfItems()`. */
    function NrOfItems(): nat
      reads this
    {
      |items|
    }

    /** `addParams` / `addFields`: append each declared item, in declaration order. */
    method AddItems(declared: seq<Item>)
      modifies this
      ensures valid == old(valid)
      ensures items == old(items) + declared
    {
      var i := 0;
      while i < |declared|
        invariant 0 <= i <= |declared|
        invariant valid == old(valid)
        invariant items == old(items) + declared[..i]
      {
        items := items + [declared[i]];
        i := i + 1;
      }
      assert declared[..i] == declared;
    }

    /** `getJSON(ordering)`: one entry per recorded item, built slot by slot. */
    method GetJSON(ordering: seq<nat>) returns (r: seq<JsonItem>)
      requires OrderingFor(ordering, |items|)
      ensures r == ItemsJSON(items, ordering)
    {
      r := [];
      var i := 0;
      while i < |items|
        invariant 0 <= i <= |items|
        invariant r == ItemsJSON(items, ordering)[..i]
      {
        var item := items[ordering[i]];
        r := r + [JsonItem(i, item.name, item.typeName)];
        i := i + 1;
      }
    }
  }

  // --------------------------------------------------------------- registry

  /** A registry entry as a value: the identity stored at insertion and the payload's state. */
  datatype Entry<K> = Entry(id: K, valid: bool, items: seq<Item>)

  /**
   * Where the registry holds the entry for `k`. `std::map` finds keys by
   * equivalence under `operator<`, which compares `keyOf` strings with
   * `LexLess`; by `LexEquivalentIffEqual` that is equality of those strings.
   */
  function KeyIndex<K>(es: seq<Entry<K>>, keyOf: K -> string, k: K): (r: Option<nat>)
    ensures r.Some? ==> r.value < |es| && keyOf(es[r.value].id) == keyOf(k)
    ensures r.None? ==> forall i :: 0 <= i < |es| ==> keyOf(es[i].id) != keyOf(k)
  {
    if |es| == 0 then None
    else if keyOf(es[0].id) == keyOf(k) then Some(0)
    else match KeyIndex(es[1..], keyOf, k)
      case None => None
      case Some(i) => Some(i + 1)
  }

  /** No two entries share a key. */
  predicate UniqueKeys<K>(es: seq<Entry<K>>, keyOf: K -> string) {
    forall i, j :: 0 <= i < j < |es| ==> keyOf(es[i].id) != keyOf(es[j].id)
  }

  /** `candidates[k]` on the value level: an absent key gets a fresh valid, empty entry at the end. */
  function GetOrCreate<K>(es: seq<Entry<K>>, keyOf: K -> string, k: K): (r: seq<Entry<K>>)
    ensures KeyIndex(r, keyOf, k).Some?
  {
    if KeyIndex(es, keyOf, k).Some? then es
    else
      var r := es + [Entry(k, true, [])];
      assert r[|es|].id == k;
      r
  }

  /** `invalidateCandidate(k)`: look the entry up (creating it) and clear its `valid` flag. */
  function Invalidated<K>(es: seq<Entry<K>>, keyOf: K -> string, k: K): seq<Entry<K>> {
    var es1 := GetOrCreate(es, keyOf, k);
    var i := KeyIndex(es1, keyOf, k).value;
    es1[i := es1[i].(valid := false)]
  }

  /** The analysers' `if (data.valid && data.empty()) data.addItems(D)` on the entry for `k`. */
  function Filled<K>(es: seq<Entry<K>>, keyOf: K -> string, k: K, items: seq<Item>): seq<Entry<K>> {
    var es1 := GetOrCreate(es, keyOf, k);
    var i := KeyIndex(es1, keyOf, k).value;
    if es1[i].valid && |es1[i].items| == 0 then es1[i := es1[i].(items := items)] else es1
  }

  /** The entry of key `k`, if any. */
  function EntryOf<K>(es: seq<Entry<K>>, keyOf: K -> string, k: K): Option<Entry<K>> {
    match KeyIndex(es, keyOf, k)
    case None => None
    case Some(i) => Some(es[i])
  }

  /**
   * `es2` is a later state of the registry `es`: existing entries keep their
   * place and identity, never become valid again, and keep their items once
   * they have some or once they are invalid.
   */
  ghost predicate Evolves<K>(es: seq<Entry<K>>, es2: seq<Entry<K>>) {
    |es| <= |es2| &&
    forall i :: 0 <= i < |es| ==>
      es2[i].id == es[i].id &&
      (es2[i].valid ==> es[i].valid) &&
      (|es[i].items| > 0 ==> es2[i].items == es[i].items) &&
      (!es[i].valid ==> es2[i].items == es[i].items)
  }

  lemma EvolvesTransitive<K>(es1: seq<Entry<K>>, es2: seq<Entry<K>>, es3: seq<Entry<K>>)
    requires Evolves(es1, es2) && Evolves(es2, es3)
    ensures Evolves(es1, es3)
  {
  }

  /**
   * Create-on-read keeps the insertion order: the old entries stay as they
   * are and at most one fresh entry (valid, empty, for `k`) is appended, only
   * when no entry has `k`'s key.
   */
  lemma GetOrCreateAppends<K>(es: seq<Entry<K>>, keyOf: K -> string, k: K)
    requires UniqueKeys(es, keyOf)
    ensures UniqueKeys(GetOrCreate(es, keyOf, k), keyOf)
    ensures KeyIndex(es, keyOf, k).Some? ==> GetOrCreate(es, keyOf, k) == es
    ensures KeyIndex(es, keyOf, k).None? ==> GetOrCreate(es, keyOf, k) == es + [Entry(k, true, [])]
    ensures Evolves(es, GetOrCreate(es, keyOf, k))
  {
  }

  /** After `invalidateCandidate(k)` the entry for `k` exists and is invalid; nothing else changes. */
  lemma InvalidatedSpec<K>(es: seq<Entry<K>>, keyOf: K -> string, k: K)
    requires UniqueKeys(es, keyOf)
    ensures UniqueKeys(Invalidated(es, keyOf, k), keyOf)
    ensures Evolves(es, Invalidated(es, keyOf, k))
    ensures EntryOf(Invalidated(es, keyOf, k), keyOf, k).Some?
    ensures !EntryOf(Invalidated(es, keyOf, k), keyOf, k).value.valid
    ensures forall i :: 0 <= i < |es| && keyOf(es[i].id) != keyOf(k) ==> Invalidated(es, keyOf, k)[i] == es[i]
  {
    var es1 := GetOrCreate(es, keyOf, k);
    var i := KeyIndex(es1, keyOf, k).value;
    var r := Invalidated(es, keyOf, k);
    GetOrCreateAppends(es, keyOf, k);
    KeyIndexUnique(r, keyOf, k, i);
  }

  /**
   * Filling writes the items only into a valid, empty entry; an entry that
   * already has items, or has been invalidated, keeps what it has.
   */
  lemma FilledSpec<K>(es: seq<Entry<K>>, keyOf: K -> string, k: K, items: seq<Item>)
    requires UniqueKeys(es, keyOf)
    ensures UniqueKeys(Filled(es, keyOf, k, items), keyOf)
    ensures Evolves(es, Filled(es, keyOf, k, items))
    ensures EntryOf(Filled(es, keyOf, k, items), keyOf, k).Some?
    ensures var before := EntryOf(es, keyOf, k);
            var after := EntryOf(Filled(es, keyOf, k, items), keyOf, k).value;
            after.valid == (before.None? || before.value.valid) &&
            after.items == (if before.None? || (before.value.valid && |before.value.items| == 0) then items
                            else before.value.items)
    ensures forall i :: 0 <= i < |es| && keyOf(es[i].id) != keyOf(k) ==> Filled(es, keyOf, k, items)[i] == es[i]
  {
    var es1 := GetOrCreate(es, keyOf, k);
    var i := KeyIndex(es1, keyOf, k).value;
    var r := Filled(es, keyOf, k, items);
    GetOrCreateAppends(es, keyOf, k);
    KeyIndexUnique(r, keyOf, k, i);
    if KeyIndex(es, keyOf, k).Some? {
      KeyIndexUnique(es, keyOf, k, i);
    }
  }

  /** Under unique keys the entry whose key matches is the one `KeyIndex` finds. */
  lemma KeyIndexUnique<K>(es: seq<Entry<K>>, keyOf: K -> string, k: K, i: nat)
    requires UniqueKeys(es, keyOf)
    requires i < |es| && keyOf(es[i].id) == keyOf(k)
    ensures KeyIndex(es, keyOf, k) == Some(i)
  {
    var r := KeyIndex(es, keyOf, k);
    assert r.Some?;
    assert keyOf(es[r.value].id) == keyOf(es[i].id);
  }

  // ------------------------------------------------- sequences of updates

  /** One update an analyser makes to the registry. */
  datatype Op<K> = InvalidateOp(key: K) | FillOp(key: K, items: seq<Item>)

  function Step<K>(es: seq<Entry<K>>, keyOf: K -> string, op: Op<K>): seq<Entry<K>> {
    match op
    case InvalidateOp(k) => Invalidated(es, keyOf, k)
    case FillOp(k, items) => Filled(es, keyOf, k, items)
  }

  /** The registry after the updates `ops`, first to last. */
  function Run<K>(es: seq<Entry<K>>, keyOf: K -> string, ops: seq<Op<K>>): seq<Entry<K>>
    decreases |ops|
  {
    if |ops| == 0 then es else Run(Step(es, keyOf, ops[0]), keyOf, ops[1..])
  }

  lemma {:induction false} RunSnoc<K>(es: seq<Entry<K>>, keyOf: K -> string, ops: seq<Op<K>>, op: Op<K>)
    ensures Run(es, keyOf, ops + [op]) == Step(Run(es, keyOf, ops), keyOf, op)
    decreases |ops|
  {
    if |ops| == 0 {
      assert ([] + [op])[1..] == [];
    } else {
      assert (ops + [op])[1..] == ops[1..] + [op];
      RunSnoc(Step(es, keyOf, ops[0]), keyOf, ops[1..], op);
    }
  }

  /** A run of one update is that update. */
  lemma RunOne<K>(es: seq<Entry<K>>, keyOf: K -> string, op: Op<K>)
    ensures Run(es, keyOf, [op]) == Step(es, keyOf, op)
  {
    assert [op][1..] == [];
  }

  lemma StepSpec<K>(es: seq<Entry<K>>, keyOf: K -> string, op: Op<K>)
    requires UniqueKeys(es, keyOf)
    ensures UniqueKeys(Step(es, keyOf, op), keyOf)
    ensures Evolves(es, Step(es, keyOf, op))
  {
    match op
    case InvalidateOp(k) => InvalidatedSpec(es, keyOf, k);
    case FillOp(k, items) => FilledSpec(es, keyOf, k, items);
  }

  /**
   * However the analysers interleave their updates, keys stay unique and
   * every entry only evolves: an invalid candidate never becomes valid again,
   * and recorded items are never replaced.
   */
  lemma {:induction false} RunEvolves<K>(es: seq<Entry<K>>, keyOf: K -> string, ops: seq<Op<K>>)
    requires UniqueKeys(es, keyOf)
    ensures UniqueKeys(Run(es, keyOf, ops), keyOf)
    ensures Evolves(es, Run(es, keyOf, ops))
    decreases |ops|
  {
    if |ops| > 0 {
      var es1 := Step(es, keyOf, ops[0]);
      StepSpec(es, keyOf, ops[0]);
      RunEvolves(es1, keyOf, ops[1..]);
      EvolvesTransitive(es, es1, Run(es1, keyOf, ops[1..]));
    }
  }

  /** What one update does to the entry of its own key (`None`: the entry does not exist yet). */
  function StepEntry<K>(e: Option<Entry<K>>, op: Op<K>): Entry<K> {
    var cur := if e.Some? then e.value else Entry(op.key, true, []);
    match op
    case InvalidateOp(_) => cur.(valid := false)
    case FillOp(_, items) => if cur.valid && |cur.items| == 0 then cur.(items := items) else cur
  }

  /** The entry after the updates `ops`, all of which concern its key. */
  function RunEntry<K>(e: Option<Entry<K>>, ops: seq<Op<K>>): Option<Entry<K>>
    decreases |ops|
  {
    if |ops| == 0 then e else RunEntry(Some(StepEntry(e, ops[0])), ops[1..])
  }

  /** The updates among `ops` that concern `k`'s key, in order. */
  function OpsOn<K>(ops: seq<Op<K>>, keyOf: K -> string, k: K): (r: seq<Op<K>>)
    ensures forall i :: 0 <= i < |r| ==> keyOf(r[i].key) == keyOf(k)
    decreases |ops|
  {
    if |ops| == 0 then []
    else if keyOf(ops[0].key) == keyOf(k) then [ops[0]] + OpsOn(ops[1..], keyOf, k)
    else OpsOn(ops[1..], keyOf, k)
  }

  /** An update changes the entry of its own key as `StepEntry` says, and no other entry. */
  lemma StepEntryOf<K>(es: seq<Entry<K>>, keyOf: K -> string, op: Op<K>, k: K)
    requires UniqueKeys(es, keyOf)
    ensures keyOf(op.key) == keyOf(k) ==> EntryOf(Step(es, keyOf, op), keyOf, k) == Some(StepEntry(EntryOf(es, keyOf, k), op))
    ensures keyOf(op.key) != keyOf(k) ==> EntryOf(Step(es, keyOf, op), keyOf, k) == EntryOf(es, keyOf, k)
  {
    var r := Step(es, keyOf, op);
    var es1 := GetOrCreate(es, keyOf, op.key);
    GetOrCreateAppends(es, keyOf, op.key);
    StepSpec(es, keyOf, op);
    var i := KeyIndex(es1, keyOf, op.key).value;
    assert |r| == |es1| && forall j :: 0 <= j < |r| ==> r[j].id == es1[j].id;
    if keyOf(op.key) == keyOf(k) {
      KeyIndexUnique(r, keyOf, k, i);
      if KeyIndex(es, keyOf, k).Some? {
        KeyIndexUnique(es, keyOf, k, i);
      }
    } else {
      assert forall j :: 0 <= j < |r| && j != i ==> r[j] == es1[j];
      match KeyIndex(es, keyOf, k)
      case Some(j) =>
        KeyIndexUnique(r, keyOf, k, j);
      case None =>
        assert forall j :: 0 <= j < |r| ==> keyOf(r[j].id) != keyOf(k);
    }
  }

  /** The entry of a key depends only on the updates to that key, not on how they interleave with others. */
  lemma {:induction false} RunEntryOf<K>(es: seq<Entry<K>>, keyOf: K -> string, ops: seq<Op<K>>, k: K)
    requires UniqueKeys(es, keyOf)
    ensures EntryOf(Run(es, keyOf, ops), keyOf, k) == RunEntry(EntryOf(es, keyOf, k), OpsOn(ops, keyOf, k))
    decreases |ops|
  {
    if |ops| > 0 {
      var es1 := Step(es, keyOf, ops[0]);
      StepSpec(es, keyOf, ops[0]);
      StepEntryOf(es, keyOf, ops[0], k);
      RunEntryOf(es1, keyOf, ops[1..], k);
      if keyOf(ops[0].key) == keyOf(k) {
        var rest := OpsOn(ops[1..], keyOf, k);
        assert OpsOn(ops, keyOf, k) == [ops[0]] + rest;
        assert ([ops[0]] + rest)[1..] == rest;
      }
    }
  }

  /** Once invalid, an entry stays invalid and keeps its items. */
  lemma {:induction false} RunEntryInvalidFrozen<K>(e: Entry<K>, ops: seq<Op<K>>)
    requires !e.valid
    ensures RunEntry(Some(e), ops) == Some(e)
    decreases |ops|
  {
    if |ops| > 0 {
      RunEntryInvalidFrozen(StepEntry(Some(e), ops[0]), ops[1..]);
    }
  }

  /** Once it has items, an entry keeps them. */
  lemma {:induction false} RunEntryItemsFrozen<K>(e: Entry<K>, ops: seq<Op<K>>)
    requires |e.items| > 0
    ensures RunEntry(Some(e), ops).Some? && RunEntry(Some(e), ops).value.items == e.items
    decreases |ops|
  {
    if |ops| > 0 {
      RunEntryItemsFrozen(StepEntry(Some(e), ops[0]), ops[1..]);
    }
  }

  /** An entry is valid after the updates exactly when it was valid (or absent) and none of them invalidates. */
  lemma {:induction false} RunEntryValid<K>(e: Option<Entry<K>>, ops: seq<Op<K>>)
    requires e.Some? || |ops| > 0
    ensures RunEntry(e, ops).Some?
    ensures RunEntry(e, ops).value.valid <==>
              (e.None? || e.value.valid) && forall i :: 0 <= i < |ops| ==> ops[i].FillOp?
    decreases |ops|
  {
    if |ops| > 0 {
      var e1 := StepEntry(e, ops[0]);
      if |ops| > 1 {
        RunEntryValid(Some(e1), ops[1..]);
        assert forall i :: 1 <= i < |ops| ==> ops[i] == ops[1..][i - 1];
      }
    }
  }

  /**
   * The items a still-empty entry ends up with: those of the first update
   * that fills in a non-empty list, unless an invalidation comes first.
   */
  function FirstFill<K>(ops: seq<Op<K>>): seq<Item>
    decreases |ops|
  {
    if |ops| == 0 then []
    else if ops[0].InvalidateOp? then []
    else if |ops[0].items| > 0 then ops[0].items
    else FirstFill(ops[1..])
  }

  /** Items are filled once: a later definition never overwrites them, and an invalid candidate stays empty. */
  lemma {:induction false} RunEntryItems<K>(e: Option<Entry<K>>, ops: seq<Op<K>>)
    requires e.Some? || |ops| > 0
    requires e.Some? ==> e.value.valid && |e.value.items| == 0
    ensures RunEntry(e, ops).Some? && RunEntry(e, ops).value.items == FirstFill(ops)
    decreases |ops|
  {
    if |ops| > 0 {
      var e1 := StepEntry(e, ops[0]);
      if ops[0].InvalidateOp? {
        RunEntryInvalidFrozen(e1, ops[1..]);
      } else if |ops[0].items| > 0 {
        RunEntryItemsFrozen(e1, ops[1..]);
      } else if |ops| > 1 {
        RunEntryItems(Some(e1), ops[1..]);
      }
    }
  }

  /**
   * A whole analysis, from an empty registry: key `k` has an entry exactly
   * when some update concerns it; the entry is valid exactly when none of
   * those updates invalidates it; and its items are the first non-empty list
   * filled in before any invalidation.
   */
  lemma AnalysisOutcome<K>(keyOf: K -> string, ops: seq<Op<K>>, k: K)
    ensures UniqueKeys(Run([], keyOf, ops), keyOf)
    ensures EntryOf(Run([], keyOf, ops), keyOf, k).Some? <==> |OpsOn(ops, keyOf, k)| > 0
    ensures EntryOf(Run([], keyOf, ops), keyOf, k).Some? ==>
              var e := EntryOf(Run([], keyOf, ops), keyOf, k).value;
              (e.valid <==> forall i :: 0 <= i < |OpsOn(ops, keyOf, k)| ==> OpsOn(ops, keyOf, k)[i].FillOp?) &&
              e.items == FirstFill(OpsOn(ops, keyOf, k))
  {
    RunEvolves([], keyOf, ops);
    RunEntryOf([], keyOf, ops, k);
    var on := OpsOn(ops, keyOf, k);
    if |on| > 0 {
      RunEntryValid(None, on);
      RunEntryItems(None, on);
    }
  }

  /** Every fill of the analysis writes at least `m` items. */
  predicate FillsAtLeast<K>(ops: seq<Op<K>>, m: nat) {
    forall i :: 0 <= i < |ops| && ops[i].FillOp? ==> |ops[i].items| >= m
  }

  lemma {:induction false} OpsOnFillsAtLeast<K>(ops: seq<Op<K>>, keyOf: K -> string, k: K, m: nat)
    requires FillsAtLeast(ops, m)
    ensures FillsAtLeast(OpsOn(ops, keyOf, k), m)
    decreases |ops|
  {
    if |ops| > 0 {
      OpsOnFillsAtLeast(ops[1..], keyOf, k, m);
      assert FillsAtLeast(ops[1..], m) by {
        forall i | 0 <= i < |ops[1..]| && ops[1..][i].FillOp?
          ensures |ops[1..][i].items| >= m
        {
          assert ops[1..][i] == ops[i + 1];
        }
      }
    }
  }

  /**
   * When every fill writes at least `m >= 1` items, every valid entry a whole
   * analysis leaves behind holds at least `m` items.
   */
  lemma ValidEntriesHaveItems<K>(keyOf: K -> string, ops: seq<Op<K>>, m: nat)
    requires m >= 1 && FillsAtLeast(ops, m)
    ensures forall i :: 0 <= i < |Run([], keyOf, ops)| && Run([], keyOf, ops)[i].valid ==>
              |Run([], keyOf, ops)[i].items| >= m
  {
    var es := Run([], keyOf, ops);
    RunEvolves([], keyOf, ops);
    forall i | 0 <= i < |es| && es[i].valid
      ensures |es[i].items| >= m
    {
      var k := es[i].id;
      KeyIndexUnique(es, keyOf, k, i);
      AnalysisOutcome(keyOf, ops, k);
      var on := OpsOn(ops, keyOf, k);
      OpsOnFillsAtLeast(ops, keyOf, k, m);
      assert on[0].FillOp?;
    }
  }

  lemma {:induction false} RunConcat<K>(es: seq<Entry<K>>, keyOf: K -> string, a: seq<Op<K>>, b: seq<Op<K>>)
    ensures Run(es, keyOf, a + b) == Run(Run(es, keyOf, a), keyOf, b)
    decreases |a|
  {
    if |a| > 0 {
      assert (a + b)[1..] == a[1..] + b;
      RunConcat(Step(es, keyOf, a[0]), keyOf, a[1..], b);
    } else {
      assert a + b == b;
    }
  }

  lemma {:induction false} OpsOnConcat<K>(a: seq<Op<K>>, b: seq<Op<K>>, keyOf: K -> string, k: K)
    ensures OpsOn(a + b, keyOf, k) == OpsOn(a, keyOf, k) + OpsOn(b, keyOf, k)
    decreases |a|
  {
    if |a| > 0 {
      assert (a + b)[1..] == a[1..] + b;
      OpsOnConcat(a[1..], b, keyOf, k);
    } else {
      assert a + b == b;
    }
  }

  /** The registry finds an entry by its key string alone: identities with one key share an entry. */
  lemma {:induction false} KeyIndexByKey<K>(es: seq<Entry<K>>, keyOf: K -> string, a: K, b: K)
    requires keyOf(a) == keyOf(b)
    ensures KeyIndex(es, keyOf, a) == KeyIndex(es, keyOf, b)
    ensures GetOrCreate(GetOrCreate(es, keyOf, a), keyOf, b) == GetOrCreate(es, keyOf, a)
    decreases |es|
  {
    if |es| > 0 {
      KeyIndexByKey(es[1..], keyOf, a, b);
    }
  }

  /** Some update in `ops` invalidates. */
  predicate HasInvalidate<K>(ops: seq<Op<K>>) {
    exists j :: 0 <= j < |ops| && ops[j].InvalidateOp?
  }

  /** Some update in `ops` offers items. */
  predicate HasFill<K>(ops: seq<Op<K>>) {
    exists j :: 0 <= j < |ops| && ops[j].FillOp?
  }

  lemma HasConcat<K>(a: seq<Op<K>>, b: seq<Op<K>>)
    ensures HasInvalidate(a + b) <==> HasInvalidate(a) || HasInvalidate(b)
    ensures HasFill(a + b) <==> HasFill(a) || HasFill(b)
  {
    if HasInvalidate(a + b) {
      var j :| 0 <= j < |a + b| && (a + b)[j].InvalidateOp?;
      if j >= |a| {
        assert b[j - |a|] == (a + b)[j];
      }
    }
    if HasFill(a + b) {
      var j :| 0 <= j < |a + b| && (a + b)[j].FillOp?;
      if j >= |a| {
        assert b[j - |a|] == (a + b)[j];
      }
    }
    if HasInvalidate(a) {
      var j :| 0 <= j < |a| && a[j].InvalidateOp?;
      assert (a + b)[j] == a[j];
    }
    if HasFill(a) {
      var j :| 0 <= j < |a| && a[j].FillOp?;
      assert (a + b)[j] == a[j];
    }
    if HasInvalidate(b) {
      var j :| 0 <= j < |b| && b[j].InvalidateOp?;
      assert (a + b)[|a| + j] == b[j];
    }
    if HasFill(b) {
      var j :| 0 <= j < |b| && b[j].FillOp?;
      assert (a + b)[|a| + j] == b[j];
    }
  }

  /** A single update concerns `k` when its key is `k`'s. */
  lemma OpsOnSingle<K>(op: Op<K>, keyOf: K -> string, k: K)
    ensures OpsOn([op], keyOf, k) == if keyOf(op.key) == keyOf(k) then [op] else []
  {
    assert [op][1..] == [];
  }

  /** `fileName.find(baseDirectory) != npos`: the declaration lies in the base directory. */
  predicate InBaseDirectory(fileName: string, baseDirectory: string) {
    Contains(fileName, baseDirectory)
  }

  /** A registry of candidate payloads keyed by `keyOf`, in insertion order. */
  class Registry<K(==)> {
    const keyOf: K -> string
    var ids: seq<K>
    var datas: seq<Data>

    /** The registry object and every payload it holds. */
    ghost var Repr: set<object>

    ghost predicate Valid()
      reads this
    {
      this in Repr && (forall i :: 0 <= i < |datas| ==> datas[i] in Repr) &&
      |ids| == |datas| &&
      (forall i, j :: 0 <= i < j < |ids| ==> keyOf(ids[i]) != keyOf(ids[j])) &&
      (forall i, j :: 0 <= i < j < |datas| ==> datas[i] != datas[j])
    }

    /** The registry as a list of values. */
    ghost function Entries(): (es: seq<Entry<K>>)
      requires |ids| == |datas|
      reads this, datas
      ensures |es| == |ids|
    {
      seq(|ids|, i reads this, datas requires 0 <= i < |ids| && |ids| == |datas| => Entry(ids[i], datas[i].valid, datas[i].items))
    }

    constructor (keyOf: K -> string)
      ensures Valid() && fresh(Repr) && this.keyOf == keyOf && ids == [] && datas == []
    {
      this.keyOf := keyOf;
      ids := [];
      datas := [];
      Repr := {this};
    }

    /** `candidates[k]`: the payload of `k`'s entry, default-constructed and appended when absent. */
    method Lookup(k: K) returns (d: Data)
      requires Valid()
      modifies this
      ensures Valid()
      ensures UniqueKeys(Entries(), keyOf)
      ensures Entries() == GetOrCreate(old(Entries()), keyOf, k)
      ensures |old(datas)| <= |datas| && datas[..|old(datas)|] == old(datas)
      ensures var i := KeyIndex(Entries(), keyOf, k).value; d == datas[i]
      ensures d in old(datas) || fresh(d)
      ensures old(Repr) <= Repr && fresh(Repr - old(Repr))
    {
      ghost var es := Entries();
      var i := 0;
      while i < |ids|
        invariant 0 <= i <= |ids|
        invariant forall j :: 0 <= j < i ==> keyOf(ids[j]) != keyOf(k)
      {
        if keyOf(ids[i]) == keyOf(k) {
          assert es[i].id == ids[i];
          KeyIndexUnique(es, keyOf, k, i);
          return datas[i];
        }
        i := i + 1;
      }
      d := new Data(true);
      assert KeyIndex(es, keyOf, k).None?;
      ids := ids + [k];
      datas := datas + [d];
      Repr := Repr + {d};
      assert Entries() == es + [Entry(k, true, [])];
      KeyIndexUnique(Entries(), keyOf, k, |es|);
    }

    /** `invalidateCandidate(k)`: the entry for `k` exists afterwards and is invalid. */
    method Invalidate(k: K)
      requires Valid()
      modifies Repr
      ensures Valid()
      ensures Entries() == Invalidated(old(Entries()), keyOf, k)
      ensures old(Repr) <= Repr && fresh(Repr - old(Repr))
    {
      ghost var es := Entries();
      var d := Lookup(k);
      ghost var es1 := Entries();
      ghost var i := KeyIndex(es1, keyOf, k).value;
      d.valid := false;
      assert forall j :: 0 <= j < |datas| && j != i ==> datas[j] != d;
      assert Entries() == es1[i := es1[i].(valid := false)];
    }
  }
}
