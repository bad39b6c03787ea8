/**
 * Switch reordering as its header declares it: an identity that the
 * constructor leaves blank, a payload with no items, and a registry whose
 * only update is invalidation.
 */
module SwitchReordering {
  import opened Strings
  import opened Permutations
  import opened Candidates

  /** What the analyser would know of a switch statement; the identity constructor reads none of it. */
  datatype SwitchStmt = SwitchStmt(fileName: string, location: nat)

  /** `SwitchUnique`: a name and a file name. */
  datatype SwitchUnique = SwitchUnique(name: string, fileName: string)

  /** `SwitchUnique(D, astContext)`: the constructor body is empty, so both strings stay empty. */
  function SwitchUniqueOf(s: SwitchStmt): (u: SwitchUnique)
    ensures u.name == [] && u.fileName == []
  {
    SwitchUnique("", "")
  }

  /** `SwitchUnique::operator==`. */
  predicate Equal(a: SwitchUnique, b: SwitchUnique) {
    if a.name != b.name then false
    else if a.fileName != b.fileName then false
    else true
  }

  /** Equality compares the name and the file name and nothing else. */
  lemma EqualIffSame(a: SwitchUnique, b: SwitchUnique)
    ensures Equal(a, b) <==> a.name == b.name && a.fileName == b.fileName
  {
  }

  /** The string `operator<` compares: `name:fileName`. */
  function Key(s: SwitchUnique): string {
    s.name + ":" + s.fileName
  }

  /** `SwitchUnique::operator<`. */
  predicate Less(a: SwitchUnique, b: SwitchUnique) {
    LexLess(Key(a), Key(b))
  }

  /** `<` is a strict order; identities it cannot tell apart have one key. */
  lemma LessIsStrictOrder(a: SwitchUnique, b: SwitchUnique, c: SwitchUnique)
    ensures !Less(a, a)
    ensures Less(a, b) ==> !Less(b, a)
    ensures Less(a, b) && Less(b, c) ==> Less(a, c)
    ensures (!Less(a, b) && !Less(b, a)) <==> Key(a) == Key(b)
  {
    LexLessIrreflexive(Key(a));
    if Less(a, b) {
      LexLessAsymmetric(Key(a), Key(b));
    }
    if Less(a, b) && Less(b, c) {
      LexLessTransitive(Key(a), Key(b), Key(c));
    }
    LexEquivalentIffEqual(Key(a), Key(b));
  }

  /** Every two switches, wherever they are, get equal identities that neither orders before the other. */
  lemma AllSwitchesEqual(s1: SwitchStmt, s2: SwitchStmt)
    ensures Equal(SwitchUniqueOf(s1), SwitchUniqueOf(s2))
    ensures !Less(SwitchUniqueOf(s1), SwitchUniqueOf(s2))
    ensures Key(SwitchUniqueOf(s1)) == ":"
  {
    LessIsStrictOrder(SwitchUniqueOf(s1), SwitchUniqueOf(s2), SwitchUniqueOf(s2));
  }

  /** `SwitchData`: only the validity flag; it has no items. */
  datatype SwitchData = SwitchData(valid: bool)

  /** `SwitchData::empty()`. */
  predicate Empty(d: SwitchData) {
    true
  }

  /** `SwitchData::nrOfItems()`. */
  function NrOfItems(d: SwitchData): nat {
    0
  }

  /** `SwitchData::getJSON(ordering)`: an empty array. */
  function GetJSON(d: SwitchData, ordering: seq<nat>): seq<JsonItem> {
    []
  }

  /**
   * The switch payload answers as an item payload with no items does:
   * empty, no items, and the item JSON of no items under any ordering.
   */
  lemma SwitchDataHasNoItems(d: SwitchData, items: Data, ordering: seq<nat>)
    requires items.items == []
    ensures Empty(d) == items.Empty() && NrOfItems(d) == items.NrOfItems()
    ensures OrderingFor(ordering, 0) && GetJSON(d, ordering) == ItemsJSON(items.items, ordering)
  {
  }

  /** `SwitchTransformation`: the switch to reorder and the ordering to apply. */
  datatype SwitchTransformation = SwitchTransformation(target: SwitchUnique, ordering: seq<nat>)

  /** `SWCReordering`: the base and output directories and the candidate registry. */
  class SWCReordering {
    const baseDirectory: string
    const outputDirectory: string
    const candidates: Registry<SwitchUnique>

    ghost predicate Valid()
      reads this, candidates
    {
      candidates.Valid() && candidates.keyOf == Key
    }

    constructor (baseDirectory: string, outputDirectory: string)
      ensures Valid() && fresh(candidates) && fresh(candidates.Repr)
      ensures this.baseDirectory == baseDirectory && this.outputDirectory == outputDirectory
      ensures candidates.Entries() == []
    {
      this.baseDirectory := baseDirectory;
      this.outputDirectory := outputDirectory;
      candidates := new Registry(Key);
    }
  }

  /** `SWCReordering::invalidateCandidate`: the entry is created on read and marked invalid. */
  method InvalidateCandidate(r: SWCReordering, candidate: SwitchUnique)
    requires r.Valid()
    modifies r.candidates.Repr
    ensures r.Valid()
    ensures old(r.candidates.Repr) <= r.candidates.Repr && fresh(r.candidates.Repr - old(r.candidates.Repr))
    ensures r.candidates.Entries() == Invalidated(old(r.candidates.Entries()), Key, candidate)
  {
    r.candidates.Invalidate(candidate);
  }

  /** Invalidating the switches of a sequence of statements, in order. */
  function InvalidateAll(stmts: seq<SwitchStmt>): (ops: seq<Op<SwitchUnique>>)
    ensures |ops| == |stmts|
  {
    seq(|stmts|, i requires 0 <= i < |stmts| => InvalidateOp(SwitchUniqueOf(stmts[i])))
  }

  /**
   * Since every switch has the same identity, invalidating any non-empty
   * list of switches leaves a registry with exactly one entry, and it is
   * invalid.
   */
  lemma {:induction false} AllSwitchesShareOneEntry(stmts: seq<SwitchStmt>)
    requires |stmts| > 0
    ensures Run([], Key, InvalidateAll(stmts)) == [Entry(SwitchUnique("", ""), false, [])]
    decreases |stmts|
  {
    var init := stmts[..|stmts| - 1];
    var ops := InvalidateAll(stmts);
    assert ops == InvalidateAll(init) + [ops[|ops| - 1]];
    RunSnoc([], Key, InvalidateAll(init), ops[|ops| - 1]);
    if |init| == 0 {
      assert InvalidateAll(init) == [];
    } else {
      AllSwitchesShareOneEntry(init);
    }
  }
}
