/**
 * Clang's `Rewriter` as the tool uses it: a log of `ReplaceText` calls,
 * grouped into per-file buffers, that `undoChanges` discards; and the
 * slot-by-slot substitution every rewriter visitor performs.
 */
module Rewriting {
  import opened Ast
  import opened Permutations

  /** One `ReplaceText(range, text)` call. */
  datatype Edit = Edit(range: SourceRange, text: string)

  class Rewriter {
    /** The replacements made since the last `undoChanges`, in order. */
    var edits: seq<Edit>

    constructor ()
      ensures edits == []
    {
      edits := [];
    }

    /** The files that have a rewrite buffer: those some replacement lies in. */
    function Buffers(): set<string>
      reads this
    {
      set i | 0 <= i < |edits| :: edits[i].range.file
    }

    /** `buffer_begin() != buffer_end()`. */
    predicate HasBuffers()
      reads this
    {
      |edits| > 0
    }

    method ReplaceText(range: SourceRange, text: string)
      modifies this
      ensures edits == old(edits) + [Edit(range, text)]
    {
      edits := edits + [Edit(range, text)];
    }

    /** `undoChanges()`: every buffer is dropped. */
    method UndoChanges()
      modifies this
      ensures edits == [] && !HasBuffers() && Buffers() == {}
    {
      edits := [];
    }
  }

  /** Some buffer exists exactly when some replacement has been made. */
  lemma HasBuffersIffSomeBuffer(rw: Rewriter)
    ensures rw.HasBuffers() <==> rw.Buffers() != {}
  {
    if rw.HasBuffers() {
      assert rw.edits[0].range.file in rw.Buffers();
    }
  }

  function Ranges(es: seq<Edit>): (r: seq<SourceRange>)
    ensures |r| == |es|
  {
    seq(|es|, i requires 0 <= i < |es| => es[i].range)
  }

  function Texts(es: seq<Edit>): (r: seq<string>)
    ensures |r| == |es|
  {
    seq(|es|, i requires 0 <= i < |es| => es[i].text)
  }

  /**
   * The replacements of a slot-by-slot substitution: the slot at `ranges[i]`
   * receives `texts[ordering[i]]`, where `texts[j]` is what slot `j` held.
   */
  function SlotEdits(ranges: seq<SourceRange>, texts: seq<string>, ordering: seq<nat>): seq<Edit>
    requires |ranges| == |texts| && OrderingFor(ordering, |texts|)
  {
    seq(|ranges|, i requires 0 <= i < |ranges| => Edit(ranges[i], texts[ordering[i]]))
  }

  /**
   * How a slot-by-slot substitution ended: every slot was rewritten, or
   * `ordering` sent `slot` outside the items (or had no entry for it),
   * where the source reads past a container.
   */
  datatype SlotOutcome = AllSlots | SlotOutOfRange(slot: nat)

  /** The first slot below `n`, from `k` on, that `ordering` does not send into `[0, n)`; `n` if there is none. */
  function FirstUnmappedFrom(ordering: seq<nat>, n: nat, k: nat): (r: nat)
    requires k <= n
    ensures k <= r <= n
    ensures r <= |ordering| || r == k
    ensures forall i :: k <= i < r ==> ordering[i] < n
    ensures r < n ==> r >= |ordering| || ordering[r] >= n
    decreases n - k
  {
    if k == n || k >= |ordering| || ordering[k] >= n then k else FirstUnmappedFrom(ordering, n, k + 1)
  }

  /** The first slot the substitution cannot fill; it is `n` exactly when the ordering covers every slot. */
  function FirstUnmapped(ordering: seq<nat>, n: nat): (r: nat)
    ensures r <= n
    ensures r <= |ordering| && forall i :: 0 <= i < r ==> ordering[i] < n
    ensures r < n ==> r >= |ordering| || ordering[r] >= n
    ensures r == n <==> OrderingFor(ordering, n)
  {
    FirstUnmappedFrom(ordering, n, 0)
  }

  /** The replacements of the first `k` slots. */
  function SlotEditsUpTo(ranges: seq<SourceRange>, texts: seq<string>, ordering: seq<nat>, k: nat): (r: seq<Edit>)
    requires |ranges| == |texts| && k <= |texts|
    requires k <= |ordering| && forall i :: 0 <= i < k ==> ordering[i] < |texts|
    ensures |r| == k
    ensures forall i :: 0 <= i < k ==> r[i] == Edit(ranges[i], texts[ordering[i]])
  {
    seq(k, i requires 0 <= i < k => Edit(ranges[i], texts[ordering[i]]))
  }

  /** The substitution touches every slot once, in slot order, and permutes the slot texts by the ordering. */
  lemma SlotEditsApply(ranges: seq<SourceRange>, texts: seq<string>, ordering: seq<nat>)
    requires |ranges| == |texts| && OrderingFor(ordering, |texts|)
    ensures Ranges(SlotEdits(ranges, texts, ordering)) == ranges
    ensures InRange(ordering[..|texts|], |texts|)
    ensures Texts(SlotEdits(ranges, texts, ordering)) == Apply(ordering[..|texts|], texts)
  {
  }

  /** With a permutation, the new slot texts reordered by the inverse are the old ones: nothing is lost or duplicated. */
  lemma SlotEditsRoundTrip(ranges: seq<SourceRange>, texts: seq<string>, ordering: seq<nat>)
    requires |ranges| == |texts| && IsPermutation(ordering, |texts|)
    ensures OrderingFor(ordering, |texts|)
    ensures InRange(Inverse(ordering), |texts|)
    ensures Apply(Inverse(ordering), Texts(SlotEdits(ranges, texts, ordering))) == texts
  {
    PermutationIsOrderingFor(ordering, |texts|);
    SlotEditsApply(ranges, texts, ordering);
    ApplyInverseRoundTrip(ordering, texts);
  }

  /** The identity ordering writes every slot's own text back. */
  lemma SlotEditsIdentity(ranges: seq<SourceRange>, texts: seq<string>)
    requires |ranges| == |texts|
    ensures OrderingFor(Identity(|texts|), |texts|)
    ensures Texts(SlotEdits(ranges, texts, Identity(|texts|))) == texts
  {
  }
}
