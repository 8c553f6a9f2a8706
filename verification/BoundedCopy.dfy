/**
 Copying a download with a limit.  The copy stops one buffer past the limit at the latest, so a count above the
 limit means exactly that the source is too long, and a count within it that the source was copied whole.
 */
module BoundedCopy {
  type Bytes = seq<bv8>

  const BUFFER := 32 * 1024
  const MAX_EMPTY_READS := 100

  datatype End = More | Eof | Failed

  /** One turn: what the reader fills the buffer with, what the writer takes, and whether the context is done. */
  datatype Turn = Turn(data: Bytes, end: End, taken: nat, writeFails: bool, doneBefore: bool, doneAfter: bool)

  /** A reader and writer as their infinite behaviour, one turn after the other. */
  type Stream = nat -> Turn

  predicate Fits(t: Turn) { |t.data| <= BUFFER && t.taken <= |t.data| }

  /** What the first `n` reads delivered. */
  function Content(s: Stream, n: nat): Bytes { if n == 0 then [] else Content(s, n - 1) + s(n - 1).data }

  /** Nothing goes wrong in the turn, and it makes progress. */
  predicate Healthy(t: Turn) {
    && !t.doneBefore
    && !t.doneAfter
    && !t.end.Failed?
    && !t.writeFails
    && t.taken == |t.data|
    && (t.data != [] || t.end.Eof?)
  }

  /** A turn that the copy does not survive: data arrived that was not written in full, or under a context that is done. */
  predicate Faulty(t: Turn) {
    t.doneBefore || (t.data != [] && (t.doneAfter || t.writeFails || t.taken < |t.data|))
  }

  /** The last hundred reads delivered nothing. */
  ghost predicate Starved(s: Stream, turns: nat) {
    turns >= 100 && forall j :: turns - 100 <= j < turns ==> s(j).data == [] && s(j).end.More?
  }

  lemma {:induction false} ContentGrows(s: Stream, i: nat, j: nat)
    requires i <= j
    ensures Content(s, i) <= Content(s, j)
    decreases j
  {
    if i < j { ContentGrows(s, i, j - 1); }
  }

  /** copyContextBounded; it ends for every reader and writer. */
  method CopyContextBounded(s: Stream, limit: int) returns (ok: bool, copied: Bytes, turns: nat)
    requires forall i :: Fits(s(i))
    ensures |copied| <= (if limit < 0 then 0 else limit + BUFFER)
    ensures copied <= Content(s, turns)
    ensures forall j :: 0 <= j < turns - 1 ==> s(j).end.More?
    ensures ok ==> copied == Content(s, turns) && turns > 0 && (|copied| > limit || s(turns - 1).end.Eof?)
    ensures ok ==> limit >= 0 && forall j :: 0 <= j < turns ==> !Faulty(s(j))
    ensures ok ==> forall k: nat :: k <= turns ==> !Starved(s, k)
    ensures !ok ==>
      || limit < 0
      || s(turns).doneBefore
      || (turns > 0 && (Faulty(s(turns - 1)) || s(turns - 1).end.Failed?))
      || Starved(s, turns)
    ensures limit >= 0 && (forall j :: Healthy(s(j))) ==> ok
  {
    ok, copied, turns := false, [], 0;
    if limit < 0 { return; }
    var emptyReads := 0;
    while true
      invariant 0 <= |copied| <= limit && 0 <= emptyReads < MAX_EMPTY_READS
      invariant copied == Content(s, turns)
      invariant forall j :: 0 <= j < turns ==> s(j).end.More?
      invariant forall j :: 0 <= j < turns ==> !Faulty(s(j))
      invariant emptyReads <= turns && forall j :: turns - emptyReads <= j < turns ==> s(j).data == []
      invariant emptyReads < turns ==> s(turns - emptyReads - 1).data != []
      invariant forall k: nat :: k <= turns ==> !Starved(s, k)
      decreases limit - |copied|, MAX_EMPTY_READS - emptyReads
    {
      var t := s(turns);
      assert Fits(t);
      if t.doneBefore { return; }
      turns := turns + 1;
      if |t.data| > 0 {
        emptyReads := 0;
        if t.doneAfter { return; }
        copied := copied + t.data[..t.taken];
        if t.writeFails { return; }
        if t.taken != |t.data| { return; }
        assert t.data[..t.taken] == t.data;
        if |copied| > limit { return true, copied, turns; }
      } else if t.end.More? {
        emptyReads := emptyReads + 1;
        if emptyReads >= MAX_EMPTY_READS { return; }
      }
      if !t.end.More? {
        return t.end.Eof?, copied, turns;
      }
    }
  }

  /** For a source that ends at turn `last`: a successful copy is within the limit exactly when the source is,
      and then it is the whole source. */
  lemma WithinLimitIsWhole(s: Stream, last: nat, limit: nat, copied: Bytes, turns: nat)
    requires s(last).end.Eof? && forall j :: 0 <= j < last ==> s(j).end.More?
    requires forall j :: 0 <= j < turns - 1 ==> s(j).end.More?
    requires copied == Content(s, turns) && turns > 0 && (|copied| > limit || s(turns - 1).end.Eof?)
    ensures |copied| <= limit <==> |Content(s, last + 1)| <= limit
    ensures |copied| <= limit ==> copied == Content(s, last + 1)
  {
    assert turns - 1 <= last;
    ContentGrows(s, turns, last + 1);
    if s(turns - 1).end.Eof? { assert turns - 1 == last; }
  }
}
