/** The single-point "tail swap" crossover that the path chromosome and both
    bitstring chromosomes perform in place: both sequences are cut at the
    same position and the parts from that position on are exchanged. The
    chromosome classes prove their in-place loops against `SwapTails`. */
module TailSwap {

  /** The cut as the C++ loops realise it: they advance `pos` times, so a
      negative position cuts at 0. */
  function Cut(pos: int): nat
  {
    if pos < 0 then 0 else pos
  }

  /** The pair of sequences after exchanging the tails from `pos` on. */
  function SwapTails<T>(a: seq<T>, b: seq<T>, pos: int): (r: (seq<T>, seq<T>))
    requires |a| == |b| && pos <= |a|
    ensures |r.0| == |a| && |r.1| == |b|
    ensures forall k :: 0 <= k < |a| && k < pos ==> r.0[k] == a[k] && r.1[k] == b[k]
    ensures forall k :: 0 <= k < |a| && k >= pos ==> r.0[k] == b[k] && r.1[k] == a[k]
  {
    var p := Cut(pos);
    (a[..p] + b[p..], b[..p] + a[p..])
  }

  /** Crossing over twice at the same position restores both parents. */
  lemma SwapTailsInvolution<T>(a: seq<T>, b: seq<T>, pos: int)
    requires |a| == |b| && pos <= |a|
    ensures SwapTails(SwapTails(a, b, pos).0, SwapTails(a, b, pos).1, pos) == (a, b)
  {
    var (a', b') := SwapTails(a, b, pos);
    var (a'', b'') := SwapTails(a', b', pos);
    assert a'' == a;
    assert b'' == b;
  }
}
