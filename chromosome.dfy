/** The bitstring chromosome of include/chromosome.hpp: a list of `char`
    bits, each 0 or 1 when drawn, with bit-flip mutation and tail-swap
    crossover. The random draws (`random_int` and `rand()`) are parameters. */
module Chromosome {
  import opened Wrappers
  import TailSwap
  import ToString

  /** A bit as the chromosome stores it: the char value 0 or 1. */
  predicate IsBit(c: char)
  {
    c == 0 as char || c == 1 as char
  }

  predicate AllBits(bits: seq<char>)
  {
    forall k :: 0 <= k < |bits| ==> IsBit(bits[k])
  }

  /** `getRandomBit`: `(char) random_int(2)`, one of 0 and 1, for the draw
      `draw` reduced into 0..1. */
  function RandomBit(draw: nat): (c: char)
    ensures IsBit(c)
    ensures c == 0 as char <==> draw % 2 == 0
  {
    (draw % 2) as char
  }

  /** The flip `mutate` applies: 0 becomes 1, anything else 0. */
  function Flip(c: char): (r: char)
    ensures IsBit(r)
    ensures r == 0 as char <==> c != 0 as char
  {
    if c == 0 as char then 1 as char else 0 as char
  }

  /** Flipping a bit twice gives it back. */
  lemma FlipInvolution(c: char)
    requires IsBit(c)
    ensures Flip(Flip(c)) == c
  {
  }

  /** The bits after `mutate` with probability `probability` and bit k
      rolled `roll(k)`: a bit is flipped exactly when its roll is at most
      the probability. */
  function Mutated(bits: seq<char>, probability: real, roll: nat -> real): (r: seq<char>)
    ensures |r| == |bits|
  {
    seq(|bits|, k requires 0 <= k < |bits| => if roll(k) <= probability then Flip(bits[k]) else bits[k])
  }

  /** Mutation keeps a bitstring a bitstring. */
  lemma MutatedBits(bits: seq<char>, probability: real, roll: nat -> real)
    requires AllBits(bits)
    ensures AllBits(Mutated(bits, probability, roll))
  {
    var r := Mutated(bits, probability, roll);
    forall k | 0 <= k < |r| ensures IsBit(r[k]) {
      assert r[k] == if roll(k) <= probability then Flip(bits[k]) else bits[k];
    }
  }

  /** The same rolls applied twice restore the bits. */
  lemma MutatedTwice(bits: seq<char>, probability: real, roll: nat -> real)
    requires AllBits(bits)
    ensures Mutated(Mutated(bits, probability, roll), probability, roll) == bits
  {
    var once := Mutated(bits, probability, roll);
    forall k | 0 <= k < |bits|
      ensures Mutated(once, probability, roll)[k] == bits[k]
    {
      if roll(k) <= probability {
        FlipInvolution(bits[k]);
      }
    }
  }

  /** With probability 1 and every roll in [0, 1] each bit flips; with
      probability 0 and every roll above 0 none does. */
  lemma MutatedExtremes(bits: seq<char>, roll: nat -> real)
    requires forall k :: 0 <= k < |bits| ==> 0.0 < roll(k) <= 1.0
    ensures forall k :: 0 <= k < |bits| ==> Mutated(bits, 1.0, roll)[k] == Flip(bits[k])
    ensures Mutated(bits, 0.0, roll) == bits
  {
    assert forall k :: 0 <= k < |bits| ==> Mutated(bits, 0.0, roll)[k] == bits[k];
  }

  class BitstringChromosome {
    var bits: seq<char>

    /** `BitstringChromosome(length)`: `length` bits, bit k drawn by
        `getRandomBit` from `draw(k)`. */
    constructor (length: nat, draw: nat -> nat)
      ensures |bits| == length && AllBits(bits)
      ensures forall k :: 0 <= k < length ==> bits[k] == RandomBit(draw(k))
    {
      var b: seq<char> := [];
      var i := 0;
      while i < length
        invariant i <= length && |b| == i
        invariant forall k :: 0 <= k < i ==> b[k] == RandomBit(draw(k))
      {
        b := b + [RandomBit(draw(i))];
        i := i + 1;
      }
      bits := b;
    }

    /** `getBitstringText`: the raw char values of the bits, one char each,
        in list order. */
    method GetBitstringText() returns (s: string)
      ensures |s| == |bits|
      ensures forall k :: 0 <= k < |bits| ==> s[k] == bits[k]
    {
      s := "";
      var i := 0;
      while i < |bits|
        invariant i <= |bits| && s == bits[..i]
      {
        s := s + [bits[i]];
        i := i + 1;
      }
    }

    /** `mutate(probability)`: outside [0, 1] it throws and keeps the bits;
        otherwise bit k is flipped when `roll(k)` (the model of
        `rand() / RAND_MAX`) is at most the probability. */
    method Mutate(probability: real, roll: nat -> real) returns (o: Outcome)
      modifies this
      ensures probability < 0.0 || probability > 1.0 ==> o == Fail(InvalidArgument) && bits == old(bits)
      ensures 0.0 <= probability <= 1.0 ==> o == Pass && bits == Mutated(old(bits), probability, roll)
    {
      if probability < 0.0 || probability > 1.0 {
        return Fail(InvalidArgument);
      }
      var i := 0;
      while i < |bits|
        invariant i <= |bits| == |old(bits)|
        invariant forall k :: 0 <= k < i ==> bits[k] == Mutated(old(bits), probability, roll)[k]
        invariant forall k :: i <= k < |bits| ==> bits[k] == old(bits)[k]
      {
        if roll(i) <= probability {
          if bits[i] == 0 as char {
            bits := bits[i := 1 as char];
          } else {
            bits := bits[i := 0 as char];
          }
        }
        i := i + 1;
      }
      assert bits == Mutated(old(bits), probability, roll);
      o := Pass;
    }

    /** `crossover(pos, other)`: the bits from `pos` on are exchanged with
        those of `other`, which has as many; a negative `pos` exchanges
        everything, and `pos` may not lie beyond the end. */
    method Crossover(pos: int, other: BitstringChromosome)
      requires |other.bits| == |bits| && pos <= |bits|
      modifies this, other
      ensures (bits, other.bits) == TailSwap.SwapTails(old(bits), old(other.bits), pos)
    {
      ghost var a, b := bits, other.bits;
      var p := TailSwap.Cut(pos);
      var k := p;
      while k < |bits|
        invariant p <= k <= |bits| == |a| == |b| == |other.bits|
        invariant forall t :: 0 <= t < |a| ==> bits[t] == (if p <= t < k then b[t] else a[t])
        invariant forall t :: 0 <= t < |a| ==> other.bits[t] == (if p <= t < k then a[t] else b[t])
      {
        var temp := bits[k];
        bits := bits[k := other.bits[k]];
        other.bits := other.bits[k := temp];
        k := k + 1;
      }
      var r := TailSwap.SwapTails(a, b, pos);
      assert bits == r.0;
      assert other.bits == r.1;
    }

    /** `crossover(other)`: the position is `random_int(bits.size())`, the
        draw reduced into 0..size-1, so at least the last bit is exchanged.
        `random_int(0)` has no value to return, so the bits may not be
        empty. */
    method CrossoverRandom(other: BitstringChromosome, draw: nat)
      requires |other.bits| == |bits| >= 1
      modifies this, other
      ensures (bits, other.bits) == TailSwap.SwapTails(old(bits), old(other.bits), draw % |old(bits)|)
      ensures bits[|bits| - 1] == old(other.bits)[|bits| - 1]
      ensures other.bits[|bits| - 1] == old(bits)[|bits| - 1]
    {
      Crossover(draw % |bits|, other);
    }
  }

  /** The raw text of a bitstring holds no digit characters: the chars 0
      and 1 are not '0' and '1'. */
  lemma BitstringTextNotDigits(bits: seq<char>)
    requires AllBits(bits)
    ensures forall k :: 0 <= k < |bits| ==> !ToString.IsDigit(bits[k])
  {
  }

  /** Crossing over twice at the same position restores both chromosomes. */
  method CrossoverTwice(x: BitstringChromosome, y: BitstringChromosome, pos: int)
    requires |x.bits| == |y.bits| && pos <= |x.bits|
    modifies x, y
    ensures x.bits == old(x.bits) && y.bits == old(y.bits)
  {
    TailSwap.SwapTailsInvolution(x.bits, y.bits, pos);
    x.Crossover(pos, y);
    x.Crossover(pos, y);
  }
}
