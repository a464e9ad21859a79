/** The bitstring chromosome of include/bitstringChromosome.h: the same
    random bits as include/chromosome.hpp, a recorded length and the elite
    flag, with a text of decimal digits. */
module BitstringChromosome {
  import opened Chromosome
  import ToString

  /** `getText`: `std::to_string` of every bit's value, concatenated. */
  function BitsText(bits: seq<char>): string
  {
    if bits == [] then "" else BitsText(bits[..|bits| - 1]) + ToString.NatToString(bits[|bits| - 1] as nat)
  }

  /** For 0/1 bits the text is a '0'/'1' string of the same length, one
      digit per bit. */
  lemma {:induction false} BitsTextOfBits(bits: seq<char>)
    requires AllBits(bits)
    ensures |BitsText(bits)| == |bits|
    ensures forall k :: 0 <= k < |bits| ==> BitsText(bits)[k] == (if bits[k] == 0 as char then '0' else '1')
  {
    if bits != [] {
      BitsTextOfBits(bits[..|bits| - 1]);
    }
  }

  /** Different 0/1 bitstrings have different texts. */
  lemma BitsTextInjective(a: seq<char>, b: seq<char>)
    requires AllBits(a) && AllBits(b) && BitsText(a) == BitsText(b)
    ensures a == b
  {
    BitsTextOfBits(a);
    BitsTextOfBits(b);
    forall k | 0 <= k < |a| ensures a[k] == b[k] {
      assert BitsText(a)[k] == BitsText(b)[k];
    }
  }

  class BitstringChromosome {
    var elite: bool
    var bits: seq<char>
    var bitsLength: nat

    /** `BitstringChromosome(length)`: `length` bits drawn by
        `getRandomBit` from `draw(k)`, the length recorded, not elite. */
    constructor (length: nat, draw: nat -> nat)
      ensures |bits| == length && bitsLength == length && !elite && AllBits(bits)
      ensures forall k :: 0 <= k < length ==> bits[k] == RandomBit(draw(k))
    {
      var b: seq<char> := [];
      var i := 0;
      while i < length
        invariant i <= length && |b| == i
        invariant forall k :: 0 <= k < i ==> b[k] == RandomBit(draw(k))
      {
        b := b + [RandomBit(draw(i))];
        i := i + 1;
      }
      bits := b;
      bitsLength := length;
      elite := false;
    }

    /** `getText`: for 0/1 bits, one '0' or '1' per bit. */
    method GetText() returns (s: string)
      ensures s == BitsText(bits)
      ensures AllBits(bits) ==> |s| == |bits|
      ensures AllBits(bits) ==> forall k :: 0 <= k < |bits| ==> s[k] == (if bits[k] == 0 as char then '0' else '1')
    {
      s := "";
      var i := 0;
      while i < |bits|
        invariant i <= |bits| && s == BitsText(bits[..i])
      {
        s := s + ToString.NatToString(bits[i] as nat);
        assert bits[..i + 1][..i] == bits[..i];
        i := i + 1;
      }
      assert bits[..i] == bits;
      if AllBits(bits) {
        BitsTextOfBits(bits);
      }
    }
  }
}
