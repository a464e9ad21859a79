/** Decimal rendering of naturals, as `std::to_string` does for the unsigned
    values the chromosome texts print, and the comma-separated lists those
    texts are made of. */
module ToString {

  predicate IsDigit(c: char) { '0' <= c <= '9' }

  function DigitChar(d: nat): (c: char)
    requires d < 10
    ensures IsDigit(c) && c as int - '0' as int == d
  {
    ('0' as int + d) as char
  }

  /** The decimal digits of `n`, most significant first, without leading zeros. */
  function NatToString(n: nat): (s: string)
    ensures |s| > 0
    ensures forall k :: 0 <= k < |s| ==> IsDigit(s[k])
    ensures |s| > 1 ==> s[0] != '0'
  {
    if n < 10 then [DigitChar(n)] else NatToString(n / 10) + [DigitChar(n % 10)]
  }

  /** The value a string of digits denotes. */
  function DigitsValue(s: string): nat
    requires forall k :: 0 <= k < |s| ==> IsDigit(s[k])
  {
    if s == [] then 0 else assert IsDigit(s[|s| - 1]); 10 * DigitsValue(s[..|s| - 1]) + (s[|s| - 1] as int - '0' as int)
  }

  /** Rendering loses nothing: reading the digits back gives the number. */
  lemma {:induction false} NatToStringRoundTrip(n: nat)
    ensures DigitsValue(NatToString(n)) == n
  {
    if n >= 10 {
      var s := NatToString(n);
      assert s[..|s| - 1] == NatToString(n / 10);
      NatToStringRoundTrip(n / 10);
    }
  }

  /** Rendering is injective, so distinct numbers print differently. */
  lemma NatToStringInjective(m: nat, n: nat)
    requires NatToString(m) == NatToString(n)
    ensures m == n
  {
    NatToStringRoundTrip(m);
    NatToStringRoundTrip(n);
  }

  /** `x0, x1, ..., xk`: each number rendered, separated by ", ". */
  function JoinNats(xs: seq<nat>): string
  {
    if |xs| == 0 then ""
    else if |xs| == 1 then NatToString(xs[0])
    else JoinNats(xs[..|xs| - 1]) + ", " + NatToString(xs[|xs| - 1])
  }

  /** A joined list holds only digits, commas and blanks. */
  lemma {:induction false} JoinNatsChars(xs: seq<nat>)
    ensures forall k :: 0 <= k < |JoinNats(xs)| ==> IsDigit(JoinNats(xs)[k]) || JoinNats(xs)[k] == ',' || JoinNats(xs)[k] == ' '
    ensures |JoinNats(xs)| == 0 <==> |xs| == 0
    ensures |xs| >= 2 ==> exists k :: 0 <= k < |JoinNats(xs)| && JoinNats(xs)[k] == ','
  {
    if |xs| >= 2 {
      JoinNatsChars(xs[..|xs| - 1]);
      assert JoinNats(xs)[|JoinNats(xs[..|xs| - 1])|] == ',';
    }
  }

  /** Two ways of writing one string as a prefix followed by a run of digits
      agree when each prefix is empty or ends in a non-digit. */
  lemma DigitSuffix(u1: string, v1: string, u2: string, v2: string)
    requires u1 + v1 == u2 + v2
    requires forall k :: 0 <= k < |v1| ==> IsDigit(v1[k])
    requires forall k :: 0 <= k < |v2| ==> IsDigit(v2[k])
    requires |u1| == 0 || !IsDigit(u1[|u1| - 1])
    requires |u2| == 0 || !IsDigit(u2[|u2| - 1])
    ensures u1 == u2 && v1 == v2
  {
    var s := u1 + v1;
    assert u1 == s[..|u1|] && u2 == s[..|u2|];
    assert v1 == s[|u1|..] && v2 == s[|u2|..];
  }

  /** Joining loses nothing: different lists print differently. */
  lemma {:induction false} JoinNatsInjective(xs: seq<nat>, ys: seq<nat>)
    requires JoinNats(xs) == JoinNats(ys)
    ensures xs == ys
  {
    JoinNatsChars(xs);
    JoinNatsChars(ys);
    if |xs| == 1 && |ys| == 1 {
      NatToStringInjective(xs[0], ys[0]);
    } else if |xs| >= 2 && |ys| >= 2 {
      var xs', ys' := xs[..|xs| - 1], ys[..|ys| - 1];
      var u1, u2 := JoinNats(xs') + ", ", JoinNats(ys') + ", ";
      DigitSuffix(u1, NatToString(xs[|xs| - 1]), u2, NatToString(ys[|ys| - 1]));
      NatToStringInjective(xs[|xs| - 1], ys[|ys| - 1]);
      assert JoinNats(xs') == u1[..|u1| - 2] == u2[..|u2| - 2] == JoinNats(ys');
      JoinNatsInjective(xs', ys');
      assert xs == xs' + [xs[|xs| - 1]] && ys == ys' + [ys[|ys| - 1]];
    }
  }
}
