/** Small shared building blocks: an optional value (JavaScript's
    `undefined` / `null`) and decimal digit strings. */
module Common {

  datatype Option<+T> = None | Some(value: T)

  predicate IsDigit(c: char) { '0' <= c <= '9' }

  function DigitChar(n: nat): (c: char)
    requires n < 10
    ensures IsDigit(c)
  {
    (48 + n) as char
  }

  function DigitValue(c: char): (n: nat)
    requires IsDigit(c)
    ensures n < 10 && DigitChar(n) == c
  {
    (c as int - 48) as nat
  }

  lemma DigitRoundTrip(n: nat)
    requires n < 10
    ensures DigitValue(DigitChar(n)) == n
  {
  }

  predicate AllDigits(s: string) {
    forall i :: 0 <= i < |s| ==> IsDigit(s[i])
  }

  /** The number an all-digit string denotes, most significant digit first. */
  function DigitsValue(s: string): nat
    requires AllDigits(s)
  {
    if s == [] then 0 else DigitsValue(s[..|s| - 1]) * 10 + DigitValue(s[|s| - 1])
  }

  function Pow10(k: nat): (p: nat)
    ensures p >= 1
  {
    if k == 0 then 1 else 10 * Pow10(k - 1)
  }

  /** Decimal representation of n, left-padded with zeros to at least
      `width` characters. */
  function Digits(n: nat, width: nat): (s: string)
    ensures |s| >= 1 && |s| >= width
    decreases n + width
  {
    if n < 10 && width <= 1 then [DigitChar(n)]
    else Digits(n / 10, if width > 0 then width - 1 else 0) + [DigitChar(n % 10)]
  }

  /** Every character of a decimal representation is a digit. */
  lemma {:induction false} DigitsAreDigits(n: nat, width: nat)
    ensures AllDigits(Digits(n, width))
    decreases n + width
  {
    if !(n < 10 && width <= 1) {
      DigitsAreDigits(n / 10, if width > 0 then width - 1 else 0);
    }
  }

  /** Reading back a padded decimal string gives the number. */
  lemma {:induction false} DigitsRoundTrip(n: nat, width: nat)
    requires AllDigits(Digits(n, width))
    ensures DigitsValue(Digits(n, width)) == n
    decreases n + width
  {
    if !(n < 10 && width <= 1) {
      var w' := if width > 0 then width - 1 else 0;
      var s := Digits(n, width);
      assert s[..|s| - 1] == Digits(n / 10, w');
      DigitsAreDigits(n / 10, w');
      DigitsRoundTrip(n / 10, w');
    }
  }

  /** A number that fits in `width` digits is padded to exactly `width`
      characters. */
  lemma {:induction false} DigitsLength(n: nat, width: nat)
    requires width >= 1 && n < Pow10(width)
    ensures |Digits(n, width)| == width
    decreases width
  {
    if width > 1 {
      var p := Pow10(width - 1);
      assert n < 10 * p;
      assert n / 10 < p;
      DigitsLength(n / 10, width - 1);
    }
  }

  function NatToString(n: nat): (s: string)
    ensures |s| >= 1
  {
    Digits(n, 1)
  }

  /** JavaScript's String(n) for an integer. */
  function IntToString(n: int): (s: string)
    ensures |s| >= 1
  {
    if n < 0 then "-" + NatToString(-n) else NatToString(n)
  }

  // ----- flatMap -----

  /** Array.prototype.flatMap: the results of f on each element, in order. */
  function FlatMap<A, B>(xs: seq<A>, f: A -> seq<B>): seq<B> {
    if xs == [] then [] else f(xs[0]) + FlatMap(xs[1..], f)
  }

  /** flatMap over a concatenation is the concatenation of the flatMaps. */
  lemma {:induction false} FlatMapAppend<A, B>(xs: seq<A>, ys: seq<A>, f: A -> seq<B>)
    ensures FlatMap(xs + ys, f) == FlatMap(xs, f) + FlatMap(ys, f)
  {
    if xs == [] {
      assert xs + ys == ys;
    } else {
      assert (xs + ys)[0] == xs[0];
      assert (xs + ys)[1..] == xs[1..] + ys;
      FlatMapAppend(xs[1..], ys, f);
    }
  }

  /** The sum of the lengths of the results, counted from the last element
      back. */
  function TotalLength<A, B>(xs: seq<A>, f: A -> seq<B>): nat {
    if xs == [] then 0 else TotalLength(xs[..|xs| - 1], f) + |f(xs[|xs| - 1])|
  }

  lemma {:induction false} FlatMapLength<A, B>(xs: seq<A>, f: A -> seq<B>)
    ensures |FlatMap(xs, f)| == TotalLength(xs, f)
  {
    if xs != [] {
      var init, last := xs[..|xs| - 1], xs[|xs| - 1];
      assert xs == init + [last];
      assert [last][1..] == [];
      assert FlatMap([last], f) == f(last);
      FlatMapAppend(init, [last], f);
      FlatMapLength(init, f);
    }
  }

  /** y is among the results exactly when it is in the result of some
      element. */
  lemma {:induction false} FlatMapMembership<A, B>(xs: seq<A>, f: A -> seq<B>, y: B)
    ensures y in FlatMap(xs, f) <==> exists i :: 0 <= i < |xs| && y in f(xs[i])
  {
    if xs != [] {
      FlatMapMembership(xs[1..], f, y);
      if y in FlatMap(xs[1..], f) {
        var i :| 0 <= i < |xs[1..]| && y in f(xs[1..][i]);
        assert xs[i + 1] == xs[1..][i];
      }
      forall i | 0 < i < |xs| && y in f(xs[i])
        ensures y in FlatMap(xs[1..], f)
      {
        assert xs[1..][i - 1] == xs[i];
      }
    }
  }
}
