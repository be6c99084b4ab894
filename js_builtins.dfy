/** The JavaScript built-ins the forms, the rule editor and the badges rely
    on: `trim`, `parseInt` on decimal text, the default `sort` of arrays and
    the string order it uses, `split(' ')` with `join`, and ASCII
    `toUpperCase`. Strings are sequences of characters. */
module JsBuiltins {
  import opened Common

  /** WhiteSpace and LineTerminator of ECMAScript (section 12.2 and 12.3 of
      ECMA-262): what `trim` removes and `parseInt` skips. */
  predicate IsJsWhitespace(c: char) {
    c == '\t' || c == '\U{000B}' || c == '\U{000C}' || c == ' ' || c == '\U{00A0}' || c == '\U{FEFF}'
    || c == '\U{1680}' || ('\U{2000}' <= c <= '\U{200A}') || c == '\U{202F}' || c == '\U{205F}' || c == '\U{3000}'
    || c == '\n' || c == '\r' || c == '\U{2028}' || c == '\U{2029}'
  }

  /** Index of the first character at or after i that is not white space. */
  function SkipSpace(s: string, i: nat): (k: nat)
    requires i <= |s|
    ensures i <= k <= |s|
    ensures forall j :: i <= j < k ==> IsJsWhitespace(s[j])
    ensures k < |s| ==> !IsJsWhitespace(s[k])
    decreases |s| - i
  {
    if i < |s| && IsJsWhitespace(s[i]) then SkipSpace(s, i + 1) else i
  }

  /** Index just past the last character before j that is not white space. */
  function SkipSpaceBack(s: string, j: nat): (k: nat)
    requires j <= |s|
    ensures k <= j
    ensures forall m :: k <= m < j ==> IsJsWhitespace(s[m])
    ensures k > 0 ==> !IsJsWhitespace(s[k - 1])
  {
    if j > 0 && IsJsWhitespace(s[j - 1]) then SkipSpaceBack(s, j - 1) else j
  }

  /** String.prototype.trimStart */
  function TrimStart(s: string): string {
    s[SkipSpace(s, 0)..]
  }

  /** String.prototype.trimEnd */
  function TrimEnd(s: string): string {
    s[..SkipSpaceBack(s, |s|)]
  }

  /** String.prototype.trim: never longer than the text, and "" exactly when
      the text is all white space. */
  function Trim(s: string): (r: string)
    ensures |r| <= |s|
    ensures r == [] <==> forall k :: 0 <= k < |s| ==> IsJsWhitespace(s[k])
  {
    TrimEnd(TrimStart(s))
  }

  /** Index of the first character at or after i that is not a decimal
      digit. */
  function DigitEnd(s: string, i: nat): (k: nat)
    requires i <= |s|
    ensures i <= k <= |s|
    ensures forall j :: i <= j < k ==> IsDigit(s[j])
    ensures k < |s| ==> !IsDigit(s[k])
    decreases |s| - i
  {
    if i < |s| && IsDigit(s[i]) then DigitEnd(s, i + 1) else i
  }

  /** The value of the digits that start at index i, or None when none
      does. */
  function ReadDigits(s: string, i: nat): (r: Option<nat>)
    requires i <= |s|
    ensures r.Some? <==> i < |s| && IsDigit(s[i])
  {
    var k := DigitEnd(s, i);
    if k == i then None
    else
      assert AllDigits(s[i..k]) by {
        forall j | 0 <= j < k - i
          ensures IsDigit(s[i..k][j])
        {
          assert s[i..k][j] == s[i + j];
        }
      }
      Some(DigitsValue(s[i..k]))
  }

  /** parseInt with no radix, on decimal text: skip leading white space,
      read an optional sign and the digits after it; None (NaN) when no
      digit follows. A number comes only from text holding a digit, and
      never from text that starts with something other than white space, a
      sign or a digit. */
  function ParseInt(s: string): (r: Option<int>)
    ensures r.Some? ==> exists k :: 0 <= k < |s| && IsDigit(s[k])
    ensures s != [] && !IsDigit(s[0]) && s[0] != '-' && s[0] != '+' && !IsJsWhitespace(s[0]) ==> r.None?
  {
    ReadSigned(s, SkipSpace(s, 0))
  }

  /** The optionally signed number that starts at index i. */
  function ReadSigned(s: string, i: nat): (r: Option<int>)
    requires i <= |s|
    ensures r.Some? ==> exists k :: i <= k < |s| && IsDigit(s[k])
  {
    if i < |s| && s[i] == '-' then Negate(ReadDigits(s, i + 1))
    else if i < |s| && s[i] == '+' then Widen(ReadDigits(s, i + 1))
    else Widen(ReadDigits(s, i))
  }

  function Negate(v: Option<nat>): Option<int> {
    match v case None => None case Some(n) => Some(-(n as int))
  }

  function Widen(v: Option<nat>): Option<int> {
    match v case None => None case Some(n) => Some(n)
  }

  /** The order of the default `sort`: code-unit order on strings, a proper
      prefix first. */
  predicate StrLe(a: string, b: string) {
    a == [] || (b != [] && (a[0] < b[0] || (a[0] == b[0] && StrLe(a[1..], b[1..]))))
  }

  // ----- Sorting -----

  ghost predicate Total<T(!new)>(le: (T, T) -> bool) {
    forall a, b :: le(a, b) || le(b, a)
  }

  ghost predicate Transitive<T(!new)>(le: (T, T) -> bool) {
    forall a, b, c :: le(a, b) && le(b, c) ==> le(a, c)
  }

  /** Every element is not above the next one. */
  predicate Sorted<T>(xs: seq<T>, le: (T, T) -> bool) {
    forall i :: 0 < i < |xs| ==> le(xs[i - 1], xs[i])
  }

  /** Insert x into a sorted list, after the elements not above it. */
  function Insert<T>(x: T, xs: seq<T>, le: (T, T) -> bool): seq<T> {
    if xs == [] then [x]
    else if !le(xs[0], x) then [x] + xs
    else [xs[0]] + Insert(x, xs[1..], le)
  }

  /** A stable insertion sort: each element goes after those before it
      that are not above it. */
  function SortBy<T>(xs: seq<T>, le: (T, T) -> bool): seq<T> {
    if xs == [] then [] else Insert(xs[|xs| - 1], SortBy(xs[..|xs| - 1], le), le)
  }

  /** The order of the default `sort` on numbers: that of their decimal text. */
  predicate NumberTextLe(a: int, b: int) {
    StrLe(IntToString(a), IntToString(b))
  }

  /** `Array.prototype.sort` with no comparator, on numbers: a permutation
      of the numbers, ordered by their decimal text. */
  function JsSort(xs: seq<int>): (r: seq<int>)
    ensures multiset(r) == multiset(xs) && |r| == |xs|
    ensures Sorted(r, NumberTextLe)
  {
    NumberTextLeIsTotalOrder();
    SortBySorts(xs, NumberTextLe);
    assert |multiset(SortBy(xs, NumberTextLe))| == |multiset(xs)|;
    SortBy(xs, NumberTextLe)
  }

  /** `toUpperCase` on ASCII letters; other characters are kept. */
  function UpperChar(c: char): char {
    if 'a' <= c <= 'z' then (c as int - 32) as char else c
  }

  function ToUpper(s: string): (r: string)
    ensures |r| == |s|
  {
    seq(|s|, i requires 0 <= i < |s| => UpperChar(s[i]))
  }

  /** `split(' ')`: the pieces between single spaces, empty pieces
      included; the empty string gives one empty piece. */
  function Split(s: string): (parts: seq<string>)
    ensures |parts| >= 1
  {
    if s == [] then [[]]
    else if s[0] == ' ' then [[]] + Split(s[1..])
    else var rest := Split(s[1..]); [[s[0]] + rest[0]] + rest[1..]
  }

  /** `join(' ')` */
  function JoinSpaces(parts: seq<string>): string
    requires |parts| >= 1
  {
    if |parts| == 1 then parts[0] else parts[0] + " " + JoinSpaces(parts[1..])
  }

  // ----- Lemmas -----

  /** r sits at index i of s with only white space around it. */
  predicate PaddedBy(s: string, i: int, r: string) {
    && 0 <= i <= |s| - |r| && r == s[i..i + |r|]
    && (forall k :: 0 <= k < i ==> IsJsWhitespace(s[k]))
    && (forall k :: i + |r| <= k < |s| ==> IsJsWhitespace(s[k]))
  }

  /** trim removes exactly the white space at both ends: the result is a
      piece of the text with white space around it and none at its ends. */
  lemma TrimIsInnerPiece(s: string)
    ensures var r := Trim(s);
      && (r == [] || (!IsJsWhitespace(r[0]) && !IsJsWhitespace(r[|r| - 1])))
      && exists i :: PaddedBy(s, i, r)
  {
    var i := SkipSpace(s, 0);
    var t := s[i..];
    var e := SkipSpaceBack(t, |t|);
    var r := Trim(s);
    assert r == t[..e] == s[i..i + e];
    if r != [] {
      assert r[0] == s[i];
      assert r[|r| - 1] == t[e - 1];
    }
    forall k | i + e <= k < |s|
      ensures IsJsWhitespace(s[k])
    {
      assert s[k] == t[k - i];
    }
    assert PaddedBy(s, i, r);
  }

  /** Trimming twice is trimming once. */
  lemma TrimIdempotent(s: string)
    ensures Trim(Trim(s)) == Trim(s)
  {
    var r := Trim(s);
    TrimIsInnerPiece(s);
    if r != [] {
      assert SkipSpace(r, 0) == 0;
      assert r[0..] == r;
      assert SkipSpaceBack(r, |r|) == |r|;
    }
  }

  /** parseInt reads the leading digits of the text and stops at the first
      character that is not a digit, such as the `.` of `1.5` or the `e` of
      `1e3`; a leading `-` negates. */
  lemma ParseIntReadsLeadingDigits(n: nat, rest: string)
    requires rest == [] || !IsDigit(rest[0])
    ensures ParseInt(NatToString(n) + rest) == Some(n)
    ensures ParseInt("-" + (NatToString(n) + rest)) == Some(-(n as int))
  {
    var d := NatToString(n);
    DigitsAreDigits(n, 1);
    DigitsRoundTrip(n, 1);
    ParseIntOfDigits(d, rest);
    ParseIntOfNegatedDigits(d, rest);
  }

  lemma ParseIntOfDigits(d: string, rest: string)
    requires d != [] && AllDigits(d)
    requires rest == [] || !IsDigit(rest[0])
    ensures ParseInt(d + rest) == Some(DigitsValue(d))
  {
    var s := d + rest;
    ReadDigitsAt(s, 0, d);
    assert s[0] == d[0];
    assert SkipSpace(s, 0) == 0;
  }

  lemma {:induction false} ParseIntOfNegatedDigits(d: string, rest: string)
    requires d != [] && AllDigits(d)
    requires rest == [] || !IsDigit(rest[0])
    ensures ParseInt("-" + (d + rest)) == Some(-(DigitsValue(d) as int))
  {
    NegatedDigitsRun(d, rest);
    ParseIntMinus("-" + (d + rest));
  }

  /** After the sign, the digit run of "-" + d + rest is d. */
  lemma NegatedDigitsRun(d: string, rest: string)
    requires d != [] && AllDigits(d)
    requires rest == [] || !IsDigit(rest[0])
    ensures ReadDigits("-" + (d + rest), 1) == Some(DigitsValue(d))
  {
    var m := "-" + (d + rest);
    assert m[1..1 + |d|] == d;
    assert 1 + |d| < |m| ==> m[1 + |d|] == rest[0];
    ReadDigitsAt(m, 1, d);
  }

  /** A text that starts with '-' reads as the negated digit run after it. */
  lemma ParseIntMinus(m: string)
    requires m != [] && m[0] == '-'
    ensures ParseInt(m) == Negate(ReadDigits(m, 1))
  {
    assert SkipSpace(m, 0) == 0;
  }

  /** The digits d written at index i of s, followed by a non-digit or the
      end, read as their value. */
  lemma ReadDigitsAt(s: string, i: nat, d: string)
    requires d != [] && AllDigits(d)
    requires i + |d| <= |s| && s[i..i + |d|] == d
    requires i + |d| < |s| ==> !IsDigit(s[i + |d|])
    ensures ReadDigits(s, i) == Some(DigitsValue(d))
  {
    forall j | i <= j < i + |d|
      ensures IsDigit(s[j])
    {
      assert s[j] == d[j - i];
    }
    DigitEndAt(s, i, i + |d|);
  }

  /** The digit run from i ends at e when the characters in [i, e) are
      digits and the one at e is not. */
  lemma {:induction false} DigitEndAt(s: string, i: nat, e: nat)
    requires i <= e <= |s|
    requires forall j :: i <= j < e ==> IsDigit(s[j])
    requires e < |s| ==> !IsDigit(s[e])
    ensures DigitEnd(s, i) == e
    decreases e - i
  {
    if i < e {
      DigitEndAt(s, i + 1, e);
    }
  }

  /** The string order is total. */
  lemma {:induction false} StrLeTotal(a: string, b: string)
    ensures StrLe(a, b) || StrLe(b, a)
  {
    if a != [] && b != [] && a[0] == b[0] {
      StrLeTotal(a[1..], b[1..]);
    }
  }

  lemma {:induction false} StrLeRefl(a: string)
    ensures StrLe(a, a)
  {
    if a != [] {
      StrLeRefl(a[1..]);
    }
  }

  lemma {:induction false} StrLeTrans(a: string, b: string, c: string)
    requires StrLe(a, b) && StrLe(b, c)
    ensures StrLe(a, c)
  {
    if a != [] && b != [] && c != [] && a[0] == b[0] && b[0] == c[0] {
      StrLeTrans(a[1..], b[1..], c[1..]);
    }
  }

  /** The order of the default number sort is a total preorder. */
  lemma NumberTextLeIsTotalOrder()
    ensures Total(NumberTextLe) && Transitive(NumberTextLe)
  {
    forall a: int, b: int
      ensures NumberTextLe(a, b) || NumberTextLe(b, a)
    {
      StrLeTotal(IntToString(a), IntToString(b));
    }
    forall a: int, b: int, c: int | NumberTextLe(a, b) && NumberTextLe(b, c)
      ensures NumberTextLe(a, c)
    {
      StrLeTrans(IntToString(a), IntToString(b), IntToString(c));
    }
  }

  lemma SortedTail<T>(xs: seq<T>, le: (T, T) -> bool)
    requires Sorted(xs, le) && xs != []
    ensures Sorted(xs[1..], le)
  {
    forall i | 0 < i < |xs[1..]|
      ensures le(xs[1..][i - 1], xs[1..][i])
    {
      assert xs[1..][i - 1] == xs[i] && xs[1..][i] == xs[i + 1];
    }
  }

  lemma SortedCons<T>(a: T, r: seq<T>, le: (T, T) -> bool)
    requires Sorted(r, le) && (r == [] || le(a, r[0]))
    ensures Sorted([a] + r, le)
  {
    var out := [a] + r;
    forall i | 0 < i < |out|
      ensures le(out[i - 1], out[i])
    {
      if i > 1 {
        assert out[i - 1] == r[i - 2] && out[i] == r[i - 1];
      }
    }
  }

  /** Inserting into a sorted list keeps it sorted and adds exactly x; the
      head is x or the old head. */
  lemma {:induction false} InsertSorted<T(!new)>(x: T, xs: seq<T>, le: (T, T) -> bool)
    requires Total(le) && Sorted(xs, le)
    ensures Sorted(Insert(x, xs, le), le)
    ensures multiset(Insert(x, xs, le)) == multiset(xs) + multiset{x}
    ensures Insert(x, xs, le) != [] && (Insert(x, xs, le)[0] == x || (xs != [] && Insert(x, xs, le)[0] == xs[0]))
  {
    if xs != [] {
      assert xs == [xs[0]] + xs[1..];
      if le(xs[0], x) {
        SortedTail(xs, le);
        InsertSorted(x, xs[1..], le);
        var r := Insert(x, xs[1..], le);
        SortedCons(xs[0], r, le);
      } else {
        assert le(x, xs[0]);
        SortedCons(x, xs, le);
      }
    }
  }

  /** SortBy returns a sorted permutation of its input. */
  lemma {:induction false} SortBySorts<T(!new)>(xs: seq<T>, le: (T, T) -> bool)
    requires Total(le)
    ensures Sorted(SortBy(xs, le), le)
    ensures multiset(SortBy(xs, le)) == multiset(xs)
  {
    if xs != [] {
      var init, last := xs[..|xs| - 1], xs[|xs| - 1];
      SortBySorts(init, le);
      InsertSorted(last, SortBy(init, le), le);
      assert xs == init + [last];
    }
  }

  /** Inserting an element that no element exceeds appends it. */
  lemma {:induction false} InsertGreatest<T>(x: T, xs: seq<T>, le: (T, T) -> bool)
    requires forall i :: 0 <= i < |xs| ==> le(xs[i], x)
    ensures Insert(x, xs, le) == xs + [x]
  {
    if xs != [] {
      assert forall i :: 0 <= i < |xs[1..]| ==> xs[1..][i] == xs[i + 1];
      InsertGreatest(x, xs[1..], le);
      assert xs == [xs[0]] + xs[1..];
    }
  }

  /** In a sorted list no element is above a later one. */
  lemma {:induction false} SortedChain<T(!new)>(xs: seq<T>, le: (T, T) -> bool, i: nat, j: nat)
    requires Transitive(le) && Total(le) && Sorted(xs, le) && i <= j < |xs|
    ensures le(xs[i], xs[j])
    decreases j - i
  {
    if i < j {
      SortedChain(xs, le, i + 1, j);
    }
  }

  /** Sorting a sorted list leaves it as it is: the sort is stable. */
  lemma {:induction false} SortByOfSorted<T(!new)>(xs: seq<T>, le: (T, T) -> bool)
    requires Transitive(le) && Total(le) && Sorted(xs, le)
    ensures SortBy(xs, le) == xs
  {
    if xs != [] {
      var init, last := xs[..|xs| - 1], xs[|xs| - 1];
      assert Sorted(init, le) by {
        forall i | 0 < i < |init|
          ensures le(init[i - 1], init[i])
        {
          assert init[i - 1] == xs[i - 1] && init[i] == xs[i];
        }
      }
      SortByOfSorted(init, le);
      forall i | 0 <= i < |init|
        ensures le(init[i], last)
      {
        SortedChain(xs, le, i, |xs| - 1);
      }
      InsertGreatest(last, init, le);
      assert xs == init + [last];
    }
  }

  /** On single digits the string order of their decimal text is the order
      of the numbers. */
  lemma SingleDigitOrder(a: int, b: int)
    requires 0 <= a <= 9 && 0 <= b <= 9
    ensures NumberTextLe(a, b) <==> a <= b
  {
    var sa, sb := [DigitChar(a)], [DigitChar(b)];
    assert IntToString(a) == sa && IntToString(b) == sb;
    assert sa[1..] == [] && sb[1..] == [];
    assert StrLe(sa[1..], sb[1..]);
    assert StrLe(sa, sb) <==> a <= b;
  }

  /** Yet the string order is not numeric order beyond one digit. */
  lemma StringOrderIsNotNumeric()
    ensures StrLe(IntToString(10), IntToString(9)) && !StrLe(IntToString(9), IntToString(10))
  {
    assert IntToString(10) == ['1', '0'];
    assert IntToString(9) == ['9'];
  }

  /** Splitting at a space splits the two sides independently. */
  lemma {:induction false} SplitAtSpace(a: string, b: string)
    ensures Split(a + " " + b) == Split(a) + Split(b)
  {
    if a == [] {
      assert a + " " + b == [' '] + b;
      assert ([' '] + b)[1..] == b;
    } else {
      var s := a + " " + b;
      assert s[0] == a[0];
      assert s[1..] == a[1..] + " " + b;
      SplitAtSpace(a[1..], b);
      if a[0] == ' ' {
      } else {
        var rest := Split(a[1..]);
        assert Split(s[1..]) == rest + Split(b);
        assert (rest + Split(b))[0] == rest[0];
        assert (rest + Split(b))[1..] == rest[1..] + Split(b);
      }
    }
  }

  /** Splitting text without spaces gives the text itself. */
  lemma {:induction false} SplitNoSpace(s: string)
    requires forall k :: 0 <= k < |s| ==> s[k] != ' '
    ensures Split(s) == [s]
  {
    if s != [] {
      SplitNoSpace(s[1..]);
      assert s == [s[0]] + s[1..];
    }
  }

  /** split and join are inverse: joining the pieces with spaces gives the
      text back, and no piece contains a space. */
  lemma {:induction false} SplitJoin(s: string)
    ensures JoinSpaces(Split(s)) == s
    ensures forall p, k :: p in Split(s) && 0 <= k < |p| ==> p[k] != ' '
  {
    if s != [] {
      SplitJoin(s[1..]);
      var rest := Split(s[1..]);
      if s[0] == ' ' {
        assert Split(s)[1..] == rest;
        assert s == [] + " " + s[1..];
      } else {
        var parts := Split(s);
        assert parts[0] == [s[0]] + rest[0];
        if |rest| == 1 {
          assert s == [s[0]] + rest[0];
        } else {
          assert parts[1..] == rest[1..];
          assert JoinSpaces(rest) == rest[0] + " " + JoinSpaces(rest[1..]);
          assert s == [s[0]] + s[1..];
        }
        forall p, k | p in parts && 0 <= k < |p|
          ensures p[k] != ' '
        {
          if p == parts[0] {
            if k > 0 { assert p[k] == rest[0][k - 1]; }
          } else {
            assert p in rest[1..];
          }
        }
      }
    }
  }
}
