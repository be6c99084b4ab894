/** The initials a team member badge shows: the first character of each
    space-separated word of the name, upper-cased, at most two of them. */
module TeamMemberBadge {
  import opened Common
  import opened JsBuiltins

  predicate NoSpace(s: string) {
    forall k :: 0 <= k < |s| ==> s[k] != ' '
  }

  /** `map((part) => part[0]).join('')`: an empty piece has no first
      character and so adds nothing to the join. */
  function FirstChars(parts: seq<string>): (r: string)
    ensures |r| <= |parts|
  {
    if parts == [] then []
    else (if parts[0] == [] then [] else [parts[0][0]]) + FirstChars(parts[1..])
  }

  /** The badge text for the pieces of a name: their first characters,
      upper-cased, cut to two. */
  function InitialsOf(parts: seq<string>): (r: string)
    ensures |r| <= 2
  {
    var all := ToUpper(FirstChars(parts));
    all[..if |all| < 2 then |all| else 2]
  }

  function Initials(name: string): (r: string)
    ensures |r| <= 2
  {
    InitialsOf(Split(name))
  }

  // ----- Lemmas -----

  lemma {:induction false} FirstCharsAppend(a: seq<string>, b: seq<string>)
    ensures FirstChars(a + b) == FirstChars(a) + FirstChars(b)
  {
    if a == [] {
      assert a + b == b;
    } else {
      assert (a + b)[0] == a[0];
      assert (a + b)[1..] == a[1..] + b;
      FirstCharsAppend(a[1..], b);
    }
  }

  /** A single word gives its own first character, upper-cased. */
  lemma OneWord(w: string)
    requires w != [] && NoSpace(w)
    ensures Initials(w) == [UpperChar(w[0])]
  {
    SplitNoSpace(w);
    assert FirstChars([w]) == [w[0]];
  }

  /** Two or more words give the first characters of the first two,
      upper-cased: whatever follows the second word is cut off. */
  lemma TwoWords(a: string, b: string, rest: string)
    requires a != [] && NoSpace(a) && b != [] && NoSpace(b)
    ensures Initials(a + " " + b) == [UpperChar(a[0]), UpperChar(b[0])]
    ensures Initials(a + " " + (b + " " + rest)) == [UpperChar(a[0]), UpperChar(b[0])]
  {
    TwoWordsSplit(a, b, rest);
    assert [a, b] + [] == [a, b];
    LeadingPair(a, b, []);
    LeadingPair(a, b, Split(rest));
  }

  lemma TwoWordsSplit(a: string, b: string, rest: string)
    requires NoSpace(a) && NoSpace(b)
    ensures Split(a + " " + b) == [a, b]
    ensures Split(a + " " + (b + " " + rest)) == [a, b] + Split(rest)
  {
    SplitNoSpace(a);
    SplitNoSpace(b);
    SplitAtSpace(a, b);
    SplitAtSpace(a, b + " " + rest);
    SplitAtSpace(b, rest);
  }

  lemma LeadingPair(a: string, b: string, tail: seq<string>)
    requires a != [] && b != []
    ensures InitialsOf([a, b] + tail) == [UpperChar(a[0]), UpperChar(b[0])]
  {
    FirstCharsAppend([a, b], tail);
    assert FirstChars([a, b]) == [a[0], b[0]] by {
      assert [a, b][1..] == [b];
    }
  }

  /** The empty name and a name of spaces alone have no initials. */
  lemma {:induction false} BlankNameHasNone(name: string)
    requires forall k :: 0 <= k < |name| ==> name[k] == ' '
    ensures FirstChars(Split(name)) == []
    ensures Initials(name) == []
  {
    if name != [] {
      assert forall k :: 0 <= k < |name[1..]| ==> name[1..][k] == name[k + 1];
      BlankNameHasNone(name[1..]);
      assert FirstChars([[]] + Split(name[1..])) == FirstChars(Split(name[1..])) by {
        FirstCharsAppend([[]], Split(name[1..]));
      }
    }
  }

  /** A doubled space between words is no extra word: the empty piece it
      makes has no first character. */
  lemma DoubledSpaceIgnored(a: string, b: string)
    ensures Initials(a + "  " + b) == Initials(a + " " + b)
  {
    var pa, pb := Split(a), Split(b);
    assert FirstChars(Split(a + "  " + b)) == FirstChars(pa) + FirstChars(pb) by {
      DoubledSpaceSplit(a, b);
      FirstCharsAppend(pa, [[]] + pb);
      FirstCharsAppend([[]], pb);
      assert FirstChars([[]]) == [];
    }
    assert FirstChars(Split(a + " " + b)) == FirstChars(pa) + FirstChars(pb) by {
      DoubledSpaceSplit(a, b);
      FirstCharsAppend(pa, pb);
    }
    SameFirstChars(a + "  " + b, a + " " + b);
  }

  lemma SameFirstChars(x: string, y: string)
    requires FirstChars(Split(x)) == FirstChars(Split(y))
    ensures Initials(x) == Initials(y)
  {
  }

  lemma DoubledSpaceSplit(a: string, b: string)
    ensures Split(a + "  " + b) == Split(a) + ([[]] + Split(b))
    ensures Split(a + " " + b) == Split(a) + Split(b)
  {
    assert a + "  " + b == a + " " + ([] + " " + b);
    SplitAtSpace(a, [] + " " + b);
    SplitAtSpace([], b);
    SplitAtSpace(a, b);
  }

  /** The initials hold no lower-case ASCII letter. */
  lemma InitialsAreUpperCase(name: string)
    ensures forall k :: 0 <= k < |Initials(name)| ==> !('a' <= Initials(name)[k] <= 'z')
  {
  }
}
