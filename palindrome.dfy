/** `Palindrome` of Task2/palindrom.go: lower-case, drop every non-word
    character, then compare the two ends moving inwards. */
module Palindrome {
  import opened Ascii

  /** The string the scan runs over: `strings.ToLower`, then `[^\w]` removed. */
  function Normalize(s: string): (t: string)
    ensures forall i :: 0 <= i < |t| ==> IsLowerWordChar(t[i])
  {
    var t := Filter(Lower(s), IsWordChar);
    assert forall i :: 0 <= i < |t| ==> IsLowerWordChar(t[i]) by {
      forall i | 0 <= i < |t| ensures IsLowerWordChar(t[i]) {
        assert t[i] in Lower(s);
        var j :| 0 <= j < |s| && Lower(s)[j] == t[i];
        LowerKeepsClasses(s[j]);
      }
    }
    t
  }

  function Reversed(t: string): (r: string)
    ensures |r| == |t|
    ensures forall i :: 0 <= i < |t| ==> r[i] == t[|t| - 1 - i]
  {
    if t == [] then [] else Reversed(t[1..]) + [t[0]]
  }

  /** Every character equals its mirror image. */
  ghost predicate Mirrored(t: string)
  {
    forall i :: 0 <= i < |t| ==> t[i] == t[|t| - 1 - i]
  }

  lemma MirroredIffReversed(t: string)
    ensures Mirrored(t) <==> t == Reversed(t)
  {
    var r := Reversed(t);
    if Mirrored(t) {
      assert forall i :: 0 <= i < |t| ==> t[i] == r[i];
      assert t == r;
    }
    if t == r {
      forall i | 0 <= i < |t| ensures t[i] == t[|t| - 1 - i] {
        assert r[i] == t[|t| - 1 - i];
      }
    }
  }

  /** The two-pointer loop: `l` and `r` move inwards until they cross or the characters differ. */
  method Scan(t: string) returns (b: bool)
    ensures b <==> Mirrored(t)
  {
    var l, r := 0, |t| - 1;
    while l <= r
      invariant 0 <= l <= |t|
      invariant l + r == |t| - 1
      invariant forall i :: 0 <= i < l ==> t[i] == t[|t| - 1 - i]
    {
      if t[l] != t[r] {
        assert !Mirrored(t);
        return false;
      }
      l, r := l + 1, r - 1;
    }
    assert Mirrored(t) by {
      forall i | l <= i < |t| ensures t[i] == t[|t| - 1 - i] {
        assert |t| - 1 - i < l;
      }
    }
    return true;
  }

  /** True iff the normalised string reads the same backwards. */
  method Palindrome(s: string) returns (b: bool)
    ensures b <==> Normalize(s) == Reversed(Normalize(s))
  {
    var t := Normalize(s);
    b := Scan(t);
    MirroredIffReversed(t);
  }

  /** Lower-casing the input first changes nothing. */
  lemma CaseInsensitive(s: string)
    ensures Normalize(Lower(s)) == Normalize(s)
  {
    LowerIdempotent(s);
  }

  /** Deleting a non-word character (space, punctuation) anywhere changes nothing. */
  lemma NonWordIgnored(a: string, c: char, b: string)
    requires !IsWordChar(c)
    ensures Normalize(a + [c] + b) == Normalize(a + b)
  {
    var la, lc, lb := Lower(a), Lower([c]), Lower(b);
    LowerAppend(a + [c], b);
    LowerAppend(a, [c]);
    LowerAppend(a, b);
    assert Lower(a + [c] + b) == (la + lc) + lb;
    LowerKeepsClasses(c);
    assert Filter(lc, IsWordChar) == [];
    FilterAppend(la + lc, lb, IsWordChar);
    FilterAppend(la, lc, IsWordChar);
    FilterAppend(la, lb, IsWordChar);
    assert Filter(la + lc, IsWordChar) == Filter(la, IsWordChar);
  }

  /** Input without word characters normalises to "" and so is a palindrome. */
  lemma NoWordCharsIsPalindrome(s: string)
    requires forall i :: 0 <= i < |s| ==> !IsWordChar(s[i])
    ensures Normalize(s) == [] && Normalize(s) == Reversed(Normalize(s))
  {
    forall i | 0 <= i < |s| ensures !IsWordChar(Lower(s)[i]) {
      LowerKeepsClasses(s[i]);
    }
  }

  /** The underscore is a word character: every one survives normalisation,
      and it is compared like any other character. */
  lemma UnderscoreKept(s: string)
    requires '_' in s
    ensures '_' in Normalize(s)
    ensures Normalize("_a") != Reversed(Normalize("_a"))
  {
    var j :| 0 <= j < |s| && s[j] == '_';
    assert Lower(s)[j] == '_';
    assert Lower("_a") == "_a";
    assert Normalize("_a") == "_a";
    assert Reversed("_a")[0] == 'a';
  }
}
