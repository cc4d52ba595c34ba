/** `WordCount` of Task2/wordcount.go: lower-case, drop everything that is
    neither a word character nor RE2 white space, split into fields and
    count each field. */
module WordCount {
  import opened Ascii

  predicate IsWordOrSpace(c: char)
  {
    IsWordChar(c) || IsRe2Space(c)
  }

  /** `strings.ToLower`, then `[^\w\s]` removed. */
  function Normalize(s: string): (t: string)
    ensures forall i :: 0 <= i < |t| ==> IsLowerWordChar(t[i]) || IsRe2Space(t[i])
  {
    var t := Filter(Lower(s), IsWordOrSpace);
    assert forall i :: 0 <= i < |t| ==> IsLowerWordChar(t[i]) || IsRe2Space(t[i]) by {
      forall i | 0 <= i < |t| ensures IsLowerWordChar(t[i]) || IsRe2Space(t[i]) {
        assert t[i] in Lower(s);
        var j :| 0 <= j < |s| && Lower(s)[j] == t[i];
        LowerKeepsClasses(s[j]);
      }
    }
    t
  }

  /** The counts the loop accumulates over `ws`, one field at a time. */
  function Tally(ws: seq<string>): map<string, int>
  {
    if ws == [] then map[]
    else
      var m := Tally(ws[..|ws| - 1]);
      var w := ws[|ws| - 1];
      m[w := (if w in m then m[w] else 0) + 1]
  }

  /** The keys are exactly the fields, and each maps to how often it occurs. */
  lemma {:induction false} TallyCounts(ws: seq<string>)
    ensures forall w :: w in Tally(ws) <==> w in ws
    ensures forall w :: w in Tally(ws) ==> Tally(ws)[w] == multiset(ws)[w] >= 1
  {
    if ws != [] {
      var init, w := ws[..|ws| - 1], ws[|ws| - 1];
      assert ws == init + [w];
      TallyCounts(init);
    }
  }

  /** One more field adds one to its count. */
  lemma TallyStep(ws: seq<string>, w: string)
    ensures Tally(ws + [w]) == Tally(ws)[w := (if w in Tally(ws) then Tally(ws)[w] else 0) + 1]
  {
    var v := ws + [w];
    assert v[..|v| - 1] == ws && v[|v| - 1] == w;
  }

  /** The counting loop: `m[val] += 1` for each field in turn. */
  method Count(ws: seq<string>) returns (m: map<string, int>)
    ensures m == Tally(ws)
  {
    m := map[];
    for i := 0 to |ws|
      invariant m == Tally(ws[..i])
    {
      var w := ws[i];
      assert ws[..i + 1] == ws[..i] + [w];
      TallyStep(ws[..i], w);
      m := m[w := (if w in m then m[w] else 0) + 1];
    }
    assert ws[..|ws|] == ws;
  }

  /** The counts of the fields of the normalised input. */
  method WordCount(s: string) returns (m: map<string, int>)
    ensures m == Tally(Fields(Normalize(s)))
  {
    m := Count(Fields(Normalize(s)));
  }

  // ---------------------------------------------------------------------------
  // Sum of the counts

  ghost function MapSum(m: map<string, int>): int
    decreases |m|
  {
    if m == map[] then 0
    else
      var k :| k in m;
      assert |m - {k}| < |m| by { assert (m - {k}).Keys == m.Keys - {k}; }
      m[k] + MapSum(m - {k})
  }

  /** The sum does not depend on which key is taken out first. */
  lemma {:induction false} MapSumRemove(m: map<string, int>, k: string)
    requires k in m
    ensures MapSum(m) == m[k] + MapSum(m - {k})
    decreases |m|
  {
    var j :| j in m && MapSum(m) == m[j] + MapSum(m - {j});
    if j != k {
      assert (m - {j}).Keys == m.Keys - {j};
      assert (m - {k}).Keys == m.Keys - {k};
      MapSumRemove(m - {j}, k);
      MapSumRemove(m - {k}, j);
      assert (m - {j}) - {k} == (m - {k}) - {j};
    }
  }

  lemma MapSumIncrement(m: map<string, int>, w: string)
    ensures MapSum(m[w := (if w in m then m[w] else 0) + 1]) == MapSum(m) + 1
  {
    var m' := m[w := (if w in m then m[w] else 0) + 1];
    MapSumRemove(m', w);
    assert m' - {w} == m - {w};
    if w in m {
      MapSumRemove(m, w);
    } else {
      assert m - {w} == m;
    }
  }

  /** The counts add up to the number of fields. */
  lemma {:induction false} TallySum(ws: seq<string>)
    ensures MapSum(Tally(ws)) == |ws|
  {
    if ws != [] {
      var init, w := ws[..|ws| - 1], ws[|ws| - 1];
      var m := Tally(init);
      assert Tally(ws) == m[w := (if w in m then m[w] else 0) + 1];
      TallySum(init);
      MapSumIncrement(m, w);
    }
  }

  // ---------------------------------------------------------------------------
  // What the keys look like

  /** Every key is a non-empty run of `[0-9a-z_]`. */
  lemma KeysAreLowerWords(s: string)
    ensures forall w :: w in Tally(Fields(Normalize(s))) ==>
              w != [] && forall j :: 0 <= j < |w| ==> IsLowerWordChar(w[j])
  {
    var t := Normalize(s);
    var ws := Fields(t);
    TallyCounts(ws);
    forall w | w in Tally(ws)
      ensures w != [] && forall j :: 0 <= j < |w| ==> IsLowerWordChar(w[j])
    {
      var i :| 0 <= i < |ws| && ws[i] == w;
      forall j | 0 <= j < |w| ensures IsLowerWordChar(w[j]) {
        assert w[j] in t;
      }
    }
  }

  /** Lower-casing the input first changes nothing. */
  lemma CaseInsensitive(s: string)
    ensures Tally(Fields(Normalize(Lower(s)))) == Tally(Fields(Normalize(s)))
  {
    LowerIdempotent(s);
  }

  /** No field means no count, and the other way round. */
  lemma TallyEmptyIff(ws: seq<string>)
    ensures Tally(ws) == map[] <==> ws == []
  {
    if ws != [] {
      assert ws[|ws| - 1] in Tally(ws);
    }
  }

  /** Normalising leaves a field exactly when the input holds a word character. */
  lemma NoFieldIffNoWordChar(s: string)
    ensures Fields(Normalize(s)) == [] <==> forall i :: 0 <= i < |s| ==> !IsWordChar(s[i])
  {
    var t := Normalize(s);
    FieldsEmptyIff(t);
    if forall i :: 0 <= i < |s| ==> !IsWordChar(s[i]) {
      OnlySpacesLeft(s);
    } else {
      var i :| 0 <= i < |s| && IsWordChar(s[i]);
      LowerKeepsClasses(s[i]);
      assert Lower(s)[i] in t;
      var k :| 0 <= k < |t| && t[k] == Lower(s)[i];
      assert !IsFieldSpace(t[k]);
    }
  }

  /** The map is empty exactly when the input holds no word character;
      in particular for "" and for white space or punctuation only. */
  lemma EmptyIffNoWordChar(s: string)
    ensures Tally(Fields(Normalize(s))) == map[] <==>
            forall i :: 0 <= i < |s| ==> !IsWordChar(s[i])
  {
    TallyEmptyIff(Fields(Normalize(s)));
    NoFieldIffNoWordChar(s);
  }

  lemma OnlySpacesLeft(s: string)
    requires forall i :: 0 <= i < |s| ==> !IsWordChar(s[i])
    ensures forall i :: 0 <= i < |Normalize(s)| ==> IsFieldSpace(Normalize(s)[i])
  {
    var t := Normalize(s);
    forall i | 0 <= i < |t| ensures IsFieldSpace(t[i]) {
      assert t[i] in Lower(s);
      var j :| 0 <= j < |s| && Lower(s)[j] == t[i];
      LowerKeepsClasses(s[j]);
    }
  }

  /** Punctuation is deleted before splitting, so "don't" counts as "dont"
      and a token made only of punctuation vanishes. */
  lemma PunctuationDropped(a: string, c: char, b: string)
    requires !IsWordChar(c) && !IsRe2Space(c)
    ensures Normalize(a + [c] + b) == Normalize(a + b)
  {
    var la, lc, lb := Lower(a), Lower([c]), Lower(b);
    LowerAppend(a + [c], b);
    LowerAppend(a, [c]);
    LowerAppend(a, b);
    assert Lower(a + [c] + b) == (la + lc) + lb;
    LowerKeepsClasses(c);
    assert Filter(lc, IsWordOrSpace) == [];
    FilterAppend(la + lc, lb, IsWordOrSpace);
    FilterAppend(la, lc, IsWordOrSpace);
    FilterAppend(la, lb, IsWordOrSpace);
    assert Filter(la + lc, IsWordOrSpace) == Filter(la, IsWordOrSpace);
  }
}
