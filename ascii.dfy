/**
 * The ASCII fragment of the Go string primitives the model relies on:
 * `strings.ToLower`, the RE2 classes `\w` and `\s`, `strings.Fields`,
 * `strings.Split(h, " ")` and `strconv.Itoa`.
 */
module Ascii {

  // ---------------------------------------------------------------------------
  // Case mapping

  /** `unicode.ToLower` restricted to ASCII: only 'A'..'Z' change. */
  function LowerChar(c: char): char
  {
    if 'A' <= c <= 'Z' then (c as int + 32) as char else c
  }

  /** `strings.ToLower` over ASCII text. */
  function Lower(s: string): (r: string)
    ensures |r| == |s|
    ensures forall i :: 0 <= i < |s| ==> r[i] == LowerChar(s[i])
  {
    if s == [] then [] else [LowerChar(s[0])] + Lower(s[1..])
  }

  lemma LowerIdempotent(s: string)
    ensures Lower(Lower(s)) == Lower(s)
  {
    assert forall i :: 0 <= i < |s| ==> Lower(Lower(s))[i] == Lower(s)[i];
  }

  lemma LowerAppend(a: string, b: string)
    ensures Lower(a + b) == Lower(a) + Lower(b)
  {
    var l, r := Lower(a + b), Lower(a) + Lower(b);
    forall i | 0 <= i < |a + b| ensures l[i] == r[i] {
      if i < |a| {
        assert (a + b)[i] == a[i];
      } else {
        assert (a + b)[i] == b[i - |a|];
      }
    }
  }

  // ---------------------------------------------------------------------------
  // Character classes

  /** RE2's `\w`: ASCII letters, digits and underscore. */
  predicate IsWordChar(c: char)
  {
    '0' <= c <= '9' || 'a' <= c <= 'z' || 'A' <= c <= 'Z' || c == '_'
  }

  /** A word character as it can appear after lower-casing: `[0-9a-z_]`. */
  predicate IsLowerWordChar(c: char)
  {
    '0' <= c <= '9' || 'a' <= c <= 'z' || c == '_'
  }

  /** RE2's `\s`: tab, newline, form feed, carriage return and space (no vertical tab). */
  predicate IsRe2Space(c: char)
  {
    c == ' ' || c == '\t' || c == '\n' || c == '\U{0C}' || c == '\r'
  }

  /** `unicode.IsSpace`, the separator test of `strings.Fields`, on Latin-1. */
  predicate IsFieldSpace(c: char)
  {
    c == ' ' || c == '\t' || c == '\n' || c == '\U{0B}' || c == '\U{0C}' || c == '\r'
    || c == '\U{85}' || c == '\U{A0}'
  }

  lemma LowerKeepsClasses(c: char)
    ensures IsWordChar(LowerChar(c)) == IsWordChar(c)
    ensures IsWordChar(c) ==> IsLowerWordChar(LowerChar(c))
    ensures IsRe2Space(LowerChar(c)) == IsRe2Space(c)
  {
  }

  // ---------------------------------------------------------------------------
  // Filtering (the effect of `regexp.ReplaceAllString(s, "")` with a
  // one-character negated class)

  /** The characters of `s` that satisfy `keep`, in order. */
  function Filter(s: string, keep: char -> bool): (r: string)
    ensures |r| <= |s|
    ensures forall i :: 0 <= i < |r| ==> keep(r[i])
    ensures forall c :: c in r ==> c in s
    ensures forall i :: 0 <= i < |s| && keep(s[i]) ==> s[i] in r
    ensures (forall i :: 0 <= i < |s| ==> keep(s[i])) ==> r == s
    ensures (forall i :: 0 <= i < |s| ==> !keep(s[i])) ==> r == []
  {
    if s == [] then []
    else if keep(s[0]) then [s[0]] + Filter(s[1..], keep)
    else Filter(s[1..], keep)
  }

  lemma {:induction false} FilterAppend(a: string, b: string, keep: char -> bool)
    ensures Filter(a + b, keep) == Filter(a, keep) + Filter(b, keep)
  {
    if a == [] {
      assert a + b == b;
    } else {
      assert (a + b)[0] == a[0];
      assert (a + b)[1..] == a[1..] + b;
      FilterAppend(a[1..], b, keep);
    }
  }

  // ---------------------------------------------------------------------------
  // strings.Fields

  /** Length of the longest prefix of `s` that holds no separator. */
  function WordLen(s: string): (n: nat)
    ensures n <= |s|
    ensures forall i :: 0 <= i < n ==> !IsFieldSpace(s[i])
    ensures n < |s| ==> IsFieldSpace(s[n])
  {
    if s == [] || IsFieldSpace(s[0]) then 0 else 1 + WordLen(s[1..])
  }

  /** `strings.Fields`: the maximal runs of non-separator characters, in order. */
  function Fields(s: string): (ws: seq<string>)
    ensures forall i :: 0 <= i < |ws| ==> ws[i] != []
    ensures forall i, j :: 0 <= i < |ws| && 0 <= j < |ws[i]| ==> !IsFieldSpace(ws[i][j])
    ensures forall i, c :: 0 <= i < |ws| && c in ws[i] ==> c in s
    decreases |s|
  {
    if s == [] then []
    else if IsFieldSpace(s[0]) then
      assert forall c :: c in s[1..] ==> c in s;
      Fields(s[1..])
    else
      var n := WordLen(s);
      assert forall c :: c in s[..n] ==> c in s;
      assert forall c :: c in s[n..] ==> c in s;
      [s[..n]] + Fields(s[n..])
  }

  /** A string yields no fields exactly when it is all separators. */
  lemma {:induction false} FieldsEmptyIff(s: string)
    ensures Fields(s) == [] <==> forall i :: 0 <= i < |s| ==> IsFieldSpace(s[i])
    decreases |s|
  {
    if s != [] && IsFieldSpace(s[0]) {
      FieldsEmptyIff(s[1..]);
      if Fields(s[1..]) != [] {
        var i :| 0 <= i < |s[1..]| && !IsFieldSpace(s[1..][i]);
        assert !IsFieldSpace(s[i + 1]);
      }
    }
  }

  // ---------------------------------------------------------------------------
  // strings.Split(h, " ")

  /** Number of space characters in `h`. */
  function Spaces(h: string): nat
  {
    if h == [] then 0 else (if h[0] == ' ' then 1 else 0) + Spaces(h[1..])
  }

  /** `strings.Split(h, " ")`: the pieces between the spaces; `""` gives `[""]`. */
  function SplitSpace(h: string): (parts: seq<string>)
    ensures |parts| == Spaces(h) + 1
    ensures forall i :: 0 <= i < |parts| ==> ' ' !in parts[i]
  {
    if h == [] then [""]
    else
      var rest := SplitSpace(h[1..]);
      if h[0] == ' ' then [""] + rest
      else [[h[0]] + rest[0]] + rest[1..]
  }

  /** `strings.Join(parts, " ")`, the inverse of SplitSpace. */
  function JoinSpace(parts: seq<string>): string
    requires parts != []
  {
    if |parts| == 1 then parts[0] else parts[0] + " " + JoinSpace(parts[1..])
  }

  /** Splitting on spaces loses nothing: joining the pieces back gives the header. */
  lemma {:induction false} SplitJoin(h: string)
    ensures JoinSpace(SplitSpace(h)) == h
  {
    if h != [] {
      var rest := SplitSpace(h[1..]);
      SplitJoin(h[1..]);
      if h[0] == ' ' {
        assert SplitSpace(h) == [""] + rest;
        assert h == [h[0]] + h[1..];
      } else {
        var parts := SplitSpace(h);
        assert parts == [[h[0]] + rest[0]] + rest[1..];
        if |rest| == 1 {
          assert h == [h[0]] + rest[0];
        } else {
          assert parts[1..] == rest[1..];
          assert JoinSpace(rest) == rest[0] + " " + JoinSpace(rest[1..]);
          assert h == [h[0]] + h[1..];
        }
      }
    }
  }

  /** A string without spaces splits into itself alone. */
  lemma {:induction false} SplitNoSpace(s: string)
    requires ' ' !in s
    ensures SplitSpace(s) == [s]
  {
    if s != [] {
      assert ' ' !in s[1..] by {
        assert forall i :: 0 <= i < |s[1..]| ==> s[1..][i] == s[i + 1];
      }
      SplitNoSpace(s[1..]);
      assert [s[0]] + s[1..] == s;
    }
  }

  /** Two space-free pieces joined by one space split back into those pieces. */
  lemma {:induction false} SplitAroundSpace(p: string, tok: string)
    requires ' ' !in p && ' ' !in tok
    ensures SplitSpace(p + " " + tok) == [p, tok]
  {
    var h := p + " " + tok;
    if p == [] {
      assert h[1..] == tok;
      SplitNoSpace(tok);
    } else {
      assert ' ' !in p[1..] by {
        assert forall i :: 0 <= i < |p[1..]| ==> p[1..][i] == p[i + 1];
      }
      assert h[1..] == p[1..] + " " + tok;
      SplitAroundSpace(p[1..], tok);
      assert h[0] == p[0];
      assert [p[0]] + p[1..] == p;
    }
  }

  // ---------------------------------------------------------------------------
  // strconv.Itoa / strconv.Atoi on naturals

  function Digit(d: nat): char
    requires d < 10
  {
    ('0' as int + d) as char
  }

  function DigitValue(c: char): int
  {
    c as int - '0' as int
  }

  /** `strconv.Itoa` for non-negative numbers: decimal digits, no leading zero. */
  function Decimal(n: nat): (s: string)
    ensures s != []
    ensures forall i :: 0 <= i < |s| ==> '0' <= s[i] <= '9'
  {
    if n < 10 then [Digit(n)] else Decimal(n / 10) + [Digit(n % 10)]
  }

  /** `%d` formatting of any integer. */
  function IntString(i: int): (s: string)
    ensures s != []
  {
    if i < 0 then "-" + Decimal(-i) else Decimal(i)
  }

  /** `strconv.Atoi` on a string of decimal digits. */
  function ParseDecimal(s: string): int
  {
    if s == [] then 0 else ParseDecimal(s[..|s| - 1]) * 10 + DigitValue(s[|s| - 1])
  }

  /** Parsing what Itoa printed gives the number back. */
  lemma {:induction false} DecimalRoundTrip(n: nat)
    ensures ParseDecimal(Decimal(n)) == n
  {
    if n >= 10 {
      DecimalRoundTrip(n / 10);
      var s := Decimal(n);
      assert s[..|s| - 1] == Decimal(n / 10);
    } else {
      assert Decimal(n)[..0] == [];
    }
  }

  /** Distinct numbers print as distinct strings. */
  lemma DecimalInjective(m: nat, n: nat)
    requires m != n
    ensures Decimal(m) != Decimal(n)
  {
    DecimalRoundTrip(m);
    DecimalRoundTrip(n);
  }

  // ---------------------------------------------------------------------------
  // strings.Contains

  /** `strings.Contains(s, sub)`: `sub` occurs somewhere in `s`. */
  predicate Contains(s: string, sub: string)
  {
    sub <= s || (s != [] && Contains(s[1..], sub))
  }

  /** A string never contains anything longer than itself. */
  lemma {:induction false} ContainsNothingLonger(s: string, sub: string)
    requires |sub| > |s|
    ensures !Contains(s, sub)
  {
    if s != [] {
      ContainsNothingLonger(s[1..], sub);
    }
  }
}
