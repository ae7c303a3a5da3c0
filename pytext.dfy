/** The Python string operations the transformer inspects rendered terms with:
    `str.find`, `str.rfind`, the `in` operator, slicing, the last piece of
    `str.split`, and `float` restricted to plain decimal numerals. */
module PyText {
  import opened Outcomes

  /** `sub` occurs in `s` starting at index `i`. */
  predicate OccursAt(s: string, sub: string, i: int) {
    0 <= i && i + |sub| <= |s| && s[i..i + |sub|] == sub
  }

  /** `s.find(sub)`: the first index at which `sub` occurs, or -1. */
  function Find(s: string, sub: string): (r: int)
    ensures -1 <= r <= |s|
    ensures r >= 0 ==> OccursAt(s, sub, r) && forall j :: 0 <= j < r ==> !OccursAt(s, sub, j)
    ensures r == -1 ==> forall j :: !OccursAt(s, sub, j)
  {
    FindFrom(s, sub, 0)
  }

  function FindFrom(s: string, sub: string, i: nat): (r: int)
    decreases |s| - i
    ensures r == -1 || (i <= r && OccursAt(s, sub, r))
    ensures r >= 0 ==> forall j :: i <= j < r ==> !OccursAt(s, sub, j)
    ensures r == -1 ==> forall j :: i <= j ==> !OccursAt(s, sub, j)
  {
    if OccursAt(s, sub, i) then i
    else if i + |sub| >= |s| then -1
    else FindFrom(s, sub, i + 1)
  }

  /** `s.rfind(sub)`: the last index at which `sub` occurs, or -1. */
  function RFind(s: string, sub: string): (r: int)
    ensures -1 <= r <= |s|
    ensures r >= 0 ==> OccursAt(s, sub, r) && forall j :: r < j ==> !OccursAt(s, sub, j)
    ensures r == -1 ==> forall j :: !OccursAt(s, sub, j)
  {
    RFindBelow(s, sub, |s| + 1)
  }

  function RFindBelow(s: string, sub: string, n: nat): (r: int)
    ensures -1 <= r < n
    ensures r >= 0 ==> OccursAt(s, sub, r) && forall j :: r < j < n ==> !OccursAt(s, sub, j)
    ensures r == -1 ==> forall j :: j < n ==> !OccursAt(s, sub, j)
  {
    if n == 0 then -1
    else if OccursAt(s, sub, n - 1) then n - 1
    else RFindBelow(s, sub, n - 1)
  }

  /** An occurrence of `sub` starts with the first character of `sub`. */
  lemma OccurrenceLead(s: string, sub: string)
    requires |sub| > 0
    ensures forall j :: OccursAt(s, sub, j) ==> s[j] == sub[0]
  {
    forall j | OccursAt(s, sub, j) ensures s[j] == sub[0] {
      assert s[j..j + |sub|][0] == s[j];
    }
  }

  /** `sub in s`. */
  predicate Contains(s: string, sub: string) {
    Find(s, sub) != -1
  }

  /** A Python slice bound `i` resolved against a length `n`: negative bounds count from the end. */
  function Bound(i: int, n: nat): (r: nat)
    ensures r <= n
  {
    if i < 0 then (if i + n < 0 then 0 else i + n)
    else if i > n then n
    else i
  }

  /** `s[a:b]`: the characters from the resolved lower bound up to, not including, the
      resolved upper bound; empty when the bounds cross. */
  function Slice(s: string, a: int, b: int): (r: string)
    ensures var lo, hi := Bound(a, |s|), Bound(b, |s|);
      |r| == (if lo < hi then hi - lo else 0) && forall k :: 0 <= k < |r| ==> r[k] == s[lo + k]
  {
    var lo, hi := Bound(a, |s|), Bound(b, |s|);
    if lo < hi then s[lo..hi] else []
  }

  /** `s.split(sep)[-1]`: the text after the last separator that a left-to-right split consumes. */
  function SplitLast(s: string, sep: string): (r: string)
    requires |sep| > 0
    decreases |s|
    ensures |r| <= |s| && r == s[|s| - |r|..]
    ensures !Contains(r, sep)
    ensures !Contains(s, sep) ==> r == s
  {
    var i := Find(s, sep);
    if i == -1 then s
    else
      var rest := s[i + |sep|..];
      var r := SplitLast(rest, sep);
      assert r == rest[|rest| - |r|..];
      r
  }

  /** One step of `SplitLast`: with the separator first found at `i`, the piece is the piece of
      the text after that occurrence. */
  lemma SplitLastStep(s: string, sep: string)
    requires |sep| > 0 && Contains(s, sep)
    ensures var i := Find(s, sep);
      i + |sep| <= |s| && OccursAt(s, sep, i) && SplitLast(s, sep) == SplitLast(s[i + |sep|..], sep)
  {
  }

  /** An occurrence cuts the text into what precedes it, the separator and what follows it. */
  lemma CutAt(s: string, sep: string, i: int)
    requires OccursAt(s, sep, i)
    ensures s == s[..i] + sep + s[i + |sep|..]
  {
    assert s == s[..i] + s[i..i + |sep|] + s[i + |sep|..];
  }

  lemma Regroup(a: string, b: string, sep: string, r: string)
    ensures a + (b + sep + r) == (a + b) + sep + r
  {
  }

  /** When the separator occurs, the text is some prefix, a separator, and the last piece. */
  lemma {:induction false} SplitLastParts(s: string, sep: string) returns (pre: string)
    requires |sep| > 0 && Contains(s, sep)
    decreases |s|
    ensures s == pre + sep + SplitLast(s, sep)
  {
    var i := Find(s, sep);
    var rest := s[i + |sep|..];
    SplitLastStep(s, sep);
    CutAt(s, sep, i);
    if Contains(rest, sep) {
      var inner := SplitLastParts(rest, sep);
      pre := s[..i] + sep + inner;
      Regroup(s[..i] + sep, inner, sep, SplitLast(rest, sep));
    } else {
      pre := s[..i];
    }
  }

  lemma PartsOccur(s: string, pre: string, sep: string, r: string)
    requires s == pre + sep + r
    ensures |r| + |sep| <= |s| && OccursAt(s, sep, |s| - |r| - |sep|)
  {
    assert s[|pre|..|pre| + |sep|] == sep;
  }

  /** When the separator occurs, the last piece directly follows an occurrence of it. */
  lemma SplitLastFollowsSeparator(s: string, sep: string)
    requires |sep| > 0
    ensures Contains(s, sep) ==>
      var r := SplitLast(s, sep); |r| + |sep| <= |s| && OccursAt(s, sep, |s| - |r| - |sep|)
  {
    if Contains(s, sep) {
      var pre := SplitLastParts(s, sep);
      PartsOccur(s, pre, sep, SplitLast(s, sep));
    }
  }

  /** A `**` after the separator that precedes a piece either lies in the piece or overlaps the
      separator, making `***`. */
  lemma LaterPair(s: string, pre: string, r: string, j: int)
    requires s == pre + "**" + r && OccursAt(s, "**", j) && j > |pre|
    ensures Contains(r, "**") || Contains(s, "***")
  {
    if j == |pre| + 1 {
      assert s[|pre|..|pre| + 3] == "***";
      assert OccursAt(s, "***", |pre|);
    } else {
      assert r[j - |pre| - 2..j - |pre|] == s[j..j + 2];
      assert OccursAt(r, "**", j - |pre| - 2);
    }
  }

  /** Where separators cannot overlap, the last piece is the text after the last `**`, as
      `rfind` locates it. */
  lemma SplitLastAfterRFind(s: string)
    requires Contains(s, "**") && !Contains(s, "***")
    ensures RFind(s, "**") >= 0 && SplitLast(s, "**") == s[RFind(s, "**") + 2..]
  {
    var pre := SplitLastParts(s, "**");
    var r := SplitLast(s, "**");
    assert OccursAt(s, "**", |pre|) by {
      assert s[|pre|..|pre| + 2] == "**";
    }
    var k := RFind(s, "**");
    if k > |pre| {
      LaterPair(s, pre, r, k);
      assert false;
    }
    assert s[|pre| + 2..] == r;
  }

  /** An occurrence of `sub` at `k` with no earlier character equal to the first of `sub` is
      the one `s.find(sub)` returns. */
  lemma FindAt(s: string, sub: string, k: nat)
    requires |sub| > 0 && OccursAt(s, sub, k)
    requires forall j :: 0 <= j < k ==> s[j] != sub[0]
    ensures Find(s, sub) == k
  {
    OccurrenceLead(s, sub);
  }

  /** A text without '*' holds no `**`. */
  lemma NoSeparator(s: string)
    requires '*' !in s
    ensures !Contains(s, "**")
  {
    OccurrenceLead(s, "**");
  }

  /** A `**` at `d + k` is a `**` at `k` of the text from `d` on, and what follows it is the
      same in both. */
  lemma DropSeparator(s: string, d: nat, k: nat)
    requires d <= |s| && OccursAt(s, "**", d + k)
    ensures OccursAt(s[d..], "**", k) && s[d..][k + 2..] == s[d + k + 2..]
  {
    assert s[d..][k..k + 2] == s[d + k..d + k + 2];
  }

  /** A `**` at `i`, not preceded by a '*', and no '*' after it. */
  predicate FinalSeparator(s: string, i: nat) {
    OccursAt(s, "**", i) && (i == 0 || s[i - 1] != '*') && '*' !in s[i + 2..]
  }

  /** Past an earlier `**` at `first`, the text that remains has its final `**` moved down by
      `first + 2`. */
  lemma ShiftSeparator(s: string, i: nat, first: nat)
    requires FinalSeparator(s, i) && OccursAt(s, "**", first) && first < i
    ensures first + 2 <= i
    ensures FinalSeparator(s[first + 2..], i - first - 2)
    ensures s[first + 2..][i - first..] == s[i + 2..]
  {
    var rest, k := s[first + 2..], i - first - 2;
    DropSeparator(s, first + 2, k);
    assert k == 0 || rest[k - 1] != '*' by {
      if k > 0 {
        assert rest[k - 1] == s[i - 1];
      }
    }
  }

  /** The final `**` of a text is the last separator `s.split("**")` consumes: the last piece
      is what follows it. */
  lemma {:induction false} LastSeparatorAt(s: string, i: nat)
    requires FinalSeparator(s, i)
    ensures Contains(s, "**") && SplitLast(s, "**") == s[i + 2..]
    decreases |s|
  {
    var first := Find(s, "**");
    assert 0 <= first <= i;
    SplitLastStep(s, "**");
    var rest := s[first + 2..];
    if first == i {
      NoSeparator(rest);
    } else {
      ShiftSeparator(s, i, first);
      var k := i - first - 2;
      assert FinalSeparator(rest, k);
      LastSeparatorAt(rest, k);
    }
  }

  predicate IsDigit(c: char) {
    '0' <= c <= '9'
  }

  predicate AllDigits(s: string) {
    forall i :: 0 <= i < |s| ==> IsDigit(s[i])
  }

  /** The value of a string of decimal digits, most significant first. */
  function DigitsValue(s: string): nat
    requires AllDigits(s)
  {
    if s == [] then 0
    else DigitsValue(s[..|s| - 1]) * 10 + (s[|s| - 1] as int - '0' as int)
  }

  function Pow10(n: nat): (r: nat)
    ensures r > 0
  {
    if n == 0 then 1 else 10 * Pow10(n - 1)
  }

  /** An unsigned decimal numeral: digits with at most one '.', and at least one digit. */
  function ParseUnsigned(s: string): Option<real> {
    var dot := Find(s, ".");
    assert dot == -1 || dot < |s| by {
      if dot != -1 {
        assert OccursAt(s, ".", dot);
      }
    }
    var whole := if dot == -1 then s else s[..dot];
    var frac := if dot == -1 then [] else s[dot + 1..];
    if |whole| + |frac| > 0 && AllDigits(whole) && AllDigits(frac) then
      Some(DigitsValue(whole) as real + DigitsValue(frac) as real / Pow10(|frac|) as real)
    else None
  }

  /** An optionally signed decimal numeral with nothing around it. */
  function ParseNumeral(s: string): (r: Option<real>)
    ensures r.Some? ==> |s| > 0 && (IsDigit(s[0]) || s[0] in "+-.")
  {
    if |s| > 0 && (s[0] == '+' || s[0] == '-') then
      match ParseUnsigned(s[1..])
      case None => None
      case Some(v) => Some(if s[0] == '-' then -v else v)
    else
      var r := ParseUnsigned(s);
      assert r.Some? ==> |s| > 0 && (IsDigit(s[0]) || s[0] == '.') by {
        if r.Some? && |s| > 0 {
          var dot := Find(s, ".");
          if dot != 0 {
            var whole := if dot == -1 then s else s[..dot];
            assert whole[0] == s[0];
          } else {
            assert OccursAt(s, ".", 0);
            assert s[0..1] == ".";
          }
        }
      }
      r
  }

  /** The ASCII whitespace `str.strip()` removes: space, tab, newline, vertical tab, form
      feed and carriage return. */
  predicate IsSpace(c: char) {
    c == ' ' || '\t' <= c <= '\r'
  }

  /** How many whitespace characters `s` starts with. */
  function LeadingSpaces(s: string): (n: nat)
    ensures n <= |s|
  {
    if |s| > 0 && IsSpace(s[0]) then 1 + LeadingSpaces(s[1..]) else 0
  }

  /** How many whitespace characters `s` ends with. */
  function TrailingSpaces(s: string): (n: nat)
    ensures n <= |s|
  {
    if |s| > 0 && IsSpace(s[|s| - 1]) then 1 + TrailingSpaces(s[..|s| - 1]) else 0
  }

  /** `s.strip()`, which `float` applies before it reads the numeral. */
  function Strip(s: string): string {
    var r := s[..|s| - TrailingSpaces(s)];
    r[LeadingSpaces(r)..]
  }

  /** `float(s)`: the numeral left once surrounding whitespace is stripped; None where
      Python raises ValueError. */
  function ParseFloat(s: string): (r: Option<real>)
    ensures r.Some? ==> |Strip(s)| > 0 && (IsDigit(Strip(s)[0]) || Strip(s)[0] in "+-.")
  {
    ParseNumeral(Strip(s))
  }

  /** A text that neither starts nor ends with whitespace is its own strip. */
  lemma StripPlain(s: string)
    requires |s| > 0 ==> !IsSpace(s[0]) && !IsSpace(s[|s| - 1])
    ensures Strip(s) == s
  {
  }

  /** One more character in front of `s` adds to its trailing whitespace only when `s` is
      all whitespace. */
  lemma {:induction false} TrailingSpacesCons(c: char, s: string)
    ensures TrailingSpaces([c] + s) ==
      if TrailingSpaces(s) == |s| then |s| + TrailingSpaces([c]) else TrailingSpaces(s)
    decreases |s|
  {
    if |s| == 0 {
      assert [c] + s == [c];
    } else {
      var t := [c] + s;
      assert t[|t| - 1] == s[|s| - 1];
      if IsSpace(s[|s| - 1]) {
        assert t[..|t| - 1] == [c] + s[..|s| - 1];
        TrailingSpacesCons(c, s[..|s| - 1]);
      }
    }
  }

  /** `float` reads a text that neither starts nor ends with whitespace as it stands. */
  lemma ParsePlain(s: string)
    requires |s| > 0 && !IsSpace(s[0]) && !IsSpace(s[|s| - 1])
    ensures ParseFloat(s) == ParseNumeral(s)
  {
    StripPlain(s);
  }

  /** Whitespace around a text strips away: `(" " + s + " ").strip() == s.strip()`. */
  lemma StripPadded(s: string)
    ensures Strip(" " + s + " ") == Strip(s)
  {
    var p := " " + s + " ";
    assert p[..|p| - 1] == " " + s;
    assert TrailingSpaces(p) == 1 + TrailingSpaces(" " + s);
    TrailingSpacesCons(' ', s);
    var m := |s| - TrailingSpaces(s);
    if m > 0 {
      var r := s[..m];
      assert p[..|p| - TrailingSpaces(p)] == " " + r;
      assert (" " + r)[1..] == r;
      assert LeadingSpaces(" " + r) == 1 + LeadingSpaces(r);
      assert (" " + r)[1 + LeadingSpaces(r)..] == r[LeadingSpaces(r)..];
    } else {
      assert TrailingSpaces([' ']) == 1 by {
        assert [' '][..0] == [];
      }
      assert p[..|p| - TrailingSpaces(p)] == [];
    }
  }

  /** One trailing space strips away: `(s + " ").strip() == s.strip()`. */
  lemma StripTrailingSpace(s: string)
    ensures Strip(s + " ") == Strip(s)
  {
    var p := s + " ";
    assert p[..|p| - 1] == s;
    assert TrailingSpaces(p) == 1 + TrailingSpaces(s);
    assert p[..|p| - TrailingSpaces(p)] == s[..|s| - TrailingSpaces(s)];
  }

  /** `float(s + " ") == float(s)`: a numeral reads the same with a space after it, as in the
      `"2 "` that `"(x**2 + 1)"` leaves after its `**`. */
  lemma ParseFloatTrailingSpace(s: string)
    ensures ParseFloat(s + " ") == ParseFloat(s)
  {
    StripTrailingSpace(s);
  }

  /** `float(" " + s + " ") == float(s)`: a numeral reads the same with spaces around it. */
  lemma ParseFloatPadded(s: string)
    ensures ParseFloat(" " + s + " ") == ParseFloat(s)
  {
    StripPadded(s);
  }

  function Digit(d: nat): (c: char)
    requires d < 10
    ensures IsDigit(c)
  {
    ('0' as int + d) as char
  }

  /** `str(n)` for a natural number `n`. */
  function NatText(n: nat): (s: string)
    decreases n
  {
    if n < 10 then [Digit(n)] else NatText(n / 10) + [Digit(n % 10)]
  }

  lemma {:induction false} NatTextDigits(n: nat)
    ensures |NatText(n)| > 0 && AllDigits(NatText(n)) && DigitsValue(NatText(n)) == n
  {
    if n >= 10 {
      NatTextDigits(n / 10);
      var s := NatText(n);
      assert s[..|s| - 1] == NatText(n / 10);
    }
  }

  /** A sign in front of an unsigned numeral makes a numeral with that sign. */
  lemma NumeralSign(s: string, v: real)
    requires ParseUnsigned(s) == Some(v)
    ensures ParseNumeral("-" + s) == Some(-v) && ParseNumeral("+" + s) == Some(v)
  {
    assert ("-" + s)[1..] == s && ("+" + s)[1..] == s;
  }

  /** A sign in front of a rendered natural number makes a numeral with that sign. */
  lemma NumeralSignedNatText(n: nat)
    ensures ParseNumeral("-" + NatText(n)) == Some(-(n as real))
    ensures ParseNumeral("+" + NatText(n)) == Some(n as real)
  {
    var s := NatText(n);
    assert ParseUnsigned(s) == Some(n as real) by {
      NumeralNatText(n);
      NatTextDigits(n);
      assert IsDigit(s[0]);
    }
    NumeralSign(s, n as real);
  }

  /** `float("-" + str(n)) == -n` and `float("+" + str(n)) == n`: a sign in front of a
      rendered natural number is read back as that sign. */
  lemma ParseFloatSignedNatText(n: nat)
    ensures ParseFloat("-" + NatText(n)) == Some(-(n as real))
    ensures ParseFloat("+" + NatText(n)) == Some(n as real)
  {
    var s := NatText(n);
    NumeralSignedNatText(n);
    assert !IsSpace(("-" + s)[|s|]) && !IsSpace(("+" + s)[|s|]) by {
      NatTextDigits(n);
      assert IsDigit(s[|s| - 1]);
      assert ("-" + s)[|s|] == s[|s| - 1] && ("+" + s)[|s|] == s[|s| - 1];
    }
    ParsePlain("-" + s);
    ParsePlain("+" + s);
  }

  /** The first '.' of `w + "." + f` for a digit string `w` is the one after `w`. */
  lemma DotAfterDigits(w: string, f: string)
    requires AllDigits(w)
    ensures var s := w + "." + f;
      Find(s, ".") == |w| && s[..|w|] == w && s[|w| + 1..] == f
  {
    var s := w + "." + f;
    assert s[|w|..|w| + 1] == ".";
    assert OccursAt(s, ".", |w|);
    forall j | 0 <= j < |w| ensures !OccursAt(s, ".", j) {
      assert s[j..j + 1][0] == s[j] == w[j];
    }
    assert s[..|w|] == w && s[|w| + 1..] == f;
  }

  /** A text whose first '.' splits it into digit strings `w` and `f` reads as their value. */
  lemma UnsignedDecimal(s: string, w: string, f: string)
    requires AllDigits(w) && AllDigits(f) && |w| + |f| > 0
    requires Find(s, ".") == |w| && s[..|w|] == w && s[|w| + 1..] == f
    ensures ParseUnsigned(s) == Some(DigitsValue(w) as real + DigitsValue(f) as real / Pow10(|f|) as real)
  {
    var dot := Find(s, ".");
    var whole := if dot == -1 then s else s[..dot];
    var frac := if dot == -1 then [] else s[dot + 1..];
    assert whole == w && frac == f;
  }

  /** `w + "." + f` for digit strings `w` and `f`, not both empty, is a numeral worth the
      whole part plus the fraction digits scaled by their count. */
  lemma NumeralDecimal(w: string, f: string)
    requires AllDigits(w) && AllDigits(f) && |w| + |f| > 0
    ensures ParseNumeral(w + "." + f) ==
      Some(DigitsValue(w) as real + DigitsValue(f) as real / Pow10(|f|) as real)
  {
    var s := w + "." + f;
    DotAfterDigits(w, f);
    UnsignedDecimal(s, w, f);
    assert s[0] != '+' && s[0] != '-' by {
      if |w| > 0 {
        assert s[0] == w[0];
      } else {
        assert s[0] == '.';
      }
    }
  }

  /** `float(w + "." + f)` for digit strings `w` and `f`, not both empty: the whole part plus
      the fraction digits scaled by their count, as in `2.5` or `.5`. */
  lemma ParseFloatDecimal(w: string, f: string)
    requires AllDigits(w) && AllDigits(f) && |w| + |f| > 0
    ensures ParseFloat(w + "." + f) ==
      Some(DigitsValue(w) as real + DigitsValue(f) as real / Pow10(|f|) as real)
  {
    var s := w + "." + f;
    NumeralDecimal(w, f);
    assert !IsSpace(s[0]) by {
      if |w| > 0 {
        assert s[0] == w[0];
      } else {
        assert s[0] == '.';
      }
    }
    assert !IsSpace(s[|s| - 1]) by {
      if |f| > 0 {
        assert s[|s| - 1] == f[|f| - 1];
      } else {
        assert s[|s| - 1] == '.';
      }
    }
    ParsePlain(s);
  }

  /** A rendered natural number is a numeral with that value. */
  lemma NumeralNatText(n: nat)
    ensures ParseNumeral(NatText(n)) == Some(n as real)
  {
    var s := NatText(n);
    NatTextDigits(n);
    assert Find(s, ".") == -1 by {
      OccurrenceLead(s, ".");
    }
    assert s[0] != '+' && s[0] != '-' by {
      assert IsDigit(s[0]);
    }
    assert ParseUnsigned(s) == Some(n as real) by {
      assert DigitsValue([]) == 0 && Pow10(0) == 1;
    }
  }

  /** `float(str(n)) == n`: decimal rendering and parsing of naturals are inverse. */
  lemma ParseFloatNatText(n: nat)
    ensures ParseFloat(NatText(n)) == Some(n as real)
  {
    var s := NatText(n);
    NatTextDigits(n);
    NumeralNatText(n);
    assert IsDigit(s[0]) && IsDigit(s[|s| - 1]);
    ParsePlain(s);
  }
}
