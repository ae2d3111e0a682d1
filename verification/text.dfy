/** The Python string handling the register relies on: `str.strip()` on the
    search term, `int()` on the location selection, and the substring
    relation that a `LIKE '%term%'` pattern generalises. */
module Text {
  import opened Wrappers

  /** The characters Python's `str.isspace` accepts, which `strip()` with no
      argument removes. */
  predicate IsSpace(c: char) {
    || ('\U{0009}' <= c <= '\U{000D}')
    || ('\U{001C}' <= c <= '\U{0020}')
    || c == '\U{0085}' || c == '\U{00A0}' || c == '\U{1680}'
    || ('\U{2000}' <= c <= '\U{200A}')
    || c == '\U{2028}' || c == '\U{2029}' || c == '\U{202F}' || c == '\U{205F}'
    || c == '\U{3000}'
  }

  /** The characters `int()` skips around its literal: the six ASCII
      whitespace characters of C's `isspace` and every non-ASCII character
      `str.isspace` accepts. The ASCII separators U+001C..U+001F, which
      `strip()` removes, are not among them. */
  predicate IsIntSpace(c: char) {
    IsSpace(c) && !('\U{001C}' <= c <= '\U{001F}')
  }

  function StripLeading(space: char -> bool, s: string): (r: string)
    ensures |r| <= |s| && r == s[|s| - |r|..]
    ensures |r| > 0 ==> !space(r[0])
    ensures forall k :: 0 <= k < |s| - |r| ==> space(s[k])
  {
    if |s| > 0 && space(s[0]) then StripLeading(space, s[1..]) else s
  }

  function StripTrailing(space: char -> bool, s: string): (r: string)
    ensures |r| <= |s| && r == s[..|r|]
    ensures |r| > 0 ==> !space(r[|r| - 1])
    ensures forall k :: |r| <= k < |s| ==> space(s[k])
  {
    if |s| > 0 && space(s[|s| - 1]) then StripTrailing(space, s[..|s| - 1]) else s
  }

  /** `r` is `s[i..]` cut to length `|r|`, with only `space` characters cut
      away. */
  predicate TrimmedAt(space: char -> bool, s: string, i: int, r: string) {
    && 0 <= i <= |s| - |r|
    && r == s[i..i + |r|]
    && (forall k :: 0 <= k < i ==> space(s[k]))
    && (forall k :: i + |r| <= k < |s| ==> space(s[k]))
  }

  /** Neither end of `r` is a `space` character. */
  predicate Untrimmed(space: char -> bool, r: string) {
    |r| == 0 || (!space(r[0]) && !space(r[|r| - 1]))
  }

  /** Cutting leading whitespace and then trailing whitespace leaves a
      slice with only whitespace cut away. */
  lemma TrimmedInTwoSteps(space: char -> bool, s: string, t: string, r: string)
    requires |t| <= |s| && t == s[|s| - |t|..]
    requires forall k :: 0 <= k < |s| - |t| ==> space(s[k])
    requires |r| <= |t| && r == t[..|r|]
    requires forall k :: |r| <= k < |t| ==> space(t[k])
    ensures TrimmedAt(space, s, |s| - |t|, r)
  {
    var i := |s| - |t|;
    assert r == s[i..i + |r|];
    forall k | i + |r| <= k < |s| ensures space(s[k]) {
      assert s[k] == t[k - i];
    }
  }

  /** `s` with the characters `space` accepts removed from both ends: the
      slice of `s` left after the cut, which neither starts nor ends with
      such a character. */
  function StripBy(space: char -> bool, s: string): (r: string)
    ensures Untrimmed(space, r)
    ensures exists i :: TrimmedAt(space, s, i, r)
  {
    var t := StripLeading(space, s);
    var r := StripTrailing(space, t);
    TrimmedInTwoSteps(space, s, t, r);
    r
  }

  /** The two ends of a cut agree: a cut of `s` that keeps neither end's
      whitespace is the cut `StripBy` makes. */
  lemma StripUnique(space: char -> bool, s: string, i: int, r: string)
    requires TrimmedAt(space, s, i, r) && Untrimmed(space, r)
    ensures StripBy(space, s) == r
  {
    var q := StripBy(space, s);
    var j :| TrimmedAt(space, s, j, q);
    if |r| > 0 {
      assert s[i] == r[0] && s[i + |r| - 1] == r[|r| - 1];
    }
    if |q| > 0 {
      assert s[j] == q[0] && s[j + |q| - 1] == q[|q| - 1];
    }
  }

  /** `s.strip()`. */
  function Strip(s: string): string {
    StripBy(IsSpace, s)
  }

  /** A string strips to nothing exactly when it is all whitespace. */
  lemma StripEmptyIffBlank(s: string)
    ensures Strip(s) == [] <==> forall k :: 0 <= k < |s| ==> IsSpace(s[k])
  {
    var r := Strip(s);
    var i :| TrimmedAt(IsSpace, s, i, r);
    if r != [] {
      assert s[i] == r[0];
    }
  }

  predicate IsDigit(c: char) {
    '0' <= c <= '9'
  }

  function DigitValue(c: char): nat {
    if IsDigit(c) then (c - '0') as nat else 0
  }

  function Digit(d: nat): (c: char)
    requires d < 10
    ensures IsDigit(c) && DigitValue(c) == d
  {
    ('0' as int + d) as char
  }

  /** The body of a base-10 integer literal as `int()` accepts it: ASCII
      digits, where a single underscore may separate two digits. */
  predicate WellFormedDigits(b: string) {
    && |b| > 0
    && IsDigit(b[0])
    && IsDigit(b[|b| - 1])
    && (forall k :: 0 <= k < |b| ==> IsDigit(b[k]) || b[k] == '_')
    && (forall k :: 0 <= k < |b| - 1 ==> !(b[k] == '_' && b[k + 1] == '_'))
  }

  /** The value of a digit string, underscores ignored. */
  function DigitsValue(b: string): nat {
    if |b| == 0 then 0
    else if b[|b| - 1] == '_' then DigitsValue(b[..|b| - 1])
    else DigitsValue(b[..|b| - 1]) * 10 + DigitValue(b[|b| - 1])
  }

  /** The literals `int()` accepts once whitespace is cut: a well-formed
      digit string, possibly after one `+` or `-`. */
  predicate IsIntLiteral(t: string) {
    || WellFormedDigits(t)
    || (|t| > 0 && (t[0] == '+' || t[0] == '-') && WellFormedDigits(t[1..]))
  }

  /** An optional sign followed by a well-formed digit string. */
  function ParseSigned(t: string): Option<int> {
    var negative := |t| > 0 && t[0] == '-';
    var body := if |t| > 0 && (t[0] == '-' || t[0] == '+') then t[1..] else t;
    if WellFormedDigits(body) then
      var magnitude: int := DigitsValue(body);
      Some(if negative then -magnitude else magnitude)
    else None
  }

  /** Python's `int(text)`: whitespace of its own kind (`IsIntSpace`) around
      the literal is skipped, then one optional sign and a well-formed digit
      string must follow; anything else raises `ValueError`, here `None`. */
  function ParseInt(text: string): (r: Option<int>)
    ensures r.Some? <==> IsIntLiteral(StripBy(IsIntSpace, text))
    ensures r.Some? ==>
              var t := StripBy(IsIntSpace, text);
              && |t| > 0
              && (IsDigit(t[0]) || t[0] == '-' || t[0] == '+')
              && IsDigit(t[|t| - 1])
  {
    ParseSigned(StripBy(IsIntSpace, text))
  }

  /** A cut of `t` is a cut of `t` placed between `space` characters. */
  lemma TrimmedInContext(space: char -> bool, pre: string, t: string, post: string,
                         i: int, r: string)
    requires forall k :: 0 <= k < |pre| ==> space(pre[k])
    requires forall k :: 0 <= k < |post| ==> space(post[k])
    requires TrimmedAt(space, t, i, r)
    ensures TrimmedAt(space, pre + t + post, |pre| + i, r)
  {
    var s := pre + t + post;
    var n := |pre|;
    assert s[n + i..n + i + |r|] == t[i..i + |r|];
    forall k | 0 <= k < n + i ensures space(s[k]) {
      if k >= n {
        assert s[k] == t[k - n];
      }
    }
    forall k | n + i + |r| <= k < |s| ensures space(s[k]) {
      if k < n + |t| {
        assert s[k] == t[k - n];
      } else {
        assert s[k] == post[k - n - |t|];
      }
    }
  }

  /** A string that starts with a non-`space` character strips to one that
      starts with it; likewise at the end. */
  lemma StripKeepsEnds(space: char -> bool, s: string)
    requires |s| > 0
    ensures !space(s[0]) ==> |StripBy(space, s)| > 0 && StripBy(space, s)[0] == s[0]
    ensures !space(s[|s| - 1]) ==>
              var r := StripBy(space, s);
              |r| > 0 && r[|r| - 1] == s[|s| - 1]
  {
    var r := StripBy(space, s);
    var i :| TrimmedAt(space, s, i, r);
    if |r| > 0 {
      assert s[i] == r[0] && s[i + |r| - 1] == r[|r| - 1];
    }
  }

  /** A literal with no whitespace at its ends is read as it is. */
  lemma ParseIntUntrimmed(t: string)
    requires |t| > 0 && IsDigit(t[|t| - 1])
    requires IsDigit(t[0]) || t[0] == '+' || t[0] == '-'
    ensures ParseInt(t) == ParseSigned(t)
  {
    assert t[0..|t|] == t;
    StripUnique(IsIntSpace, t, 0, t);
  }

  lemma ParseSignedDigits(b: string)
    requires WellFormedDigits(b)
    ensures ParseSigned(b) == Some(DigitsValue(b))
    ensures ParseSigned("+" + b) == Some(DigitsValue(b))
    ensures ParseSigned("-" + b) == Some(-(DigitsValue(b) as int))
  {
    assert b[0] != '-' && b[0] != '+';
    var plus, minus := "+" + b, "-" + b;
    assert plus[0] == '+' && plus[1..] == b;
    assert minus[0] == '-' && minus[1..] == b;
  }

  /** The value `int()` gives a literal without surrounding whitespace:
      the digit string's value, negated after a `-`. */
  lemma ParseIntDigits(b: string)
    requires WellFormedDigits(b)
    ensures ParseInt(b) == Some(DigitsValue(b))
    ensures ParseInt("+" + b) == Some(DigitsValue(b))
    ensures ParseInt("-" + b) == Some(-(DigitsValue(b) as int))
  {
    ParseSignedDigits(b);
    ParseIntUntrimmed(b);
    var plus, minus := "+" + b, "-" + b;
    assert plus[|plus| - 1] == b[|b| - 1];
    assert minus[|minus| - 1] == b[|b| - 1];
    ParseIntUntrimmed(plus);
    ParseIntUntrimmed(minus);
  }

  /** Leading zeros change neither the form nor the value of a digit
      string. */
  lemma {:induction false} LeadingZero(b: string)
    requires WellFormedDigits(b)
    ensures WellFormedDigits("0" + b)
    ensures DigitsValue("0" + b) == DigitsValue(b)
    decreases |b|
  {
    var z := "0" + b;
    assert z[..|z| - 1] == "0" + b[..|b| - 1];
    if |b| == 1 {
      assert DigitsValue("0") == 0;
    } else if b[|b| - 2] == '_' {
      var c := b[..|b| - 2];
      assert WellFormedDigits(c);
      LeadingZero(c);
      assert z[..|z| - 1][..|z| - 2] == "0" + c;
      assert b[..|b| - 1][..|b| - 2] == c;
    } else {
      assert WellFormedDigits(b[..|b| - 1]);
      LeadingZero(b[..|b| - 1]);
    }
  }

  /** An underscore between two digits changes nothing but the form. */
  lemma {:induction false} UnderscoreIgnored(b: string, c: string)
    requires |c| > 0
    ensures DigitsValue(b + "_" + c) == DigitsValue(b + c)
    decreases |c|
  {
    var u, v := b + "_" + c, b + c;
    if |c| == 1 {
      assert u[..|u| - 1] == b + "_" && v[..|v| - 1] == b;
      assert (b + "_")[..|b|] == b;
    } else {
      var d := c[..|c| - 1];
      assert u[..|u| - 1] == b + "_" + d && v[..|v| - 1] == b + d;
      UnderscoreIgnored(b, d);
    }
  }

  /** So `int("0" + str(n)) == n`, `int("+" + str(n)) == n` and
      `int("1_0") == int("10")`: the non-canonical forms `int()` reads. */
  lemma ParseIntLeadingZero(n: nat)
    ensures ParseInt("0" + ShowNat(n)) == Some(n)
    ensures ParseInt("+" + ShowNat(n)) == Some(n)
  {
    ShowNatWellFormed(n);
    ShowNatValue(n);
    LeadingZero(ShowNat(n));
    ParseIntDigits("0" + ShowNat(n));
    ParseIntDigits(ShowNat(n));
  }

  lemma ParseIntUnderscore(b: string, c: string)
    requires WellFormedDigits(b) && WellFormedDigits(c)
    ensures ParseInt(b + "_" + c) == ParseInt(b + c)
  {
    var u, v := b + "_" + c, b + c;
    assert WellFormedDigits(v) by {
      forall k | 0 <= k < |v| - 1 ensures !(v[k] == '_' && v[k + 1] == '_') {
        if k < |b| - 1 {
          assert v[k] == b[k] && v[k + 1] == b[k + 1];
        } else if k >= |b| {
          assert v[k] == c[k - |b|] && v[k + 1] == c[k + 1 - |b|];
        }
      }
    }
    assert WellFormedDigits(u) by {
      forall k | 0 <= k < |u| - 1 ensures !(u[k] == '_' && u[k + 1] == '_') {
        if k < |b| - 1 {
          assert u[k] == b[k] && u[k + 1] == b[k + 1];
        } else if k > |b| {
          assert u[k] == c[k - |b| - 1] && u[k + 1] == c[k - |b|];
        }
      }
    }
    UnderscoreIgnored(b, c);
    ParseIntDigits(u);
    ParseIntDigits(v);
  }

  /** `int()` reads the same literal whatever `int()`-whitespace surrounds
      it. */
  lemma ParseIntSkipsSpace(pre: string, t: string, post: string)
    requires forall k :: 0 <= k < |pre| ==> IsIntSpace(pre[k])
    requires forall k :: 0 <= k < |post| ==> IsIntSpace(post[k])
    ensures ParseInt(pre + t + post) == ParseInt(t)
  {
    var r := StripBy(IsIntSpace, t);
    var i :| TrimmedAt(IsIntSpace, t, i, r);
    TrimmedInContext(IsIntSpace, pre, t, post, i, r);
    StripUnique(IsIntSpace, pre + t + post, |pre| + i, r);
  }

  /** An information separator (U+001C..U+001F) at either end makes `int()`
      fail, although `strip()` would remove it. */
  lemma ParseIntRejectsSeparator(text: string)
    requires |text| > 0
    requires || '\U{001C}' <= text[0] <= '\U{001F}'
             || '\U{001C}' <= text[|text| - 1] <= '\U{001F}'
    ensures ParseInt(text) == None
  {
    StripKeepsEnds(IsIntSpace, text);
  }

  /** Decimal rendering of a natural number, most significant digit first. */
  function ShowNat(n: nat): (r: string)
    ensures |r| > 0
    ensures forall k :: 0 <= k < |r| ==> IsDigit(r[k])
  {
    if n < 10 then [Digit(n)] else ShowNat(n / 10) + [Digit(n % 10)]
  }

  /** Decimal rendering of an integer, as `str(n)` writes it. */
  function ShowInt(n: int): string {
    if n < 0 then "-" + ShowNat(-n) else ShowNat(n)
  }

  lemma {:induction false} ShowNatValue(n: nat)
    ensures DigitsValue(ShowNat(n)) == n
  {
    if n >= 10 {
      var s := ShowNat(n);
      assert s[..|s| - 1] == ShowNat(n / 10);
      ShowNatValue(n / 10);
    }
  }

  lemma ShowNatWellFormed(n: nat)
    ensures WellFormedDigits(ShowNat(n))
  {
  }

  lemma ParseSignedShow(n: int)
    ensures ParseSigned(ShowInt(n)) == Some(n)
  {
    var m: nat := if n < 0 then -n else n;
    var digits := ShowNat(m);
    ShowNatValue(m);
    ShowNatWellFormed(m);
    if n < 0 {
      assert ShowInt(n)[1..] == digits;
    }
  }

  lemma ShowIntUntrimmed(n: int)
    ensures StripBy(IsIntSpace, ShowInt(n)) == ShowInt(n)
  {
    var s := ShowInt(n);
    var m: nat := if n < 0 then -n else n;
    assert IsDigit(s[|s| - 1]) by {
      if n < 0 {
        assert s[|s| - 1] == ShowNat(m)[|ShowNat(m)| - 1];
      }
    }
    assert s[0..|s|] == s;
    StripUnique(IsIntSpace, s, 0, s);
  }

  /** `int(str(n)) == n`: every integer typed the way it is shown selects
      itself. */
  lemma ParseShowRoundTrip(n: int)
    ensures ParseInt(ShowInt(n)) == Some(n)
  {
    ShowIntUntrimmed(n);
    ParseSignedShow(n);
  }

  predicate StartsWith(prefix: string, s: string) {
    |prefix| <= |s| && s[..|prefix|] == prefix
  }

  /** `term` occurs in `text` starting at position `i`. */
  predicate OccursAt(term: string, text: string, i: int) {
    0 <= i <= |text| - |term| && text[i..i + |term|] == term
  }

  /** `term` occurs in `text` as a contiguous substring. */
  predicate Contains(term: string, text: string)
    decreases |text|
  {
    StartsWith(term, text) || (|text| > 0 && Contains(term, text[1..]))
  }

  /** An occurrence at any position is found. */
  lemma {:induction false} ContainsAt(term: string, text: string, i: int)
    requires OccursAt(term, text, i)
    ensures Contains(term, text)
    decreases i
  {
    if i > 0 {
      assert text[1..][i - 1..i - 1 + |term|] == text[i..i + |term|];
      ContainsAt(term, text[1..], i - 1);
    } else {
      assert text[..|term|] == text[i..i + |term|];
    }
  }

  /** And only occurrences are found. */
  lemma {:induction false} ContainsOnlyAt(term: string, text: string)
    requires Contains(term, text)
    ensures exists i :: OccursAt(term, text, i)
    decreases |text|
  {
    if !StartsWith(term, text) {
      ContainsOnlyAt(term, text[1..]);
      var i :| OccursAt(term, text[1..], i);
      assert text[i + 1..i + 1 + |term|] == text[1..][i..i + |term|];
      assert OccursAt(term, text, i + 1);
    } else {
      assert text[0..0 + |term|] == text[..|term|];
      assert OccursAt(term, text, 0);
    }
  }
}
