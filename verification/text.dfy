/**
 The string primitives the notifier and the item store rely on: Python's
 `str.strip()`, `str.lower()`, the substring test `w in t`, `str(int)`, and
 the BINARY text ordering SQLite uses for `ORDER BY` and `MAX`.
 */
module Text {

  // ---------------------------------------------------------------------------
  // Whitespace and strip
  // ---------------------------------------------------------------------------

  /** The characters for which Python's `str.isspace()` is true. */
  predicate IsSpace(c: char) {
    || c == ' '
    || ('\t' <= c <= '\r')
    || ('\U{1C}' <= c <= '\U{1F}')
    || c == '\U{85}' || c == '\U{A0}' || c == '\U{1680}'
    || ('\U{2000}' <= c <= '\U{200A}')
    || c == '\U{2028}' || c == '\U{2029}' || c == '\U{202F}' || c == '\U{205F}'
    || c == '\U{3000}'
  }

  /** True when `s` has no leading and no trailing whitespace. */
  predicate IsStripped(s: string) {
    |s| == 0 || (!IsSpace(s[0]) && !IsSpace(s[|s| - 1]))
  }

  /** The first index at or after `i` that does not hold whitespace, or `|s|`. */
  function FirstNonSpace(s: string, i: nat): (j: nat)
    requires i <= |s|
    ensures i <= j <= |s|
    ensures forall k :: i <= k < j ==> IsSpace(s[k])
    ensures j < |s| ==> !IsSpace(s[j])
    decreases |s| - i
  {
    if i == |s| || !IsSpace(s[i]) then i else FirstNonSpace(s, i + 1)
  }

  /** The end of the text in `s[i..j]` once trailing whitespace is dropped. */
  function EndOfText(s: string, i: nat, j: nat): (e: nat)
    requires i <= j <= |s|
    ensures i <= e <= j
    ensures forall k :: e <= k < j ==> IsSpace(s[k])
    ensures e > i ==> !IsSpace(s[e - 1])
    decreases j
  {
    if j == i || !IsSpace(s[j - 1]) then j else EndOfText(s, i, j - 1)
  }

  /**
   Python's `s.strip()`: the slice of `s` left after removing whitespace from
   both ends. Everything removed is whitespace and what remains is stripped.
   */
  function Strip(s: string): (r: string)
    ensures IsStripped(r)
    ensures exists i, j :: (0 <= i <= j <= |s| && r == s[i..j]
      && (forall k :: 0 <= k < i ==> IsSpace(s[k]))
      && (forall k :: j <= k < |s| ==> IsSpace(s[k])))
    ensures |r| == 0 <==> forall k :: 0 <= k < |s| ==> IsSpace(s[k])
  {
    var i := FirstNonSpace(s, 0);
    var j := EndOfText(s, i, |s|);
    var r := s[i..j];
    assert |r| > 0 ==> r[0] == s[i] && r[|r| - 1] == s[j - 1];
    r
  }

  /** Stripping a string that is already stripped changes nothing. */
  lemma StrippedIsFixed(s: string)
    requires IsStripped(s)
    ensures Strip(s) == s
  {
    assert FirstNonSpace(s, 0) == 0;
    assert |s| > 0 ==> EndOfText(s, 0, |s|) == |s|;
    assert s[0..|s|] == s;
  }

  /** `Strip` is idempotent. */
  lemma StripIdempotent(s: string)
    ensures Strip(Strip(s)) == Strip(s)
  {
    StrippedIsFixed(Strip(s));
  }

  // ---------------------------------------------------------------------------
  // Lower case
  // ---------------------------------------------------------------------------

  /** The upper-case letters this model folds: ASCII and the basic Cyrillic block. */
  predicate IsUpper(c: char) {
    ('A' <= c <= 'Z') || ('\U{400}' <= c <= '\U{42F}')
  }

  /** The lower-case letters of the modelled alphabet: ASCII and the basic Cyrillic block. */
  predicate IsLowerLetter(c: char) {
    ('a' <= c <= 'z') || ('\U{430}' <= c <= '\U{45F}')
  }

  /** Python's `str.upper()` on one lower-case letter of the modelled alphabet. */
  function UpperChar(c: char): (r: char)
    requires IsLowerLetter(c)
    ensures IsUpper(r)
  {
    if 'a' <= c <= 'z' then (c as int - 32) as char
    else if '\U{430}' <= c <= '\U{44F}' then (c as int - 32) as char
    else (c as int - 80) as char
  }

  /**
   Python's `str.lower()` on one character of the modelled alphabet: an
   upper-case letter becomes the lower-case letter whose upper case it is,
   every other character stays.
   */
  function LowerChar(c: char): (r: char)
    ensures !IsUpper(r)
    ensures !IsUpper(c) ==> r == c
    ensures IsSpace(r) <==> IsSpace(c)
    ensures IsUpper(c) ==> IsLowerLetter(r) && UpperChar(r) == c
  {
    if 'A' <= c <= 'Z' then (c as int + 32) as char
    else if '\U{410}' <= c <= '\U{42F}' then (c as int + 32) as char
    else if '\U{400}' <= c <= '\U{40F}' then (c as int + 80) as char
    else c
  }

  /** True when no character of `s` is an upper-case letter. */
  predicate IsLower(s: string) {
    forall i :: 0 <= i < |s| ==> !IsUpper(s[i])
  }

  /** Python's `s.lower()`, folding character by character. */
  function Lower(s: string): (r: string)
    ensures |r| == |s|
    ensures forall i :: 0 <= i < |s| ==> r[i] == LowerChar(s[i])
    ensures IsLower(r)
    ensures IsLower(s) ==> r == s
  {
    seq(|s|, i requires 0 <= i < |s| => LowerChar(s[i]))
  }

  /** Lower-casing is idempotent. */
  lemma LowerIdempotent(s: string)
    ensures Lower(Lower(s)) == Lower(s)
  {
  }

  /** Lower-casing neither adds nor removes whitespace at the ends. */
  lemma LowerKeepsStripped(s: string)
    requires IsStripped(s)
    ensures IsStripped(Lower(s))
  {
    if |s| > 0 {
      assert Lower(s)[0] == LowerChar(s[0]);
      assert Lower(s)[|s| - 1] == LowerChar(s[|s| - 1]);
    }
  }

  // ---------------------------------------------------------------------------
  // Substrings
  // ---------------------------------------------------------------------------

  /** `w` occurs in `t` starting at index `i`. */
  ghost predicate OccursAt(w: string, t: string, i: int) {
    0 <= i && i + |w| <= |t| && t[i..i + |w|] == w
  }

  /** `w` is a substring of `t`: the meaning of Python's `w in t`. */
  ghost predicate IsSubstring(w: string, t: string) {
    exists i :: OccursAt(w, t, i)
  }

  /** `t` begins with `w`. */
  predicate StartsWith(t: string, w: string) {
    |w| <= |t| && t[..|w|] == w
  }

  /** `t` ends with `w`. */
  predicate EndsWith(t: string, w: string) {
    |w| <= |t| && t[|t| - |w|..] == w
  }

  /** The executable substring test: does `w` occur at some position of `t`? */
  predicate Contains(t: string, w: string): (b: bool)
    ensures b <==> IsSubstring(w, t)
    decreases |t|
  {
    if StartsWith(t, w) then
      assert OccursAt(w, t, 0);
      true
    else if |t| == 0 then
      false
    else
      var b := Contains(t[1..], w);
      assert b <==> IsSubstring(w, t) by { ShiftOccurrence(t, w); }
      b
  }

  /** Away from position 0, the occurrences of `w` in `t` are those in `t[1..]`, shifted by one. */
  lemma ShiftOccurrence(t: string, w: string)
    requires |t| > 0 && !StartsWith(t, w)
    ensures IsSubstring(w, t[1..]) <==> IsSubstring(w, t)
  {
    if IsSubstring(w, t[1..]) {
      var i :| OccursAt(w, t[1..], i);
      assert t[1..][i..i + |w|] == t[i + 1..i + 1 + |w|];
      assert OccursAt(w, t, i + 1);
    }
    if IsSubstring(w, t) {
      var i :| OccursAt(w, t, i);
      assert t[1..][i - 1..i - 1 + |w|] == t[i..i + |w|];
      assert OccursAt(w, t[1..], i - 1);
    }
  }

  /** A non-empty word never occurs in the empty text. */
  lemma NoWordInEmpty(w: string)
    requires |w| > 0
    ensures !IsSubstring(w, "")
  {
  }

  /** The strings of `parts` joined end to end. */
  function Concat(parts: seq<string>): string {
    if |parts| == 0 then "" else parts[0] + Concat(parts[1..])
  }

  /** The first two parts, followed by the rest. */
  lemma ConcatHead(parts: seq<string>)
    requires |parts| >= 2
    ensures Concat(parts) == parts[0] + parts[1] + Concat(parts[2..])
  {
    assert parts[1..][0] == parts[1] && parts[1..][1..] == parts[2..];
  }

  /** Everything but the last part, followed by the last part. */
  lemma {:induction false} ConcatLast(parts: seq<string>)
    requires |parts| >= 1
    ensures Concat(parts) == Concat(parts[..|parts| - 1]) + parts[|parts| - 1]
  {
    var n := |parts|;
    if n == 1 {
      assert Concat(parts[1..]) == "";
    } else {
      ConcatLast(parts[1..]);
      assert parts[1..][..n - 2] == parts[..n - 1][1..];
      assert parts[1..][n - 2] == parts[n - 1];
    }
  }

  /** Every part occurs in the joined string. */
  lemma {:induction false} ConcatContains(parts: seq<string>, i: nat)
    requires i < |parts|
    ensures IsSubstring(parts[i], Concat(parts))
  {
    var m := Concat(parts);
    if i == 0 {
      assert m[..|parts[0]|] == parts[0];
      assert OccursAt(parts[0], m, 0);
    } else {
      ConcatContains(parts[1..], i - 1);
      var t := Concat(parts[1..]);
      var k :| OccursAt(parts[i], t, k);
      var d := |parts[0]|;
      assert m == parts[0] + t;
      assert m[d + k..d + k + |parts[i]|] == t[k..k + |parts[i]|];
      assert OccursAt(parts[i], m, d + k);
    }
  }

  // ---------------------------------------------------------------------------
  // Text order
  // ---------------------------------------------------------------------------

  /**
   `a` sorts at or before `b` under SQLite's BINARY collation: the byte order
   of UTF-8, which is the lexicographic order of code points, a proper
   prefix coming first.
   */
  predicate Below(a: string, b: string)
    decreases |a|
  {
    |a| == 0 || (|b| > 0 && (a[0] < b[0] || (a[0] == b[0] && Below(a[1..], b[1..]))))
  }

  lemma {:induction false} BelowReflexive(a: string)
    ensures Below(a, a)
    decreases |a|
  {
    if |a| > 0 { BelowReflexive(a[1..]); }
  }

  lemma {:induction false} BelowTotal(a: string, b: string)
    ensures Below(a, b) || Below(b, a)
    decreases |a|
  {
    if |a| > 0 && |b| > 0 && a[0] == b[0] { BelowTotal(a[1..], b[1..]); }
  }

  lemma {:induction false} BelowTransitive(a: string, b: string, c: string)
    requires Below(a, b) && Below(b, c)
    ensures Below(a, c)
    decreases |a|
  {
    if |a| > 0 && a[0] == b[0] && b[0] == c[0] {
      BelowTransitive(a[1..], b[1..], c[1..]);
    }
  }

  lemma {:induction false} BelowAntisymmetric(a: string, b: string)
    requires Below(a, b) && Below(b, a)
    ensures a == b
    decreases |a|
  {
    if |a| > 0 {
      BelowAntisymmetric(a[1..], b[1..]);
      assert a == [a[0]] + a[1..] && b == [b[0]] + b[1..];
    }
  }

  // ---------------------------------------------------------------------------
  // Decimal numerals
  // ---------------------------------------------------------------------------

  function DigitChar(d: nat): (c: char)
    requires d < 10
    ensures '0' <= c <= '9'
  {
    ('0' as int + d) as char
  }

  function DigitValue(c: char): (d: nat)
    requires '0' <= c <= '9'
    ensures d < 10
  {
    c as int - '0' as int
  }

  /** The decimal digits of `n`, most significant first, with no leading zero. */
  function Digits(n: nat): (s: string)
    ensures |s| > 0
    ensures forall i :: 0 <= i < |s| ==> '0' <= s[i] <= '9'
    ensures |s| > 1 ==> s[0] != '0'
  {
    if n < 10 then [DigitChar(n)] else Digits(n / 10) + [DigitChar(n % 10)]
  }

  /** Python's `str(n)` for an integer: optional minus sign, then the digits. */
  function Decimal(n: int): (s: string)
    ensures |s| > 0
    ensures n < 0 <==> s[0] == '-'
  {
    if n < 0 then "-" + Digits(-n) else Digits(n)
  }

  /** The value of a string of decimal digits. */
  function DigitsValue(s: string): nat
    requires forall i :: 0 <= i < |s| ==> '0' <= s[i] <= '9'
  {
    if |s| == 0 then 0 else DigitsValue(s[..|s| - 1]) * 10 + DigitValue(s[|s| - 1])
  }

  /** The value of an optionally signed decimal numeral. */
  function DecimalValue(s: string): int
    requires |s| > 0
    requires forall i :: 0 <= i < |s| ==> ('0' <= s[i] <= '9') || (i == 0 && s[i] == '-')
  {
    if s[0] == '-' then -(DigitsValue(s[1..]) as int) else DigitsValue(s)
  }

  /** Reading the digits of `n` back gives `n`. */
  lemma {:induction false} DigitsRoundTrip(n: nat)
    ensures DigitsValue(Digits(n)) == n
  {
    if n >= 10 {
      var s := Digits(n);
      assert s[..|s| - 1] == Digits(n / 10);
      DigitsRoundTrip(n / 10);
    }
  }

  /** `str(n)` is a faithful rendering: reading it back gives `n`. */
  lemma DecimalRoundTrip(n: int)
    ensures DecimalValue(Decimal(n)) == n
  {
    if n < 0 {
      assert Decimal(n)[1..] == Digits(-n);
      DigitsRoundTrip(-n);
    } else {
      DigitsRoundTrip(n);
    }
  }
}
