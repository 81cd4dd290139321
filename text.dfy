/**
  The parts of Python's `str` semantics that the three audit tools rely on:
  `strip()`, `lower()`, substring tests, `split()`, `int()` on text, the
  decimal form `str()` prints for an integer, and string comparison.
  Strings are sequences of Unicode code points, as in Python 3.
 */
module Text {
  import opened Wrappers

  /** A character Python's `str.isspace()` accepts; `str.strip()` and `int()` remove exactly these. */
  predicate IsSpace(c: char) {
    || ('\U{0009}' <= c <= '\U{000D}')
    || ('\U{001C}' <= c <= '\U{0020}')
    || c == '\U{0085}' || c == '\U{00A0}' || c == '\U{1680}'
    || ('\U{2000}' <= c <= '\U{200A}')
    || c == '\U{2028}' || c == '\U{2029}' || c == '\U{202F}' || c == '\U{205F}' || c == '\U{3000}'
  }

  predicate AllSpace(s: string) {
    forall i :: 0 <= i < |s| ==> IsSpace(s[i])
  }

  /** Python's `s.lstrip()`. */
  function TrimLeft(s: string): string {
    if s != [] && IsSpace(s[0]) then TrimLeft(s[1..]) else s
  }

  /** Python's `s.rstrip()`. */
  function TrimRight(s: string): string {
    if s != [] && IsSpace(s[|s| - 1]) then TrimRight(s[..|s| - 1]) else s
  }

  /** Python's `s.strip()`: `s` without its leading and trailing whitespace. */
  function Trim(s: string): string {
    TrimRight(TrimLeft(s))
  }

  /** `lstrip()` removes a run of whitespace from the front and stops at the first other character. */
  lemma {:induction false} TrimLeftSpec(s: string)
    ensures |TrimLeft(s)| <= |s| && TrimLeft(s) == s[|s| - |TrimLeft(s)|..]
    ensures AllSpace(s[..|s| - |TrimLeft(s)|])
    ensures TrimLeft(s) == [] || !IsSpace(TrimLeft(s)[0])
  {
    if s != [] && IsSpace(s[0]) {
      TrimLeftSpec(s[1..]);
      var k := |s| - |TrimLeft(s)|;
      assert s[..k] == [s[0]] + s[1..][..k - 1];
    }
  }

  /** `rstrip()` removes a run of whitespace from the back and stops at the last other character. */
  lemma {:induction false} TrimRightSpec(s: string)
    ensures |TrimRight(s)| <= |s| && TrimRight(s) == s[..|TrimRight(s)|]
    ensures AllSpace(s[|TrimRight(s)|..])
    ensures TrimRight(s) == [] || !IsSpace(TrimRight(s)[|TrimRight(s)| - 1])
  {
    if s != [] && IsSpace(s[|s| - 1]) {
      var p := s[..|s| - 1];
      TrimRightSpec(p);
      var k := |TrimRight(s)|;
      assert s[k..] == p[k..] + [s[|s| - 1]];
    }
  }

  /** The result of `strip()` is no longer than its input and has no whitespace at either end. */
  lemma TrimSpec(s: string)
    ensures |Trim(s)| <= |s|
    ensures Trim(s) == [] || (!IsSpace(Trim(s)[0]) && !IsSpace(Trim(s)[|Trim(s)| - 1]))
  {
    var l := TrimLeft(s);
    TrimLeftSpec(s);
    TrimRightSpec(l);
    var r := TrimRight(l);
    if r != [] {
      assert r[0] == l[0];
    }
  }

  /** What `strip()` removed: whitespace only, and only at the two ends. */
  lemma {:induction false} TrimParts(s: string) returns (a: string, b: string)
    ensures s == a + Trim(s) + b && AllSpace(a) && AllSpace(b)
    ensures Trim(s) == [] || (!IsSpace(Trim(s)[0]) && !IsSpace(Trim(s)[|Trim(s)| - 1]))
  {
    TrimSpec(s);
    TrimLeftSpec(s);
    var l := TrimLeft(s);
    TrimRightSpec(l);
    var r := TrimRight(l);
    assert Trim(s) == r;
    hide TrimLeft, TrimRight, Trim;
    a, b := s[..|s| - |l|], l[|r|..];
    assert AllSpace(a);
    assert AllSpace(b);
    assert l == r + b;
    assert s == a + l;
    assert s == a + r + b;
  }

  lemma {:induction false} TrimLeftSkips(w: string, x: string)
    requires AllSpace(w)
    ensures TrimLeft(w + x) == TrimLeft(x)
  {
    if w == [] {
      assert w + x == x;
    } else {
      assert (w + x)[0] == w[0] && (w + x)[1..] == w[1..] + x;
      TrimLeftSkips(w[1..], x);
    }
  }

  lemma {:induction false} TrimRightSkips(x: string, w: string)
    requires AllSpace(w)
    ensures TrimRight(x + w) == TrimRight(x)
  {
    if w == [] {
      assert x + w == x;
    } else {
      var n := |x + w|;
      assert (x + w)[n - 1] == w[|w| - 1] && (x + w)[..n - 1] == x + w[..|w| - 1];
      TrimRightSkips(x, w[..|w| - 1]);
    }
  }

  /** `strip()` is determined by its two properties: whitespace only is removed, and only from the ends. */
  lemma TrimUnique(w1: string, t: string, w2: string)
    requires AllSpace(w1) && AllSpace(w2)
    requires t == [] || (!IsSpace(t[0]) && !IsSpace(t[|t| - 1]))
    ensures Trim(w1 + t + w2) == t
  {
    assert w1 + t + w2 == w1 + (t + w2);
    TrimLeftSkips(w1, t + w2);
    if t == [] {
      assert t + w2 == w2 && w2 + [] == w2;
      TrimLeftSkips(w2, []);
    } else {
      assert (t + w2)[0] == t[0];
      TrimRightSkips(t, w2);
    }
  }

  lemma AllSpaceConcat(x: string, y: string)
    requires AllSpace(x) && AllSpace(y)
    ensures AllSpace(x + y)
  {
    forall i | 0 <= i < |x + y|
      ensures IsSpace((x + y)[i])
    {
      if i < |x| {
        assert (x + y)[i] == x[i];
      } else {
        assert (x + y)[i] == y[i - |x|];
      }
    }
  }

  /** Surrounding whitespace never changes what `strip()` returns. */
  lemma TrimPadding(w1: string, s: string, w2: string)
    requires AllSpace(w1) && AllSpace(w2)
    ensures Trim(w1 + s + w2) == Trim(s)
  {
    var t := Trim(s);
    var a, b := TrimParts(s);
    AllSpaceConcat(w1, a);
    AllSpaceConcat(b, w2);
    assert w1 + s + w2 == (w1 + a) + t + (b + w2);
    TrimUnique(w1 + a, t, b + w2);
  }

  function LowerChar(c: char): char {
    if 'A' <= c <= 'Z' then (c as int + 32) as char else c
  }

  function UpperChar(c: char): char {
    if 'a' <= c <= 'z' then (c as int - 32) as char else c
  }

  /** Python's `s.lower()` on the ASCII letters. */
  function Lower(s: string): (r: string)
    ensures |r| == |s| && forall i :: 0 <= i < |s| ==> r[i] == LowerChar(s[i])
  {
    seq(|s|, i requires 0 <= i < |s| => LowerChar(s[i]))
  }

  /** Python's `s.upper()` on the ASCII letters. */
  function Upper(s: string): (r: string)
    ensures |r| == |s| && forall i :: 0 <= i < |s| ==> r[i] == UpperChar(s[i])
  {
    seq(|s|, i requires 0 <= i < |s| => UpperChar(s[i]))
  }

  /** `s.strip().lower()`, the normal form every tool compares field values in. */
  function Normalize(s: string): string {
    Lower(Trim(s))
  }

  lemma UpperKeepsSpace(s: string)
    ensures AllSpace(s) ==> AllSpace(Upper(s))
    ensures s != [] ==> (IsSpace(Upper(s)[0]) <==> IsSpace(s[0]))
    ensures s != [] ==> (IsSpace(Upper(s)[|s| - 1]) <==> IsSpace(s[|s| - 1]))
  {
  }

  lemma UpperConcat(x: string, y: string)
    ensures Upper(x + y) == Upper(x) + Upper(y)
  {
    assert forall i :: 0 <= i < |x + y| ==> Upper(x + y)[i] == (Upper(x) + Upper(y))[i];
  }

  lemma LowerUpper(s: string)
    ensures Lower(Upper(s)) == Lower(s)
  {
    assert forall i :: 0 <= i < |s| ==> Lower(Upper(s))[i] == Lower(s)[i];
  }

  lemma TrimUpper(s: string)
    ensures Trim(Upper(s)) == Upper(Trim(s))
  {
    var t := Trim(s);
    var a, b := TrimParts(s);
    var ua, ut, ub := Upper(a), Upper(t), Upper(b);
    assert Upper(s) == ua + ut + ub by {
      UpperConcat(a, t);
      UpperConcat(a + t, b);
    }
    UpperKeepsSpace(a);
    UpperKeepsSpace(b);
    UpperKeepsSpace(t);
    assert |ut| == |t|;
    TrimUnique(ua, ut, ub);
  }

  /**
    Comparisons on the normal form ignore surrounding whitespace and
    ASCII letter case: padding and upper-casing a value does not change it.
   */
  lemma NormalizePaddedUpper(w1: string, s: string, w2: string)
    requires AllSpace(w1) && AllSpace(w2)
    ensures Normalize(w1 + Upper(s) + w2) == Normalize(s)
  {
    TrimPadding(w1, Upper(s), w2);
    TrimUpper(s);
    LowerUpper(Trim(s));
  }

  /** Conversely, a string with normal form `v` is `v` in some letter case, padded with whitespace. */
  lemma NormalizeDecompose(s: string)
    ensures exists w1, t, w2 :: s == w1 + t + w2 && AllSpace(w1) && AllSpace(w2) && Lower(t) == Normalize(s)
  {
    var a, b := TrimParts(s);
  }

  /** Python's `sub in s` for two strings. */
  predicate Contains(s: string, sub: string)
    decreases |s|
  {
    sub <= s || (s != [] && Contains(s[1..], sub))
  }

  predicate OccursAt(s: string, sub: string, i: int) {
    0 <= i && i + |sub| <= |s| && s[i..i + |sub|] == sub
  }

  /**
    Membership of the normal form in a set of values with no whitespace at
    their ends: `s` is one of them in some mix of letter cases, padded with
    whitespace.
   */
  lemma NormalizeIn(s: string, values: set<string>)
    requires forall v :: v in values ==> v != [] && !IsSpace(v[0]) && !IsSpace(v[|v| - 1])
    ensures Normalize(s) in values <==>
      exists w1, t, w2 :: s == w1 + t + w2 && AllSpace(w1) && AllSpace(w2) && Lower(t) in values
  {
    if Normalize(s) in values {
      NormalizeDecompose(s);
    }
    if exists w1, t, w2 :: s == w1 + t + w2 && AllSpace(w1) && AllSpace(w2) && Lower(t) in values {
      var w1, t, w2 :| s == w1 + t + w2 && AllSpace(w1) && AllSpace(w2) && Lower(t) in values;
      var l := Lower(t);
      assert !IsSpace(l[0]) && !IsSpace(l[|l| - 1]);
      assert !IsSpace(t[0]) && !IsSpace(t[|t| - 1]);
      TrimNoPadding(t);
      TrimPadding(w1, t, w2);
    }
  }

  /** Past the first position, `sub` occurs in `s` where it occurs in `s[1..]`, one further on. */
  lemma OccursAtShift(s: string, sub: string)
    requires s != [] && !(sub <= s)
    ensures (exists i :: OccursAt(s, sub, i)) <==> exists i :: OccursAt(s[1..], sub, i)
  {
    if exists i :: OccursAt(s, sub, i) {
      var i :| OccursAt(s, sub, i);
      assert i != 0;
      assert OccursAt(s[1..], sub, i - 1);
    }
    if exists i :: OccursAt(s[1..], sub, i) {
      var i :| OccursAt(s[1..], sub, i);
      assert OccursAt(s, sub, i + 1);
    }
  }

  /** `sub in s` holds exactly when `sub` occurs in `s` at some position. */
  lemma {:induction false} ContainsOccurrence(s: string, sub: string)
    ensures Contains(s, sub) <==> exists i :: OccursAt(s, sub, i)
    decreases |s|
  {
    if sub <= s {
      assert OccursAt(s, sub, 0);
    } else if s != [] {
      ContainsOccurrence(s[1..], sub);
      OccursAtShift(s, sub);
    }
  }

  /** An occurrence at a known position makes `sub in s` true. */
  lemma ContainsAt(s: string, sub: string, i: int)
    requires OccursAt(s, sub, i)
    ensures Contains(s, sub)
  {
    ContainsOccurrence(s, sub);
  }

  /** Text that lacks the first character of `sub` does not contain it. */
  lemma ContainsFirstChar(s: string, sub: string)
    requires sub != [] && sub[0] !in s
    ensures !Contains(s, sub)
  {
    ContainsOccurrence(s, sub);
  }

  /** The position of the first `c` in `s` (Python's `s.index(c)`). */
  function IndexOf(s: string, c: char): (i: nat)
    requires c in s
    ensures i < |s|
  {
    if s[0] == c then 0 else IndexOf(s[1..], c) + 1
  }

  /** `s.index(c)` finds `c`, and no `c` comes before it. */
  lemma {:induction false} IndexOfSpec(s: string, c: char)
    requires c in s
    ensures s[IndexOf(s, c)] == c && c !in s[..IndexOf(s, c)]
  {
    if s[0] != c {
      IndexOfSpec(s[1..], c);
      var i := IndexOf(s[1..], c);
      assert s[..i + 1] == [s[0]] + s[1..][..i];
    }
  }

  lemma {:induction false} IndexOfJoin(a: string, c: char, b: string)
    requires c !in a
    ensures c in a + [c] + b && IndexOf(a + [c] + b, c) == |a|
  {
    var s := a + [c] + b;
    assert s[|a|] == c;
    if a != [] {
      assert s[0] == a[0] && s[1..] == a[1..] + [c] + b;
      IndexOfJoin(a[1..], c, b);
    }
  }

  /** Python's `s.split(sep)` for a one-character separator. */
  function Split(s: string, sep: char): (parts: seq<string>)
    ensures |parts| >= 1
    decreases |s|
  {
    if sep !in s then [s]
    else
      var i := IndexOf(s, sep);
      [s[..i]] + Split(s[i + 1..], sep)
  }

  /** Python's `sep.join(parts)`. */
  function Join(parts: seq<string>, sep: char): string
    requires |parts| >= 1
  {
    if |parts| == 1 then parts[0] else parts[0] + [sep] + Join(parts[1..], sep)
  }

  /** Splitting undoes joining, as long as no part holds the separator. */
  lemma {:induction false} SplitJoin(parts: seq<string>, sep: char)
    requires |parts| >= 1
    requires forall k :: 0 <= k < |parts| ==> sep !in parts[k]
    ensures Split(Join(parts, sep), sep) == parts
  {
    if |parts| == 1 {
    } else {
      var rest := Join(parts[1..], sep);
      IndexOfJoin(parts[0], sep, rest);
      var s := parts[0] + [sep] + rest;
      assert Join(parts, sep) == s;
      assert s[..|parts[0]|] == parts[0] && s[|parts[0]| + 1..] == rest;
      assert Split(s, sep) == [parts[0]] + Split(rest, sep);
      SplitJoin(parts[1..], sep);
      assert parts == [parts[0]] + parts[1..];
    }
  }

  /** Every character of a joined string is the separator or a character of one of the parts. */
  lemma {:induction false} JoinChars(parts: seq<string>, sep: char, ok: char -> bool)
    requires |parts| >= 1 && ok(sep)
    requires forall k, i :: 0 <= k < |parts| && 0 <= i < |parts[k]| ==> ok(parts[k][i])
    ensures forall i :: 0 <= i < |Join(parts, sep)| ==> ok(Join(parts, sep)[i])
  {
    if |parts| > 1 {
      JoinChars(parts[1..], sep, ok);
      var head, rest := parts[0], Join(parts[1..], sep);
      forall i | 0 <= i < |Join(parts, sep)|
        ensures ok(Join(parts, sep)[i])
      {
        if i < |head| {
          assert Join(parts, sep)[i] == parts[0][i];
        } else if i > |head| {
          assert Join(parts, sep)[i] == rest[i - |head| - 1];
        }
      }
    }
  }

  /** A joined string starts with its first part and ends with its last. */
  lemma {:induction false} JoinEnds(parts: seq<string>, sep: char)
    requires |parts| >= 1
    ensures parts[0] <= Join(parts, sep)
    ensures |parts[|parts| - 1]| <= |Join(parts, sep)|
    ensures Join(parts, sep)[|Join(parts, sep)| - |parts[|parts| - 1]|..] == parts[|parts| - 1]
  {
    if |parts| > 1 {
      JoinEnds(parts[1..], sep);
      var rest := Join(parts[1..], sep);
      assert Join(parts, sep) == parts[0] + [sep] + rest;
    }
  }

  predicate IsDigit(c: char) {
    '0' <= c <= '9'
  }

  predicate AllDigits(s: string) {
    forall i :: 0 <= i < |s| ==> IsDigit(s[i])
  }

  function DigitValue(c: char): nat
    requires IsDigit(c)
  {
    c as int - '0' as int
  }

  /** The value of a string of decimal digits, most significant first. */
  function DigitsValue(s: string): nat
    requires AllDigits(s)
  {
    if s == [] then 0 else DigitsValue(s[..|s| - 1]) * 10 + DigitValue(s[|s| - 1])
  }

  /** One more digit at the end multiplies the value by ten and adds the digit. */
  lemma DigitsValueSnoc(s: string, c: char)
    requires AllDigits(s) && IsDigit(c)
    ensures AllDigits(s + [c]) && DigitsValue(s + [c]) == DigitsValue(s) * 10 + DigitValue(c)
  {
    assert (s + [c])[..|s|] == s;
  }

  /**
    Python's `int(s)` on a string, approximately: whitespace around, an
    optional sign, then one or more ASCII digits; any other text is a
    `ValueError` (`None`). Python also accepts underscores between digits
    and non-ASCII decimal digits, and refuses more than 4300 digits; the
    model does neither.
   */
  function ParseInt(s: string): Option<int> {
    ParseTrimmedInt(Trim(s))
  }

  /** `int()` once surrounding whitespace is gone: an optional sign, then one or more ASCII digits. */
  function ParseTrimmedInt(t: string): Option<int> {
    if t != [] && (t[0] == '-' || t[0] == '+') then
      if t[1..] != [] && AllDigits(t[1..]) then
        var v: int := DigitsValue(t[1..]);
        Some(if t[0] == '-' then -v else v)
      else None
    else if t != [] && AllDigits(t) then Some(DigitsValue(t))
    else None
  }

  function DigitChar(d: nat): (c: char)
    requires d < 10
    ensures IsDigit(c) && DigitValue(c) == d
  {
    ('0' as int + d) as char
  }

  /** The decimal digits of `n`, as Python's `str(n)` prints them. */
  function NatToString(n: nat): (s: string)
    ensures s != [] && AllDigits(s)
  {
    if n < 10 then [DigitChar(n)] else NatToString(n / 10) + [DigitChar(n % 10)]
  }

  /** Python's `str(n)` for an integer. */
  function IntToString(n: int): string {
    if n < 0 then "-" + NatToString(-n) else NatToString(n)
  }

  lemma {:induction false} NatToStringValue(n: nat)
    ensures DigitsValue(NatToString(n)) == n
  {
    if n >= 10 {
      NatToStringValue(n / 10);
      var s := NatToString(n);
      assert s[..|s| - 1] == NatToString(n / 10);
    }
  }

  lemma DigitsNotSpace(s: string)
    requires AllDigits(s)
    ensures AllSpace(s) <==> s == []
    ensures Lower(s) == s
  {
    if s != [] {
      assert !IsSpace(s[0]);
    }
  }

  /** Text without capital ASCII letters is its own `lower()`. */
  lemma LowerNoCapitals(s: string)
    requires forall i :: 0 <= i < |s| ==> !('A' <= s[i] <= 'Z')
    ensures Lower(s) == s
  {
  }

  lemma TrimNoPadding(s: string)
    requires s == [] || (!IsSpace(s[0]) && !IsSpace(s[|s| - 1]))
    ensures Trim(s) == s
  {
    assert s == [] + s + [];
    TrimUnique([], s, []);
  }

  /** A plain run of digits reads as its value. */
  lemma ParseDigits(d: string)
    requires d != [] && AllDigits(d)
    ensures ParseInt(d) == Some(DigitsValue(d))
  {
    assert Trim(d) == d by {
      assert IsDigit(d[0]) && IsDigit(d[|d| - 1]);
      TrimNoPadding(d);
    }
    assert ParseTrimmedInt(d) == Some(DigitsValue(d)) by {
      assert IsDigit(d[0]);
    }
  }

  lemma ParseNatString(m: nat)
    ensures ParseInt(NatToString(m)) == Some(m)
  {
    NatToStringValue(m);
    ParseDigits(NatToString(m));
  }

  lemma SignedNoPadding(d: string)
    requires d != [] && AllDigits(d)
    ensures Trim("-" + d) == "-" + d
  {
    var s := "-" + d;
    assert s[|s| - 1] == d[|d| - 1];
    assert IsDigit(d[|d| - 1]);
    TrimNoPadding(s);
  }

  lemma ParseTrimmedNegative(d: string)
    requires d != [] && AllDigits(d)
    ensures ParseTrimmedInt("-" + d) == Some(0 - DigitsValue(d))
  {
    var s := "-" + d;
    assert s[0] == '-' && s[1..] == d;
  }

  /** A minus sign followed by digits reads as the negated value. */
  lemma ParseNegativeDigits(d: string)
    requires d != [] && AllDigits(d)
    ensures ParseInt("-" + d) == Some(0 - DigitsValue(d))
  {
    SignedNoPadding(d);
    ParseTrimmedNegative(d);
  }

  /** `int()` reads back every integer `str()` prints. */
  lemma ParseIntToString(n: int)
    ensures ParseInt(IntToString(n)) == Some(n)
  {
    if n < 0 {
      NatToStringValue(-n);
      ParseNegativeDigits(NatToString(-n));
    } else {
      ParseNatString(n);
    }
  }

  /** Python's `a <= b` on strings: lexicographic comparison by code point. */
  predicate StrLe(a: string, b: string)
    decreases |a|
  {
    a == [] || (b != [] && (a[0] < b[0] || (a[0] == b[0] && StrLe(a[1..], b[1..]))))
  }

  lemma {:induction false} StrLeTotal(a: string, b: string)
    ensures StrLe(a, b) || StrLe(b, a)
    decreases |a|
  {
    if a != [] && b != [] && a[0] == b[0] {
      StrLeTotal(a[1..], b[1..]);
    }
  }

  lemma {:induction false} StrLeTransitive(a: string, b: string, c: string)
    requires StrLe(a, b) && StrLe(b, c)
    ensures StrLe(a, c)
    decreases |a|
  {
    if a != [] && b != [] && c != [] && a[0] == b[0] == c[0] {
      StrLeTransitive(a[1..], b[1..], c[1..]);
    }
  }

  lemma {:induction false} StrLeAntisymmetric(a: string, b: string)
    requires StrLe(a, b) && StrLe(b, a)
    ensures a == b
    decreases |a|
  {
    if a != [] && b != [] {
      StrLeAntisymmetric(a[1..], b[1..]);
      assert a == [a[0]] + a[1..] && b == [b[0]] + b[1..];
    }
  }
}
