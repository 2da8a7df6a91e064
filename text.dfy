/**
 * The few Python string operations the bot relies on, over Dafny strings
 * (sequences of Unicode scalar values): str.isspace/str.strip, str.split on one
 * character, str.replace of one character by nothing, str.startswith, the `in`
 * substring test, int() on a decimal string, and code-point string order.
 */
module Text {
  import opened Base

  /** Python's str.isspace() for one character. */
  predicate IsSpace(c: char) {
    var n := c as int;
    (9 <= n <= 13) || (28 <= n <= 32) || n == 0x85 || n == 0xA0 || n == 0x1680 ||
    (0x2000 <= n <= 0x200A) || n == 0x2028 || n == 0x2029 || n == 0x202F ||
    n == 0x205F || n == 0x3000
  }

  predicate IsDigit(c: char) {
    '0' <= c <= '9'
  }

  function DigitValue(c: char): (d: nat)
    requires IsDigit(c)
    ensures d <= 9
  {
    (c as int) - ('0' as int)
  }

  function DigitChar(d: nat): (c: char)
    requires d <= 9
    ensures IsDigit(c) && DigitValue(c) == d
  {
    (('0' as int) + d) as char
  }

  predicate AllDigits(s: string) {
    forall i :: 0 <= i < |s| ==> IsDigit(s[i])
  }

  /** Leading whitespace removed (the left half of str.strip). */
  function TrimLeft(s: string): (r: string)
    ensures |r| <= |s| && r == s[|s| - |r|..]
    ensures r == [] || !IsSpace(r[0])
    ensures forall i :: 0 <= i < |s| - |r| ==> IsSpace(s[i])
  {
    if |s| > 0 && IsSpace(s[0]) then TrimLeft(s[1..]) else s
  }

  /** Trailing whitespace removed (the right half of str.strip). */
  function TrimRight(s: string): (r: string)
    ensures |r| <= |s| && r == s[..|r|]
    ensures r == [] || !IsSpace(r[|r| - 1])
    ensures forall i :: |r| <= i < |s| ==> IsSpace(s[i])
  {
    if |s| > 0 && IsSpace(s[|s| - 1]) then TrimRight(s[..|s| - 1]) else s
  }

  /** The number of whitespace characters `s` starts with. */
  function LeadingSpaces(s: string): (n: nat)
    ensures n <= |s|
    ensures forall k :: 0 <= k < n ==> IsSpace(s[k])
    ensures n < |s| ==> !IsSpace(s[n])
  {
    if |s| > 0 && IsSpace(s[0]) then 1 + LeadingSpaces(s[1..]) else 0
  }

  lemma {:induction false} TrimLeftDrops(s: string)
    ensures TrimLeft(s) == s[LeadingSpaces(s)..]
  {
    if |s| > 0 && IsSpace(s[0]) {
      TrimLeftDrops(s[1..]);
      assert s[1..][LeadingSpaces(s[1..])..] == s[1 + LeadingSpaces(s[1..])..];
    }
  }

  /** Python's str.strip() with no argument. */
  function Strip(s: string): (r: string)
    ensures r == [] || (!IsSpace(r[0]) && !IsSpace(r[|r| - 1]))
    ensures |r| <= |s|
  {
    TrimRight(TrimLeft(s))
  }

  /** What strip removes: the result is the slice of `s` after its leading whitespace, and
      everything after that slice is whitespace too. */
  lemma StripIsSlice(s: string)
    ensures var i, r := LeadingSpaces(s), Strip(s);
      && i + |r| <= |s| && r == s[i..i + |r|]
      && forall k :: i + |r| <= k < |s| ==> IsSpace(s[k])
  {
    TrimLeftDrops(s);
    TrimRightSlice(s, LeadingSpaces(s));
  }

  /** Trimming the right of a suffix `s[i..]` leaves a slice of `s` followed only by whitespace. */
  lemma TrimRightSlice(s: string, i: nat)
    requires i <= |s|
    ensures var r := TrimRight(s[i..]);
      && i + |r| <= |s| && r == s[i..i + |r|]
      && forall k :: i + |r| <= k < |s| ==> IsSpace(s[k])
  {
    var t := s[i..];
    var r := TrimRight(t);
    assert t[..|r|] == s[i..i + |r|];
    forall k | i + |r| <= k < |s| ensures IsSpace(s[k]) {
      assert s[k] == t[k - i];
    }
  }

  /** A string that neither starts nor ends with whitespace is its own strip. */
  lemma StripKeeps(s: string)
    requires s == [] || (!IsSpace(s[0]) && !IsSpace(s[|s| - 1]))
    ensures Strip(s) == s
  {
  }

  /** str.replace(c, '') for a single character c. */
  function RemoveChar(s: string, c: char): (r: string)
    ensures |r| <= |s|
    ensures forall i :: 0 <= i < |r| ==> r[i] in s && r[i] != c
  {
    if s == [] then [] else (if s[0] == c then [] else [s[0]]) + RemoveChar(s[1..], c)
  }

  lemma {:induction false} RemoveCharAppend(a: string, b: string, c: char)
    ensures RemoveChar(a + b, c) == RemoveChar(a, c) + RemoveChar(b, c)
  {
    if a != [] {
      var head := if a[0] == c then [] else [a[0]];
      assert (a + b)[0] == a[0] && (a + b)[1..] == a[1..] + b;
      assert RemoveChar(a + b, c) == head + RemoveChar(a[1..] + b, c);
      assert RemoveChar(a, c) == head + RemoveChar(a[1..], c);
      RemoveCharAppend(a[1..], b, c);
    } else {
      assert a + b == b;
    }
  }

  lemma {:induction false} RemoveCharAbsent(s: string, c: char)
    requires c !in s
    ensures RemoveChar(s, c) == s
  {
    if s != [] {
      assert c !in s[1..];
      RemoveCharAbsent(s[1..], c);
    }
  }

  lemma RemoveCharSingle(c: char, x: char)
    ensures RemoveChar([c], x) == if c == x then [] else [c]
  {
    assert [c][1..] == [];
  }

  /** Removing a character absent from `a` and `b` touches only the one in between. */
  lemma RemoveCharAround(a: string, c: char, b: string, x: char)
    requires x !in a && x !in b
    ensures RemoveChar(a + [c] + b, x) == a + RemoveChar([c], x) + b
  {
    RemoveCharAppend(a + [c], b, x);
    RemoveCharAppend(a, [c], x);
    RemoveCharAbsent(a, x);
    RemoveCharAbsent(b, x);
  }

  /** str.split(sep) for a one-character separator: always at least one field. */
  function Split(s: string, sep: char): (fields: seq<string>)
    ensures |fields| >= 1
    ensures forall i :: 0 <= i < |fields| ==> sep !in fields[i]
  {
    if |s| == 0 then [""]
    else
      var rest := Split(s[1..], sep);
      if s[0] == sep then [""] + rest
      else [[s[0]] + rest[0]] + rest[1..]
  }

  /** A string without the separator is one field. */
  lemma {:induction false} SplitNoSep(s: string, sep: char)
    requires sep !in s
    ensures Split(s, sep) == [s]
  {
    if |s| > 0 {
      assert sep !in s[1..];
      SplitNoSep(s[1..], sep);
      assert [s[0]] + s[1..] == s;
    }
  }

  /** Splitting `a + [sep] + b`, where a has no separator, yields a then the fields of b. */
  lemma {:induction false} SplitCons(a: string, b: string, sep: char)
    requires sep !in a
    ensures Split(a + [sep] + b, sep) == [a] + Split(b, sep)
  {
    var s := a + [sep] + b;
    if |a| == 0 {
      assert s[1..] == b;
    } else {
      assert s[1..] == a[1..] + [sep] + b;
      assert sep !in a[1..];
      SplitCons(a[1..], b, sep);
      assert [a[0]] + a[1..] == a;
    }
  }

  /** The value of a non-empty run of ASCII digits, most significant first. */
  function DecimalValue(ds: string): (v: nat)
    requires AllDigits(ds)
  {
    if |ds| == 0 then 0 else DecimalValue(ds[..|ds| - 1]) * 10 + DigitValue(ds[|ds| - 1])
  }

  function Pow10(n: nat): (p: nat)
    ensures p >= 1
  {
    if n == 0 then 1 else 10 * Pow10(n - 1)
  }

  /** The value of a concatenation of digit runs: the left run shifted by the length of the right one. */
  lemma {:induction false} DecimalValueAppend(a: string, b: string)
    requires AllDigits(a) && AllDigits(b)
    ensures AllDigits(a + b)
    ensures DecimalValue(a + b) == DecimalValue(a) * Pow10(|b|) + DecimalValue(b)
  {
    var s := a + b;
    assert AllDigits(s);
    if |b| == 0 {
      assert s == a;
    } else {
      var b' := b[..|b| - 1];
      var d := DigitValue(b[|b| - 1]);
      assert s[..|s| - 1] == a + b' && s[|s| - 1] == b[|b| - 1];
      DecimalValueAppend(a, b');
      assert DecimalValue(s) == DecimalValue(a + b') * 10 + d;
      assert DecimalValue(b) == DecimalValue(b') * 10 + d;
      assert Pow10(|b|) == 10 * Pow10(|b'|);
      ShiftDigit(DecimalValue(a), Pow10(|b'|), DecimalValue(b'), d);
    }
  }

  lemma ShiftDigit(x: int, p: int, y: int, d: int)
    ensures (x * p + y) * 10 + d == x * (10 * p) + (y * 10 + d)
  {
  }

  /** Python's int() on a str (base 10): surrounding whitespace, an optional sign,
      then digits with single underscores allowed between digits. */
  predicate DigitGroups(s: string) {
    && |s| > 0
    && IsDigit(s[0]) && IsDigit(s[|s| - 1])
    && (forall i :: 0 <= i < |s| ==> IsDigit(s[i]) || s[i] == '_')
    && (forall i :: 0 <= i < |s| - 1 ==> !(s[i] == '_' && s[i + 1] == '_'))
  }

  function SignedBody(t: string): string {
    if |t| > 0 && (t[0] == '+' || t[0] == '-') then t[1..] else t
  }

  function PyInt(s: string): (r: Option<int>)
    ensures r.Some? ==> DigitGroups(SignedBody(Strip(s)))
  {
    var t := Strip(s);
    var body := SignedBody(t);
    if DigitGroups(body) then
      var ds := RemoveChar(body, '_');
      assert AllDigits(ds) by {
        forall i | 0 <= i < |ds| ensures IsDigit(ds[i]) {
          assert ds[i] in body;
        }
      }
      var v := DecimalValue(ds);
      Some(if t[0] == '-' then -(v as int) else v)
    else None
  }

  /** int() reads back a run of ASCII digits as its decimal value. */
  lemma {:induction false} PyIntDigits(ds: string)
    requires |ds| > 0 && AllDigits(ds)
    ensures PyInt(ds) == Some(DecimalValue(ds))
  {
    assert IsDigit(ds[0]) && IsDigit(ds[|ds| - 1]);
    StripKeeps(ds);
    assert ds[0] != '+' && ds[0] != '-';
    assert SignedBody(Strip(ds)) == ds;
    assert '_' !in ds by {
      forall i | 0 <= i < |ds| ensures ds[i] != '_' {
        assert IsDigit(ds[i]);
      }
    }
    assert DigitGroups(ds);
    RemoveCharAbsent(ds, '_');
  }

  /** int() fails on a string without any ASCII digit. */
  lemma PyIntNeedsDigit(s: string)
    requires forall i :: 0 <= i < |s| ==> !IsDigit(s[i])
    ensures PyInt(s) == None
  {
    var t := TrimLeft(s);
    var u := Strip(s);
    assert u == t[..|u|];
    var body := SignedBody(u);
    if |body| > 0 {
      assert body[0] in u;
      assert !IsDigit(body[0]);
    }
  }

  /** `n` written with exactly `width` decimal digits (leading zeros), as in "%0*d". */
  function Digits(n: nat, width: nat): (s: string)
    ensures |s| == width && AllDigits(s)
  {
    if width == 0 then [] else Digits(n / 10, width - 1) + [DigitChar(n % 10)]
  }

  lemma {:induction false} DigitsValue(n: nat, width: nat)
    requires n < Pow10(width)
    ensures DecimalValue(Digits(n, width)) == n
  {
    if width > 0 {
      var s := Digits(n, width);
      assert s[..|s| - 1] == Digits(n / 10, width - 1);
      DigitsValue(n / 10, width - 1);
    }
  }

  function StartsWith(s: string, prefix: string): bool {
    |prefix| <= |s| && s[..|prefix|] == prefix
  }

  /** Python's `part in s` for strings. */
  predicate Contains(s: string, part: string) {
    exists i :: 0 <= i <= |s| - |part| && OccursAt(s, part, i)
  }

  predicate OccursAt(s: string, part: string, i: int) {
    0 <= i && i + |part| <= |s| && s[i..i + |part|] == part
  }

  lemma ContainsPrefix(part: string, rest: string)
    ensures Contains(part + rest, part)
  {
    assert OccursAt(part + rest, part, 0);
  }

  /** ASCII lower-casing of one character (SQL LOWER on ASCII text). */
  function LowerChar(c: char): char {
    if 'A' <= c <= 'Z' then ((c as int) + 32) as char else c
  }

  function Lower(s: string): (r: string)
    ensures |r| == |s|
    ensures forall i :: 0 <= i < |s| ==> r[i] == LowerChar(s[i])
  {
    if s == [] then [] else [LowerChar(s[0])] + Lower(s[1..])
  }

  /** Code-point lexicographic order on strings (strict). */
  predicate Less(s: string, t: string) {
    if |s| == 0 then |t| > 0
    else if |t| == 0 then false
    else if s[0] != t[0] then s[0] < t[0]
    else Less(s[1..], t[1..])
  }

  /** Code-point lexicographic order on strings (non-strict). */
  predicate LessEq(s: string, t: string) {
    s == t || Less(s, t)
  }

  lemma {:induction false} LessIrreflexive(s: string)
    ensures !Less(s, s)
  {
    if |s| > 0 {
      LessIrreflexive(s[1..]);
    }
  }

  lemma {:induction false} LessTrichotomy(s: string, t: string)
    ensures Less(s, t) || s == t || Less(t, s)
    ensures !(Less(s, t) && Less(t, s))
  {
    if |s| > 0 && |t| > 0 && s[0] == t[0] {
      LessTrichotomy(s[1..], t[1..]);
      if s[1..] == t[1..] {
        assert s == [s[0]] + s[1..] && t == [t[0]] + t[1..];
      }
    }
  }

  lemma {:induction false} LessTransitive(s: string, t: string, u: string)
    requires Less(s, t) && Less(t, u)
    ensures Less(s, u)
  {
    if |s| > 0 && |t| > 0 && |u| > 0 && s[0] == t[0] && t[0] == u[0] {
      LessTransitive(s[1..], t[1..], u[1..]);
    }
  }

  /** Comparing two concatenations whose left parts have the same length:
      the left parts decide unless they are equal. */
  lemma {:induction false} LessAppend(a: string, x: string, b: string, y: string)
    requires |a| == |b|
    ensures Less(a + x, b + y) <==> Less(a, b) || (a == b && Less(x, y))
  {
    if |a| > 0 {
      assert (a + x)[0] == a[0] && (b + y)[0] == b[0];
      assert (a + x)[1..] == a[1..] + x && (b + y)[1..] == b[1..] + y;
      LessAppend(a[1..], x, b[1..], y);
      if a[0] == b[0] {
        assert a == b <==> a[1..] == b[1..] by {
          assert a == [a[0]] + a[1..] && b == [b[0]] + b[1..];
        }
      }
    } else {
      assert a + x == x && b + y == y;
    }
  }

  /** Zero-padded decimal strings of one width compare as their values. */
  lemma {:induction false} DigitsOrder(v: nat, w: nat, width: nat)
    requires v < Pow10(width) && w < Pow10(width)
    ensures Less(Digits(v, width), Digits(w, width)) <==> v < w
    ensures Digits(v, width) == Digits(w, width) <==> v == w
  {
    if width == 0 {
      assert Digits(v, width) == [] == Digits(w, width);
    } else {
      var hv, hw := Digits(v / 10, width - 1), Digits(w / 10, width - 1);
      var cv, cw := [DigitChar(v % 10)], [DigitChar(w % 10)];
      DigitsOrder(v / 10, w / 10, width - 1);
      LessAppend(hv, cv, hw, cw);
      assert Less(cv, cw) <==> v % 10 < w % 10 by {
        assert cv[1..] == [] && cw[1..] == [];
      }
      if hv + cv == hw + cw {
        assert hv == (hv + cv)[..width - 1] == (hw + cw)[..width - 1] == hw;
        assert cv[0] == (hv + cv)[width - 1] == (hw + cw)[width - 1] == cw[0];
      }
    }
  }
}
