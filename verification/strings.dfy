/**
 * The Python string operations the indexer relies on: `str.lower`, `str.strip`,
 * `str(n)`, `int(s)`, `sep.join`, `s.split(c)` and `c * n`. Where Python consults
 * the Unicode tables (case mapping, whitespace, digits) this module keeps to ASCII.
 */
module Strings {
  import opened Wrappers

  /** `c.isspace()` for ASCII: space, \t \n \v \f \r and the separators 0x1c-0x1f. */
  predicate IsSpace(c: char) {
    c == ' ' || '\t' <= c <= '\r' || '\U{1C}' <= c <= '\U{1F}'
  }

  predicate IsUpper(c: char) { 'A' <= c <= 'Z' }

  predicate IsDigit(c: char) { '0' <= c <= '9' }

  predicate AllDigits(s: string) { forall i :: 0 <= i < |s| ==> IsDigit(s[i]) }

  function LowerChar(c: char): (l: char)
    ensures !IsUpper(l)
    ensures !IsUpper(c) ==> l == c
  {
    if IsUpper(c) then (c as int + 32) as char else c
  }

  /** `s.lower()`: every upper-case letter replaced by its lower-case form. */
  function Lower(s: string): (r: string)
    ensures |r| == |s|
    ensures forall i :: 0 <= i < |r| ==> !IsUpper(r[i])
    ensures forall i :: 0 <= i < |s| ==> r[i] == LowerChar(s[i])
  {
    seq(|s|, i requires 0 <= i < |s| => LowerChar(s[i]))
  }

  function LStrip(s: string): (r: string)
    ensures |r| <= |s|
    decreases |s|
  {
    if |s| > 0 && IsSpace(s[0]) then LStrip(s[1..]) else s
  }

  function RStrip(s: string): (r: string)
    ensures |r| <= |s|
    decreases |s|
  {
    if |s| > 0 && IsSpace(s[|s| - 1]) then RStrip(s[..|s| - 1]) else s
  }

  /** `s.lstrip()` removes the leading whitespace and nothing else. */
  lemma {:induction false} LStripSpec(s: string)
    ensures var r := LStrip(s);
      && r == s[|s| - |r|..]
      && (forall i :: 0 <= i < |s| - |r| ==> IsSpace(s[i]))
      && (|r| == 0 || !IsSpace(r[0]))
    decreases |s|
  {
    if |s| > 0 && IsSpace(s[0]) {
      LStripSpec(s[1..]);
    }
  }

  /** `s.rstrip()` removes the trailing whitespace and nothing else. */
  lemma {:induction false} RStripSpec(s: string)
    ensures var r := RStrip(s);
      && r == s[..|r|]
      && (forall i :: |r| <= i < |s| ==> IsSpace(s[i]))
      && (|r| == 0 || !IsSpace(r[|r| - 1]))
    decreases |s|
  {
    if |s| > 0 && IsSpace(s[|s| - 1]) {
      RStripSpec(s[..|s| - 1]);
    }
  }

  /** Number of whitespace characters `s.strip()` removes at the front. */
  function StripOffset(s: string): nat
  {
    |s| - |LStrip(s)|
  }

  /** `s.strip()`. */
  function Strip(s: string): (r: string)
    ensures |r| <= |s|
  {
    RStrip(LStrip(s))
  }

  /**
   * `s.strip()` leaves the part of `s` between the whitespace at both ends;
   * that part neither starts nor ends with whitespace.
   */
  lemma StripSpec(s: string)
    ensures var r := Strip(s);
      && (|r| == 0 || (!IsSpace(r[0]) && !IsSpace(r[|r| - 1])))
      && StripOffset(s) + |r| <= |s| && r == s[StripOffset(s)..StripOffset(s) + |r|]
      && (forall i :: 0 <= i < StripOffset(s) ==> IsSpace(s[i]))
      && (forall i :: StripOffset(s) + |r| <= i < |s| ==> IsSpace(s[i]))
  {
    var l := LStrip(s);
    LStripSpec(s);
    RStripSpec(l);
  }

  /** `[x.strip() for x in xs]`. */
  function StripEach(xs: seq<string>): (r: seq<string>)
    ensures |r| == |xs|
    decreases |xs|
  {
    if |xs| == 0 then [] else StripEach(xs[..|xs| - 1]) + [Strip(xs[|xs| - 1])]
  }

  /** Stripping a list piece by piece is stripping it whole. */
  lemma {:induction false} StripEachAppend(a: seq<string>, b: seq<string>)
    ensures StripEach(a + b) == StripEach(a) + StripEach(b)
    decreases |b|
  {
    if |b| == 0 {
      assert a + b == a;
    } else {
      var init := b[..|b| - 1];
      assert (a + b)[..|a + b| - 1] == a + init;
      StripEachAppend(a, init);
    }
  }

  lemma StripEachSnoc(xs: seq<string>)
    requires |xs| > 0
    ensures StripEach(xs) == StripEach(xs[..|xs| - 1]) + [Strip(xs[|xs| - 1])]
  {
  }

  lemma StripEachPrefix(xs: seq<string>)
    requires |xs| > 0
    ensures StripEach(xs)[..|xs| - 1] == StripEach(xs[..|xs| - 1])
  {
    assert StripEach(xs) == StripEach(xs[..|xs| - 1]) + [Strip(xs[|xs| - 1])];
  }

  lemma StripUnchanged(s: string)
    requires |s| == 0 || (!IsSpace(s[0]) && !IsSpace(s[|s| - 1]))
    ensures Strip(s) == s
  {
  }

  /** `[c] * n`: empty when `n` is zero or negative. */
  function RepeatChar(c: char, n: int): (r: string)
    ensures |r| == if n <= 0 then 0 else n
    ensures forall i :: 0 <= i < |r| ==> r[i] == c
    decreases n
  {
    if n <= 0 then "" else RepeatChar(c, n - 1) + [c]
  }

  /** `''.join(xs)`: the pieces one after another. */
  function Concat(xs: seq<string>): (r: string)
    ensures (forall i :: 0 <= i < |xs| ==> xs[i] != []) ==> |r| >= |xs|
    decreases |xs|
  {
    if |xs| == 0 then "" else Concat(xs[..|xs| - 1]) + xs[|xs| - 1]
  }

  lemma ConcatSingle(x: string)
    ensures Concat([x]) == x
  {
    assert [x][..0] == [];
  }

  lemma {:induction false} ConcatAppend(a: seq<string>, b: seq<string>)
    ensures Concat(a + b) == Concat(a) + Concat(b)
    decreases |b|
  {
    if b == [] {
      assert a + b == a;
    } else {
      var b' := b[..|b| - 1];
      assert (a + b)[..|a + b| - 1] == a + b';
      ConcatAppend(a, b');
    }
  }

  function DigitChar(d: nat): (c: char)
    requires d < 10
    ensures IsDigit(c)
  {
    (d + '0' as int) as char
  }

  function DigitValue(c: char): nat
    requires IsDigit(c)
  {
    c as int - '0' as int
  }

  /** `str(n)` for a natural number: its decimal digits. */
  function NatToString(n: nat): (r: string)
    ensures |r| > 0 && AllDigits(r)
    decreases n
  {
    if n < 10 then [DigitChar(n)] else NatToString(n / 10) + [DigitChar(n % 10)]
  }

  /** `str(n)`: a minus sign for a negative number, then the decimal digits. */
  function IntToString(n: int): (r: string)
    ensures |r| > 0
    ensures forall i :: 0 <= i < |r| ==> IsDigit(r[i]) || (i == 0 && r[i] == '-')
  {
    if n < 0 then "-" + NatToString(-n) else NatToString(n)
  }

  /** The number a string of decimal digits denotes. */
  function DigitsValue(s: string): nat
    requires AllDigits(s)
    decreases |s|
  {
    if s == [] then 0 else DigitsValue(s[..|s| - 1]) * 10 + DigitValue(s[|s| - 1])
  }

  /**
   * `int(s)`: surrounding whitespace, an optional sign and at least one digit;
   * anything else raises ValueError, here None.
   */
  function ParseInt(s: string): Option<int>
  {
    ParseSigned(Strip(s))
  }

  /** An optional sign followed by at least one digit, with nothing around them. */
  function ParseSigned(t: string): Option<int>
  {
    if |t| > 0 && (t[0] == '-' || t[0] == '+') then
      if |t| > 1 && AllDigits(t[1..]) then
        Some(if t[0] == '-' then 0 - DigitsValue(t[1..]) as int else DigitsValue(t[1..]) as int)
      else None
    else if |t| > 0 && AllDigits(t) then Some(DigitsValue(t))
    else None
  }

  lemma {:induction false} NatToStringRoundTrip(n: nat)
    ensures DigitsValue(NatToString(n)) == n
    decreases n
  {
    if n >= 10 {
      NatToStringRoundTrip(n / 10);
      var s := NatToString(n);
      assert s[..|s| - 1] == NatToString(n / 10);
    }
  }

  /** `int` reads a string of digits as the number they denote. */
  lemma ParseDigits(digits: string)
    requires |digits| > 0 && AllDigits(digits)
    ensures ParseInt(digits) == Some(DigitsValue(digits))
  {
    StripUnchanged(digits);
  }

  /** `int` reads a minus sign and digits as the negated number. */
  lemma ParseNegative(digits: string)
    requires |digits| > 0 && AllDigits(digits)
    ensures ParseInt(['-'] + digits) == Some(0 - DigitsValue(digits))
  {
    var signed := ['-'] + digits;
    StripSigned(digits);
    ParseStripped(signed);
    assert signed[1..] == digits;
    ParseMinus(signed);
  }

  lemma StripSigned(digits: string)
    requires |digits| > 0 && AllDigits(digits)
    ensures Strip(['-'] + digits) == ['-'] + digits
  {
    var signed := ['-'] + digits;
    assert IsDigit(digits[|digits| - 1]);
    assert signed[|signed| - 1] == digits[|digits| - 1];
    StripUnchanged(signed);
  }

  lemma ParseStripped(s: string)
    requires Strip(s) == s
    ensures ParseInt(s) == ParseSigned(s)
  {
  }

  lemma ParseMinus(t: string)
    requires |t| > 1 && t[0] == '-' && AllDigits(t[1..])
    ensures ParseSigned(t) == Some(0 - DigitsValue(t[1..]))
  {
  }

  /** `int(str(n)) == n`: the decimal text of a number reads back as that number. */
  lemma IntToStringRoundTrip(n: int)
    ensures ParseInt(IntToString(n)) == Some(n)
  {
    var digits := NatToString(if n < 0 then -n else n);
    NatToStringRoundTrip(if n < 0 then -n else n);
    if n < 0 {
      ParseNegative(digits);
    } else {
      ParseDigits(digits);
    }
  }

  /** `sep.join(xs)`. */
  function Join(sep: string, xs: seq<string>): string
    decreases |xs|
  {
    if |xs| == 0 then "" else if |xs| == 1 then xs[0] else xs[0] + sep + Join(sep, xs[1..])
  }

  /** `s.split(c)`: the pieces between occurrences of `c`, at least one. */
  function Split(s: string, c: char): (parts: seq<string>)
    ensures |parts| > 0
    decreases |s|
  {
    if s == [] then [""]
    else
      var rest := Split(s[1..], c);
      if s[0] == c then [""] + rest else [[s[0]] + rest[0]] + rest[1..]
  }

  lemma {:induction false} SplitWithout(s: string, c: char)
    requires c !in s
    ensures Split(s, c) == [s]
    decreases |s|
  {
    if s != [] {
      SplitWithout(s[1..], c);
      assert [s[0]] + s[1..] == s;
    }
  }

  /** Splitting at one occurrence of the separator splits the two sides independently. */
  lemma {:induction false} SplitAround(a: string, b: string, c: char)
    ensures Split(a + [c] + b, c) == Split(a, c) + Split(b, c)
    decreases |a|
  {
    if |a| == 0 {
      assert a + [c] + b == [c] + b;
      SplitCons(c, b, c);
    } else {
      var t := a[1..] + [c] + b;
      assert a + [c] + b == [a[0]] + t;
      assert a == [a[0]] + a[1..];
      SplitAround(a[1..], b, c);
      SplitCons(a[0], t, c);
      SplitCons(a[0], a[1..], c);
      ConsPieces(a[0], c, Split(t, c), Split(a[1..], c), Split(b, c));
    }
  }

  /** The first-character step of `split` distributes over appended pieces. */
  lemma ConsPieces(x: char, c: char, rest: seq<string>, front: seq<string>, back: seq<string>)
    requires |front| > 0 && rest == front + back
    ensures (if x == c then [""] + rest else [[x] + rest[0]] + rest[1..])
      == (if x == c then [""] + front else [[x] + front[0]] + front[1..]) + back
  {
    if x != c {
      assert rest[1..] == front[1..] + back;
    }
  }

  /** How `split` treats the first character. */
  lemma SplitCons(x: char, t: string, c: char)
    ensures Split([x] + t, c) == if x == c then [""] + Split(t, c) else [[x] + Split(t, c)[0]] + Split(t, c)[1..]
  {
    assert ([x] + t)[1..] == t;
  }

  /** `sep.join` then `split(sep)` gives back the pieces, when no piece holds the separator. */
  lemma {:induction false} SplitJoin(xs: seq<string>, c: char)
    requires |xs| > 0
    requires forall i :: 0 <= i < |xs| ==> c !in xs[i]
    ensures Split(Join([c], xs), c) == xs
    decreases |xs|
  {
    if |xs| == 1 {
      SplitWithout(xs[0], c);
    } else {
      SplitJoin(xs[1..], c);
      SplitWithout(xs[0], c);
      SplitAround(xs[0], Join([c], xs[1..]), c);
      assert [xs[0]] + xs[1..] == xs;
    }
  }

  /**
   * Strict lexicographic order by character code, a proper prefix first: the
   * order of SQLite's default BINARY collation on UTF-8 text.
   */
  predicate LexLess(a: string, b: string)
    decreases |a|
  {
    if a == [] then b != []
    else b != [] && (a[0] < b[0] || (a[0] == b[0] && LexLess(a[1..], b[1..])))
  }

  predicate LexLeq(a: string, b: string) { a == b || LexLess(a, b) }

  lemma {:induction false} LexLessIrreflexive(a: string)
    ensures !LexLess(a, a)
    decreases |a|
  {
    if a != [] { LexLessIrreflexive(a[1..]); }
  }

  lemma {:induction false} LexLessTransitive(a: string, b: string, c: string)
    requires LexLess(a, b) && LexLess(b, c)
    ensures LexLess(a, c)
    decreases |a|
  {
    if a != [] && a[0] == b[0] && b[0] == c[0] {
      LexLessTransitive(a[1..], b[1..], c[1..]);
    }
  }
}
