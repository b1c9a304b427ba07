/** The parts of the C++ standard library the client relies on to take strings
    apart: `std::string::find`, `find_first_of`, `::tolower`, `std::stoi`,
    `std::stoul` and `std::to_string`, over strings of `char`. */
module Text {
  import opened Wrappers

  const CRLF: string := "\r\n"
  /** The blank line that ends an HTTP head. */
  const HeaderEnd: string := "\r\n\r\n"

  /** True when `pat` occurs in `s` starting at index `i`. */
  predicate OccursAt(s: string, pat: string, i: nat) {
    i + |pat| <= |s| && s[i..i + |pat|] == pat
  }

  /** `s.find(pat, from)`: the first occurrence of `pat` at or after `from`;
      None stands for `npos`. */
  function Find(s: string, pat: string, from: nat): (r: Option<nat>)
    ensures r.Some? ==> from <= r.value && OccursAt(s, pat, r.value)
    ensures r.Some? ==> forall j: nat :: from <= j < r.value ==> !OccursAt(s, pat, j)
    ensures r.None? ==> forall j: nat :: from <= j ==> !OccursAt(s, pat, j)
    decreases |s| - from
  {
    if from + |pat| > |s| then None
    else if s[from..from + |pat|] == pat then Some(from)
    else Find(s, pat, from + 1)
  }

  /** `i` is where the first occurrence of `pat` at or after `from` starts. */
  predicate FirstOccurrence(s: string, pat: string, from: nat, i: nat) {
    from <= i && OccursAt(s, pat, i) && forall j: nat :: from <= j < i ==> !OccursAt(s, pat, j)
  }

  /** Find is determined by where the occurrences are. */
  lemma FindIs(s: string, pat: string, from: nat, i: nat)
    requires FirstOccurrence(s, pat, from, i)
    ensures Find(s, pat, from) == Some(i)
  {
  }

  /** An occurrence found in `a` is still the first one once `b` is appended. */
  lemma FindExtends(a: string, b: string, pat: string, from: nat)
    requires Find(a, pat, from).Some?
    ensures Find(a + b, pat, from) == Find(a, pat, from)
  {
    var p := Find(a, pat, from).value;
    assert (a + b)[p..p + |pat|] == a[p..p + |pat|];
    forall j: nat | from <= j < p
      ensures !OccursAt(a + b, pat, j)
    {
      assert !OccursAt(a, pat, j);
      assert j + |pat| <= |a|;
      assert (a + b)[j..j + |pat|] == a[j..j + |pat|];
    }
    FindIs(a + b, pat, from, p);
  }

  /** Occurrences in `t` are occurrences in `a + t`, shifted by `|a|`. */
  lemma OccursShift(a: string, t: string, pat: string, k: nat)
    ensures OccursAt(a + t, pat, |a| + k) <==> OccursAt(t, pat, k)
  {
    if k + |pat| <= |t| {
      assert (a + t)[|a| + k..|a| + k + |pat|] == t[k..k + |pat|];
    }
  }

  /** A pattern that starts with `c` cannot occur where `s` holds another character. */
  lemma NotOccursAt(s: string, pat: string, i: nat)
    requires |pat| > 0 && i < |s| && s[i] != pat[0]
    ensures !OccursAt(s, pat, i)
  {
    assert i + |pat| <= |s| ==> s[i..i + |pat|][0] == s[i];
  }

  /** Nor where `s` differs from the pattern at any offset. */
  lemma NotOccursAtOffset(s: string, pat: string, i: nat, k: nat)
    requires k < |pat| && i + k < |s| && s[i + k] != pat[k]
    ensures !OccursAt(s, pat, i)
  {
    assert i + |pat| <= |s| ==> s[i..i + |pat|][k] == s[i + k];
  }

  /** Finding a single character. */
  lemma FindChar(s: string, c: char, from: nat, i: nat)
    requires from <= i < |s| && s[i] == c
    requires forall j :: from <= j < i ==> s[j] != c
    ensures Find(s, [c], from) == Some(i)
  {
    forall j: nat | from <= j < i
      ensures !OccursAt(s, [c], j)
    {
      NotOccursAt(s, [c], j);
    }
    assert s[i..i + 1] == [c];
    FindIs(s, [c], from, i);
  }

  /** The first `c` at or after `from` in `a + [c] + b`, when `a` holds no
      `c` from `from` on, is the one between them. */
  lemma FindCharAfter(a: string, c: char, b: string, from: nat)
    requires from <= |a|
    requires forall j :: from <= j < |a| ==> a[j] != c
    ensures Find(a + [c] + b, [c], from) == Some(|a|)
  {
    var s := a + [c] + b;
    assert forall j :: from <= j < |a| ==> s[j] == a[j];
    FindChar(s, c, from, |a|);
  }

  /** A single character is found exactly when the string holds it. */
  lemma FindCharIn(s: string, c: char)
    ensures Find(s, [c], 0).Some? <==> c in s
  {
    if c in s {
      var i :| 0 <= i < |s| && s[i] == c;
      assert s[i..i + 1] == [c];
      assert OccursAt(s, [c], i);
    }
    match Find(s, [c], 0)
    case Some(p) =>
      assert s[p] == s[p..p + 1][0] == c;
    case None =>
  }

  /** `s.find_first_of(chars, from)`: the first index at or after `from`
      holding one of `chars`. */
  function FindFirstOf(s: string, chars: string, from: nat): (r: Option<nat>)
    ensures r.Some? ==> from <= r.value < |s| && s[r.value] in chars
    ensures r.Some? ==> forall j :: from <= j < r.value ==> s[j] !in chars
    ensures r.None? ==> forall j :: from <= j < |s| ==> s[j] !in chars
    decreases |s| - from
  {
    if from >= |s| then None
    else if s[from] in chars then Some(from)
    else FindFirstOf(s, chars, from + 1)
  }

  /** `::tolower` in the "C" locale. */
  function LowerChar(c: char): char {
    if 'A' <= c <= 'Z' then (c as int + 32) as char else c
  }

  /** `std::transform(..., ::tolower)` over a whole string. */
  function ToLower(s: string): string {
    seq(|s|, i requires 0 <= i < |s| => LowerChar(s[i]))
  }

  /** An occurrence of `pat` survives lowering both strings. */
  lemma LowerKeepsOccurrence(s: string, pat: string, i: nat)
    ensures OccursAt(s, pat, i) ==> OccursAt(ToLower(s), ToLower(pat), i)
  {
    if OccursAt(s, pat, i) {
      LowerOccurrence(s, pat, i);
    }
  }

  lemma LowerOccurrence(s: string, pat: string, i: nat)
    requires OccursAt(s, pat, i)
    ensures OccursAt(ToLower(s), ToLower(pat), i)
  {
    assert ToLower(s)[i..i + |pat|] == ToLower(pat) by {
      forall k | 0 <= k < |pat|
        ensures ToLower(s)[i + k] == ToLower(pat)[k]
      {
        assert s[i + k] == s[i..i + |pat|][k];
      }
    }
  }

  /** An occurrence that ends within the first `h` characters is an
      occurrence in the prefix of that length, and the other way round. */
  lemma OccursInPrefix(s: string, h: nat, pat: string, i: nat)
    requires i + |pat| <= h <= |s|
    ensures OccursAt(s, pat, i) <==> OccursAt(s[..h], pat, i)
  {
    assert s[..h][i..i + |pat|] == s[i..i + |pat|];
  }

  predicate IsDigit(c: char) { '0' <= c <= '9' }

  /** `isspace` in the "C" locale: blank, tab, newline, vertical tab, form feed, return. */
  predicate IsSpace(c: char) { c == ' ' || '\t' <= c <= '\r' }

  predicate AllDigits(s: string) {
    forall i :: 0 <= i < |s| ==> IsDigit(s[i])
  }

  function DigitValue(c: char): nat
    requires IsDigit(c)
  {
    (c as int - '0' as int) as nat
  }

  function DigitChar(d: nat): (c: char)
    requires d < 10
    ensures IsDigit(c) && DigitValue(c) == d
  {
    ('0' as int + d) as char
  }

  /** The number a string of decimal digits denotes. */
  function DecimalValue(ds: string): nat
    requires AllDigits(ds)
  {
    if ds == [] then 0 else DecimalValue(ds[..|ds| - 1]) * 10 + DigitValue(ds[|ds| - 1])
  }

  /** Decimal notation of `n`, as `std::to_string` and `operator<<` write it. */
  function DecimalString(n: nat): (r: string)
    ensures |r| > 0 && AllDigits(r)
  {
    if n < 10 then [DigitChar(n)] else DecimalString(n / 10) + [DigitChar(n % 10)]
  }

  /** `std::to_string` of an `int`. */
  function IntToString(i: int): string {
    if i < 0 then "-" + DecimalString(-i) else DecimalString(i)
  }

  /** Reading back a decimal numeral gives the number written. */
  lemma {:induction false} DecimalRoundTrip(n: nat)
    ensures DecimalValue(DecimalString(n)) == n
  {
    if n >= 10 {
      var d := DecimalString(n);
      assert d[..|d| - 1] == DecimalString(n / 10);
      DecimalRoundTrip(n / 10);
    }
  }

  /** `std::to_string` of any `int` reads back as that `int`, whatever
      non-digit follows it. */
  lemma IntToStringRoundTrip(i: int, rest: string)
    requires rest == [] || !IsDigit(rest[0])
    ensures LeadingInteger(IntToString(i) + rest) == Some(i)
  {
    if i >= 0 {
      LeadingIntegerOfNumeral(i, rest);
    } else {
      var d := DecimalString(-i);
      var s := "-" + d + rest;
      assert IntToString(i) + rest == s;
      assert SkipSpaces(s) == s;
      assert s[1..] == d + rest;
      assert (d + rest)[0] == d[0];
      DigitRunOfNumeral(d, rest);
      assert (d + rest)[..|d|] == d;
      DecimalRoundTrip(-i);
    }
  }

  /** Different `int`s are written differently. */
  lemma IntToStringInjective(a: int, b: int)
    ensures IntToString(a) == IntToString(b) <==> a == b
  {
    IntToStringRoundTrip(a, "");
    IntToStringRoundTrip(b, "");
    assert IntToString(a) + "" == IntToString(a);
    assert IntToString(b) + "" == IntToString(b);
  }

  /** Text around a number written by `std::to_string` tells the number,
      when no digit follows it. */
  lemma NumberedIdentifies(prefix: string, a: int, b: int, suffix: string)
    requires suffix == [] || !IsDigit(suffix[0])
    ensures prefix + IntToString(a) + suffix == prefix + IntToString(b) + suffix <==> a == b
  {
    var x, y := IntToString(a) + suffix, IntToString(b) + suffix;
    assert prefix + IntToString(a) + suffix == prefix + x;
    assert prefix + IntToString(b) + suffix == prefix + y;
    if prefix + x == prefix + y {
      assert x == (prefix + x)[|prefix|..];
      assert y == (prefix + y)[|prefix|..];
      IntToStringRoundTrip(a, suffix);
      IntToStringRoundTrip(b, suffix);
    }
  }

  /** Length of the run of digits that starts `s`. */
  function DigitRun(s: string): nat {
    if s == [] || !IsDigit(s[0]) then 0 else 1 + DigitRun(s[1..])
  }

  /** The run is made of digits and stops at a non-digit or the end. */
  lemma {:induction false} DigitRunSpan(s: string)
    ensures var k := DigitRun(s);
            k <= |s| && AllDigits(s[..k]) && (k < |s| ==> !IsDigit(s[k]))
  {
    if s != [] && IsDigit(s[0]) {
      DigitRunSpan(s[1..]);
      var k := DigitRun(s);
      assert s[..k] == [s[0]] + s[1..][..k - 1];
    }
  }

  lemma {:induction false} DigitRunOfNumeral(ds: string, rest: string)
    requires AllDigits(ds)
    requires rest == [] || !IsDigit(rest[0])
    ensures DigitRun(ds + rest) == |ds|
  {
    if ds != [] {
      assert (ds + rest)[1..] == ds[1..] + rest;
      DigitRunOfNumeral(ds[1..], rest);
    }
  }

  function SkipSpaces(s: string): (r: string)
    ensures |r| <= |s|
  {
    if s != [] && IsSpace(s[0]) then SkipSpaces(s[1..]) else s
  }

  /** What `strtol` reads in base 10 from the start of `s`: white space, an
      optional sign, then digits up to the first non-digit. None when no digit
      follows, the case in which `std::stoi` and `std::stoul` throw
      `invalid_argument`. */
  function LeadingInteger(s: string): Option<int> {
    var t := SkipSpaces(s);
    var signed := |t| > 0 && (t[0] == '-' || t[0] == '+');
    var u := if signed then t[1..] else t;
    var k := DigitRun(u);
    if k == 0 then None
    else
      DigitRunSpan(u);
      var v: int := DecimalValue(u[..k]);
      Some(if signed && t[0] == '-' then -v else v)
  }

  /** Digits followed by a non-digit read back as the number they denote. */
  lemma LeadingIntegerOfDigits(ds: string, rest: string)
    requires ds != [] && AllDigits(ds)
    requires rest == [] || !IsDigit(rest[0])
    ensures LeadingInteger(ds + rest) == Some(DecimalValue(ds))
  {
    assert (ds + rest)[0] == ds[0];
    DigitRunOfNumeral(ds, rest);
    assert (ds + rest)[..|ds|] == ds;
  }

  /** A numeral followed by a non-digit reads back as its number. */
  lemma LeadingIntegerOfNumeral(n: nat, rest: string)
    requires rest == [] || !IsDigit(rest[0])
    ensures LeadingInteger(DecimalString(n) + rest) == Some(n)
  {
    LeadingIntegerOfDigits(DecimalString(n), rest);
    DecimalRoundTrip(n);
  }

  const IntMin: int := -0x8000_0000
  const IntMax: int := 0x7FFF_FFFF
  const ULongMax: int := 0xFFFF_FFFF_FFFF_FFFF

  /** `std::stoi`: None when it throws (no digits, or outside a 32-bit `int`). */
  function Stoi(s: string): (r: Option<int>)
    ensures r.Some? <==> LeadingInteger(s).Some? && IntMin <= LeadingInteger(s).value <= IntMax
    ensures r.Some? ==> r == LeadingInteger(s)
  {
    match LeadingInteger(s)
    case Some(v) => if IntMin <= v <= IntMax then Some(v) else None
    case None => None
  }

  /** `std::stoul` on a 64-bit `unsigned long`: a leading minus negates modulo
      2^64; None when it throws. */
  function Stoul(s: string): (r: Option<nat>)
    ensures r.Some? <==> LeadingInteger(s).Some? && -ULongMax <= LeadingInteger(s).value <= ULongMax
    ensures r.Some? ==> r.value <= ULongMax && r.value % (ULongMax + 1) == LeadingInteger(s).value % (ULongMax + 1)
  {
    match LeadingInteger(s)
    case Some(v) =>
      if -ULongMax <= v <= ULongMax then Some(if v < 0 then v + ULongMax + 1 else v) else None
    case None => None
  }

  /** `std::stoi` reads back what `std::to_string` wrote, for every `int` that is not negative. */
  lemma StoiOfNumeral(n: nat, rest: string)
    requires n <= IntMax
    requires rest == [] || !IsDigit(rest[0])
    ensures Stoi(DecimalString(n) + rest) == Some(n)
  {
    LeadingIntegerOfNumeral(n, rest);
  }

  /** `std::stoi` reads a run of digits as the number it denotes, when that fits an `int`. */
  lemma StoiOfDigits(ds: string)
    requires ds != [] && AllDigits(ds) && DecimalValue(ds) <= IntMax
    ensures Stoi(ds) == Some(DecimalValue(ds))
  {
    LeadingIntegerOfDigits(ds, "");
    assert ds + "" == ds;
  }

  /** `std::stoul` reads back a length written in decimal. */
  lemma StoulOfNumeral(n: nat, rest: string)
    requires n <= ULongMax
    requires rest == [] || !IsDigit(rest[0])
    ensures Stoul(DecimalString(n) + rest) == Some(n)
  {
    LeadingIntegerOfNumeral(n, rest);
  }

  /** `std::stoul` reads back a length written in decimal with nothing after it. */
  lemma StoulOfDecimal(n: nat)
    requires n <= ULongMax
    ensures Stoul(DecimalString(n)) == Some(n)
  {
    StoulOfNumeral(n, "");
    assert DecimalString(n) + "" == DecimalString(n);
  }
}
