/**
 * The Python `str` operations the space-group resolver relies on, restricted
 * to ASCII: whitespace is Python's ASCII whitespace, only the letters A-Z and
 * a-z change case, and every other character is left as it is.
 */
module PyStr {
  import opened Wrappers

  // ---------------------------------------------------------------- characters

  /** `c.isspace()` on ASCII: tab, line feed, vertical tab, form feed, carriage
      return, the separators 0x1C-0x1F, and space. */
  predicate IsSpace(c: char) {
    (9 <= c as int <= 13) || (28 <= c as int <= 32)
  }

  predicate IsAsciiUpper(c: char) { 'A' <= c <= 'Z' }

  predicate IsAsciiLower(c: char) { 'a' <= c <= 'z' }

  /** `c.upper()` on one character. */
  function UpperChar(c: char): (u: char)
    ensures !IsAsciiLower(u)
    ensures IsSpace(u) <==> IsSpace(c)
  {
    if IsAsciiLower(c) then (c as int - 32) as char else c
  }

  /** `c.lower()` on one character. */
  function LowerChar(c: char): (l: char)
    ensures !IsAsciiUpper(l)
    ensures IsSpace(l) <==> IsSpace(c)
  {
    if IsAsciiUpper(c) then (c as int + 32) as char else c
  }

  /** Upper-casing a character does not depend on its case. */
  lemma UpperOfLowerChar(c: char)
    ensures UpperChar(LowerChar(c)) == UpperChar(c)
  {
  }

  // ------------------------------------------------------------------- casing

  /** `s.upper()`. */
  function Upper(s: string): (r: string)
    ensures |r| == |s|
    ensures forall i :: 0 <= i < |s| ==> r[i] == UpperChar(s[i])
  {
    seq(|s|, i requires 0 <= i < |s| => UpperChar(s[i]))
  }

  /** `s.lower()`. */
  function Lower(s: string): (r: string)
    ensures |r| == |s|
    ensures forall i :: 0 <= i < |s| ==> r[i] == LowerChar(s[i])
  {
    seq(|s|, i requires 0 <= i < |s| => LowerChar(s[i]))
  }

  /** Python's slice `s[:n]`, which is defined for every `n`. */
  function Prefix(s: string, n: nat): (r: string)
    ensures |r| == if n <= |s| then n else |s|
    ensures r <= s
  {
    if n <= |s| then s[..n] else s
  }

  /** Python's slice `s[n:]`, which is defined for every `n`. */
  function Suffix(s: string, n: nat): (r: string)
    ensures Prefix(s, n) + r == s
  {
    if n <= |s| then s[n..] else []
  }

  /** `s[:1].upper() + s[1:].lower()`: the first character upper-cased and the
      rest lower-cased; the empty string stays empty. */
  function TitleCase(s: string): (r: string)
    ensures |r| == |s|
    ensures s != [] ==> r[0] == UpperChar(s[0])
    ensures forall i :: 1 <= i < |s| ==> r[i] == LowerChar(s[i])
  {
    Upper(Prefix(s, 1)) + Lower(Suffix(s, 1))
  }

  /** Both case normalisations see only the lower-cased text: two strings
      that differ only in the case of ASCII letters normalise alike. */
  lemma CaseNormalisationsIgnoreCase(s: string, t: string)
    requires Lower(s) == Lower(t)
    ensures TitleCase(s) == TitleCase(t)
    ensures Upper(s) == Upper(t)
  {
    assert |s| == |Lower(s)| == |t|;
    forall i | 0 <= i < |s|
      ensures LowerChar(s[i]) == LowerChar(t[i])
      ensures UpperChar(s[i]) == UpperChar(t[i])
    {
      assert LowerChar(s[i]) == Lower(s)[i] == LowerChar(t[i]);
      UpperOfLowerChar(s[i]);
      UpperOfLowerChar(t[i]);
    }
    assert Upper(Prefix(s, 1)) == Upper(Prefix(t, 1));
    assert Lower(Suffix(s, 1)) == Lower(Suffix(t, 1));
  }

  // --------------------------------------------------------------- stripping

  /** `s.lstrip()`. */
  function StripLeft(s: string): (r: string)
    ensures |r| <= |s| && r == s[|s| - |r|..]
    ensures forall i :: 0 <= i < |s| - |r| ==> IsSpace(s[i])
    ensures r != [] ==> !IsSpace(r[0])
  {
    if s != [] && IsSpace(s[0]) then StripLeft(s[1..]) else s
  }

  /** `s.rstrip()`. */
  function StripRight(s: string): (r: string)
    ensures |r| <= |s| && r == s[..|r|]
    ensures forall i :: |r| <= i < |s| ==> IsSpace(s[i])
    ensures r != [] ==> !IsSpace(r[|r| - 1])
  {
    if s != [] && IsSpace(s[|s| - 1]) then StripRight(s[..|s| - 1]) else s
  }

  /** `r` is the piece of `s` starting at `i`, and everything of `s` before and
      after that piece is whitespace. */
  ghost predicate PieceBetweenSpaces(s: string, r: string, i: int) {
    && 0 <= i && i + |r| <= |s|
    && r == s[i..i + |r|]
    && (forall k :: 0 <= k < i ==> IsSpace(s[k]))
    && (forall k :: i + |r| <= k < |s| ==> IsSpace(s[k]))
  }

  /** `s.strip()`: the part of `s` between its leading and its trailing
      whitespace, which neither starts nor ends with whitespace. */
  function Strip(s: string): (r: string)
    ensures PieceBetweenSpaces(s, r, |s| - |StripLeft(s)|)
    ensures r != [] ==> !IsSpace(r[0]) && !IsSpace(r[|r| - 1])
  {
    StripsArePiece(s);
    StripRight(StripLeft(s))
  }

  /** `rstrip` after `lstrip` leaves the piece between the spaces. */
  lemma StripsArePiece(s: string)
    ensures PieceBetweenSpaces(s, StripRight(StripLeft(s)), |s| - |StripLeft(s)|)
    ensures StripRight(StripLeft(s)) != [] ==> StripRight(StripLeft(s))[0] == StripLeft(s)[0]
  {
    StripsSlice(s);
    StripsTrailing(s);
  }

  /** The result of `rstrip` after `lstrip` is a slice of the input. */
  lemma StripsSlice(s: string)
    ensures var l := StripLeft(s); var r := StripRight(l);
      r == s[|s| - |l|..|s| - |l| + |r|]
  {
    var l := StripLeft(s);
    var r := StripRight(l);
    assert l == s[|s| - |l|..];
    assert r == l[..|r|];
    SliceOfSuffix(s, l, r);
  }

  /** A prefix of a suffix is a slice. */
  lemma SliceOfSuffix(s: string, l: string, r: string)
    requires |l| <= |s| && l == s[|s| - |l|..]
    requires |r| <= |l| && r == l[..|r|]
    ensures r == s[|s| - |l|..|s| - |l| + |r|]
  {
  }

  /** Everything after the stripped piece is whitespace. */
  lemma StripsTrailing(s: string)
    ensures var l := StripLeft(s); var r := StripRight(l);
      forall k :: |s| - |l| + |r| <= k < |s| ==> IsSpace(s[k])
  {
    var l := StripLeft(s);
    var r := StripRight(l);
    var i := |s| - |l|;
    assert l == s[i..];
    forall k | i + |r| <= k < |s| ensures IsSpace(s[k]) {
      assert s[k] == l[k - i];
    }
  }

  /** Lower-casing commutes with `lstrip`, since it never turns whitespace
      into non-whitespace or back. */
  lemma {:induction false} StripLeftLower(s: string)
    ensures StripLeft(Lower(s)) == Lower(StripLeft(s))
  {
    if s != [] {
      assert Lower(s)[0] == LowerChar(s[0]);
      if IsSpace(s[0]) {
        assert Lower(s)[1..] == Lower(s[1..]);
        StripLeftLower(s[1..]);
      }
    }
  }

  /** Lower-casing commutes with `rstrip`. */
  lemma {:induction false} StripRightLower(s: string)
    ensures StripRight(Lower(s)) == Lower(StripRight(s))
  {
    if s != [] {
      assert Lower(s)[|s| - 1] == LowerChar(s[|s| - 1]);
      if IsSpace(s[|s| - 1]) {
        assert Lower(s)[..|s| - 1] == Lower(s[..|s| - 1]);
        StripRightLower(s[..|s| - 1]);
      }
    }
  }

  /** Lower-casing commutes with `strip`. */
  lemma StripLower(s: string)
    ensures Strip(Lower(s)) == Lower(Strip(s))
  {
    StripLeftLower(s);
    StripRightLower(StripLeft(s));
  }

  /** Upper-casing commutes with `lstrip`. */
  lemma {:induction false} StripLeftUpper(s: string)
    ensures StripLeft(Upper(s)) == Upper(StripLeft(s))
  {
    if s != [] {
      assert Upper(s)[0] == UpperChar(s[0]);
      if IsSpace(s[0]) {
        assert Upper(s)[1..] == Upper(s[1..]);
        StripLeftUpper(s[1..]);
      }
    }
  }

  /** Upper-casing commutes with `rstrip`. */
  lemma {:induction false} StripRightUpper(s: string)
    ensures StripRight(Upper(s)) == Upper(StripRight(s))
  {
    if s != [] {
      assert Upper(s)[|s| - 1] == UpperChar(s[|s| - 1]);
      if IsSpace(s[|s| - 1]) {
        assert Upper(s)[..|s| - 1] == Upper(s[..|s| - 1]);
        StripRightUpper(s[..|s| - 1]);
      }
    }
  }

  /** Upper-casing commutes with `strip`: the upper-cased spelling does not
      depend on whether the case changes before or after the strip. */
  lemma StripUpper(s: string)
    ensures Strip(Upper(s)) == Upper(Strip(s))
  {
    StripLeftUpper(s);
    StripRightUpper(StripLeft(s));
  }

  /** `" pnma".strip()` is "pnma". */
  lemma StrippedPnma()
    ensures Strip(" pnma") == "pnma"
  {
    assert IsSpace(' ') && !IsSpace('p') && !IsSpace('a');
    assert " pnma"[1..] == "pnma";
    assert StripLeft("pnma") == "pnma";
    assert StripLeft(" pnma") == "pnma";
    assert StripRight("pnma") == "pnma";
  }

  /** Title-casing "pnma" and " pnma". */
  lemma TitleCasedPnma()
    ensures TitleCase("pnma") == "Pnma"
    ensures TitleCase(" pnma") == " pnma"
  {
    assert UpperChar('p') == 'P' && UpperChar(' ') == ' ';
    assert LowerChar('p') == 'p' && LowerChar('n') == 'n';
    assert LowerChar('m') == 'm' && LowerChar('a') == 'a';
    assert Upper("p") == "P" && Upper(" ") == " ";
    assert Lower("nma") == "nma" && Lower("pnma") == "pnma";
  }

  /** Title-casing does not commute with `strip`: it must come after it, or a
      leading blank takes the upper-cased first place. */
  lemma TitleCaseAfterStrip()
    ensures TitleCase(Strip(" pnma")) == "Pnma"
    ensures Strip(TitleCase(" pnma")) == "pnma"
  {
    StrippedPnma();
    TitleCasedPnma();
  }

  /** Stripping twice is stripping once. */
  lemma StripIdempotent(s: string)
    ensures Strip(Strip(s)) == Strip(s)
  {
    var r := Strip(s);
    if r != [] {
      assert StripLeft(r) == r;
      assert StripRight(r) == r;
    }
  }

  // ---------------------------------------------------------- removing blanks

  /** `s.replace(' ', '')`: every U+0020 space is dropped; tabs and the other
      whitespace characters stay. */
  function RemoveSpaces(s: string): (r: string)
    ensures ' ' !in r
    ensures ' ' !in s ==> r == s
  {
    if s == [] then []
    else
      assert s == [s[0]] + s[1..];
      (if s[0] == ' ' then [] else [s[0]]) + RemoveSpaces(s[1..])
  }

  /** Removing spaces keeps every other character as often as it occurs. */
  lemma {:induction false} RemoveSpacesKeepsOthers(s: string, c: char)
    requires c != ' '
    ensures multiset(RemoveSpaces(s))[c] == multiset(s)[c]
  {
    if s != [] {
      assert s == [s[0]] + s[1..];
      RemoveSpacesKeepsOthers(s[1..], c);
    }
  }

  /** Removing spaces keeps the order of what remains: it works piece by piece. */
  lemma {:induction false} RemoveSpacesConcat(a: string, b: string)
    ensures RemoveSpaces(a + b) == RemoveSpaces(a) + RemoveSpaces(b)
  {
    if a != [] {
      var x: string := if a[0] == ' ' then [] else [a[0]];
      assert (a + b)[0] == a[0];
      assert (a + b)[1..] == a[1..] + b;
      assert RemoveSpaces(a + b) == x + RemoveSpaces(a[1..] + b);
      assert RemoveSpaces(a) == x + RemoveSpaces(a[1..]);
      RemoveSpacesConcat(a[1..], b);
      assert x + (RemoveSpaces(a[1..]) + RemoveSpaces(b)) == x + RemoveSpaces(a[1..]) + RemoveSpaces(b);
    } else {
      assert a + b == b;
    }
  }

  /** A single space between two space-free pieces is dropped. */
  lemma RemoveSpaceBetween(a: string, b: string)
    requires ' ' !in a && ' ' !in b
    ensures RemoveSpaces(a + " " + b) == a + b
  {
    var blank: string := " ";
    assert blank[1..] == [];
    assert RemoveSpaces(blank) == [];
    RemoveSpacesConcat(a, blank);
    RemoveSpacesConcat(a + blank, b);
    assert RemoveSpaces(a + blank) == a;
  }

  // ------------------------------------------------- text that normalises alike

  /** Text without whitespace and without ASCII letters, which no normalisation
      of the resolver changes. */
  predicate Inert(s: string) {
    forall i :: 0 <= i < |s| ==> !IsSpace(s[i]) && !IsAsciiUpper(s[i]) && !IsAsciiLower(s[i])
  }

  /** Every normalisation the resolver tries leaves text without letters and
      whitespace as it is. */
  lemma InertIsNormal(s: string)
    requires Inert(s)
    ensures Strip(s) == s
    ensures TitleCase(Strip(s)) == s
    ensures Upper(Strip(s)) == s
    ensures RemoveSpaces(s) == s
  {
    assert s != [] ==> !IsSpace(s[0]);
    assert StripLeft(s) == s;
    assert s != [] ==> !IsSpace(s[|s| - 1]);
    assert StripRight(s) == s;
    assert ' ' !in s by {
      forall i | 0 <= i < |s| ensures s[i] != ' ' {
        assert !IsSpace(s[i]);
      }
    }
  }

  // ---------------------------------------------------------- decimal numbers

  predicate IsDigit(c: char) { '0' <= c <= '9' }

  predicate IsDigits(s: string) {
    s != [] && forall i :: 0 <= i < |s| ==> IsDigit(s[i])
  }

  function DigitValue(c: char): (d: nat)
    requires IsDigit(c)
    ensures d < 10
  {
    c as int - '0' as int
  }

  function DigitChar(d: nat): (c: char)
    requires d < 10
    ensures IsDigit(c) && DigitValue(c) == d
  {
    ('0' as int + d) as char
  }

  /** The decimal digits of `n`, without leading zeros. */
  function NatToDecimal(n: nat): (r: string)
    ensures IsDigits(r)
    ensures r[0] == '0' ==> n == 0
    decreases n
  {
    if n < 10 then [DigitChar(n)] else NatToDecimal(n / 10) + [DigitChar(n % 10)]
  }

  /** The text `str` writes for an integer: an optional minus sign, then one
      or more digits with no leading zero, and no minus sign before zero. */
  predicate IsCanonicalDecimal(s: string) {
    if s != [] && s[0] == '-' then IsDigits(s[1..]) && s[1] != '0'
    else IsDigits(s) && (s[0] == '0' ==> |s| == 1)
  }

  /** `str(n)` for a Python `int`: a minus sign for negative numbers, then the
      digits of the magnitude. */
  function IntToDecimal(n: int): (r: string)
    ensures r != [] && (r[0] == '-' <==> n < 0)
    ensures IsCanonicalDecimal(r)
    ensures forall i :: 0 <= i < |r| ==> IsDigit(r[i]) || r[i] == '-'
    ensures Inert(r)
  {
    if n < 0 then "-" + NatToDecimal(-n)
    else if n == 0 then "0"
    else NatToDecimal(n)
  }

  /** The value of a string of decimal digits. */
  function DigitsValue(s: string): nat
    requires forall i :: 0 <= i < |s| ==> IsDigit(s[i])
  {
    if s == [] then 0 else 10 * DigitsValue(s[..|s| - 1]) + DigitValue(s[|s| - 1])
  }

  /** Reads back the text `IntToDecimal` writes: an optional minus sign and
      one or more digits. */
  function ParseDecimal(s: string): Option<int> {
    if s != [] && s[0] == '-' then
      if IsDigits(s[1..]) then Some(-(DigitsValue(s[1..]) as int)) else None
    else if IsDigits(s) then Some(DigitsValue(s))
    else None
  }

  lemma {:induction false} NatToDecimalRoundTrip(n: nat)
    ensures DigitsValue(NatToDecimal(n)) == n
    decreases n
  {
    if n >= 10 {
      var r := NatToDecimal(n);
      assert r[..|r| - 1] == NatToDecimal(n / 10);
      NatToDecimalRoundTrip(n / 10);
    }
  }

  /** Parsing the decimal text of any integer gives that integer back. */
  lemma DecimalRoundTrip(n: int)
    ensures ParseDecimal(IntToDecimal(n)) == Some(n)
  {
    if n < 0 {
      assert IntToDecimal(n)[1..] == NatToDecimal(-n);
      NatToDecimalRoundTrip(-n);
    } else {
      NatToDecimalRoundTrip(n);
    }
  }

  /** Digits without a leading zero stand for a positive number. */
  lemma {:induction false} LeadingDigitPositive(s: string)
    requires IsDigits(s) && s[0] != '0'
    ensures DigitsValue(s) >= 1
  {
    if |s| > 1 {
      var p := s[..|s| - 1];
      assert p[0] == s[0];
      LeadingDigitPositive(p);
    }
  }

  /** Digits without a leading zero are the decimal text of their value. */
  lemma {:induction false} NatToDecimalOfDigits(s: string)
    requires IsDigits(s) && (s[0] == '0' ==> |s| == 1)
    ensures NatToDecimal(DigitsValue(s)) == s
  {
    var n := DigitsValue(s);
    var d := DigitValue(s[|s| - 1]);
    if |s| == 1 {
      assert s[..|s| - 1] == [];
      assert DigitsValue(s[..|s| - 1]) == 0;
      assert n == d;
      assert s == [DigitChar(d)];
    } else {
      var p := s[..|s| - 1];
      assert p[0] == s[0];
      LeadingDigitPositive(p);
      NatToDecimalOfDigits(p);
      assert n == 10 * DigitsValue(p) + d;
      assert n / 10 == DigitsValue(p) && n % 10 == d;
      assert s == p + [s[|s| - 1]];
    }
  }

  /** `str(n)` is the only canonical decimal text for `n`: any canonical text
      that parses to `n` is `str(n)`. */
  lemma CanonicalDecimalUnique(s: string, n: int)
    requires IsCanonicalDecimal(s) && ParseDecimal(s) == Some(n)
    ensures s == IntToDecimal(n)
  {
    if s[0] == '-' {
      var m := s[1..];
      NatToDecimalOfDigits(m);
      LeadingDigitPositive(m);
      assert s == "-" + m;
    } else {
      NatToDecimalOfDigits(s);
    }
  }

  /** Distinct integers have distinct decimal texts. */
  lemma DecimalInjective(m: int, n: int)
    requires IntToDecimal(m) == IntToDecimal(n)
    ensures m == n
  {
    DecimalRoundTrip(m);
    DecimalRoundTrip(n);
  }

  // ------------------------------------------------------------------- repr

  predicate IsHexDigit(c: char) { '0' <= c <= '9' || 'a' <= c <= 'f' }

  function HexValue(c: char): (d: nat)
    requires IsHexDigit(c)
    ensures d < 16
  {
    if c <= '9' then c as int - '0' as int else c as int - 'a' as int + 10
  }

  function HexDigit(d: nat): (c: char)
    requires d < 16
    ensures IsHexDigit(c) && HexValue(c) == d
  {
    if d < 10 then ('0' as int + d) as char else ('a' as int + d - 10) as char
  }

  /** How `repr` writes one character between the quotes `q`: the quote and
      the backslash get a backslash, tab, line feed and carriage return their
      letter escapes, other control characters `\xNN`. */
  function EscapeChar(c: char, q: char): (e: string)
    ensures e != [] && (e[0] == '\\' || e == [c])
  {
    if c == q || c == '\\' then ['\\', c]
    else if c == '\t' then ['\\', 't']
    else if c == '\n' then ['\\', 'n']
    else if c == '\r' then ['\\', 'r']
    else if c as int < 32 || c as int == 127 then ['\\', 'x', HexDigit(c as int / 16), HexDigit(c as int % 16)]
    else [c]
  }

  /** Every character of `s` written as `repr` writes it between quotes `q`. */
  function Escape(s: string, q: char): string {
    if s == [] then [] else EscapeChar(s[0], q) + Escape(s[1..], q)
  }

  /** `repr(s)`: single quotes, unless `s` holds a single quote and no double
      quote, in which case double quotes. */
  function StrRepr(s: string): (r: string)
    ensures |r| >= 2 && r[0] == r[|r| - 1] && (r[0] == '\'' || r[0] == '"')
  {
    var q := if '\'' in s && '"' !in s then '"' else '\'';
    [q] + Escape(s, q) + [q]
  }

  function Prepend(c: char, rest: Option<string>): Option<string> {
    match rest
    case Some(t) => Some([c] + t)
    case None => None
  }

  /** Reads back what `Escape` writes, undoing each escape sequence. */
  function Unescape(e: string): Option<string>
    decreases |e|
  {
    if e == [] then Some([])
    else if e[0] != '\\' then Prepend(e[0], Unescape(e[1..]))
    else if |e| < 2 then None
    else if e[1] == 't' then Prepend('\t', Unescape(e[2..]))
    else if e[1] == 'n' then Prepend('\n', Unescape(e[2..]))
    else if e[1] == 'r' then Prepend('\r', Unescape(e[2..]))
    else if e[1] == 'x' then
      if |e| >= 4 && IsHexDigit(e[2]) && IsHexDigit(e[3])
      then Prepend((16 * HexValue(e[2]) + HexValue(e[3])) as char, Unescape(e[4..]))
      else None
    else Prepend(e[1], Unescape(e[2..]))
  }

  lemma UnescapeEscapeChar(c: char, q: char, rest: string)
    requires q == '\'' || q == '"'
    ensures Unescape(EscapeChar(c, q) + rest) == Prepend(c, Unescape(rest))
  {
    var e := EscapeChar(c, q) + rest;
    var k := |EscapeChar(c, q)|;
    assert e[k..] == rest;
    if c as int < 32 || c as int == 127 {
      var v := c as int;
      assert 16 * (v / 16) + v % 16 == v;
    }
  }

  /** Unescaping undoes escaping, whichever quote was chosen. */
  lemma {:induction false} EscapeRoundTrip(s: string, q: char)
    requires q == '\'' || q == '"'
    ensures Unescape(Escape(s, q)) == Some(s)
  {
    if s != [] {
      UnescapeEscapeChar(s[0], q, Escape(s[1..], q));
      EscapeRoundTrip(s[1..], q);
      assert [s[0]] + s[1..] == s;
    }
  }

  /** Distinct strings have distinct reprs. */
  lemma StrReprInjective(s: string, t: string)
    requires StrRepr(s) == StrRepr(t)
    ensures s == t
  {
    var r := StrRepr(s);
    var q := r[0];
    assert Escape(s, q) == r[1..|r| - 1] == Escape(t, q);
    EscapeRoundTrip(s, q);
    EscapeRoundTrip(t, q);
  }
}
