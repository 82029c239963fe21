/** String helpers of the menu page: `trim`, `toUpperCase` (ASCII letters
    only), the `\d` class, decimal numerals and `Array.prototype.join`. */
module Text {
  import opened Seqs

  /** The characters JavaScript's `trim` removes: white space (tab, vertical
      tab, form feed, space, no-break space, byte order mark and the other
      space separators of Unicode 15) and line terminators. */
  const SpaceChars: set<char> := {
    '\t', '\U{B}', '\U{C}', ' ', '\U{A0}', '\U{FEFF}', '\U{1680}',
    '\U{2000}', '\U{2001}', '\U{2002}', '\U{2003}', '\U{2004}', '\U{2005}',
    '\U{2006}', '\U{2007}', '\U{2008}', '\U{2009}', '\U{200A}',
    '\U{202F}', '\U{205F}', '\U{3000}',
    '\n', '\r', '\U{2028}', '\U{2029}'
  }

  predicate IsSpace(c: char) {
    c in SpaceChars
  }

  predicate AllSpace(s: string) {
    forall i :: 0 <= i < |s| ==> IsSpace(s[i])
  }

  /** Neither end of `s` is white space. */
  predicate IsTrimmed(s: string) {
    |s| == 0 || (!IsSpace(s[0]) && !IsSpace(s[|s| - 1]))
  }

  /** `s` without its leading white space. */
  function TrimStart(s: string): string {
    if |s| > 0 && IsSpace(s[0]) then TrimStart(s[1..]) else s
  }

  /** `s` without its trailing white space. */
  function TrimEnd(s: string): string {
    if |s| > 0 && IsSpace(s[|s| - 1]) then TrimEnd(s[..|s| - 1]) else s
  }

  /** `norm` of app.js (`String(s).trim()`): both ends stripped of white space. */
  function Trim(s: string): string {
    TrimEnd(TrimStart(s))
  }

  /** TrimStart keeps a suffix whose dropped prefix is all space and which
      does not itself start with space. */
  lemma {:induction false} TrimStartSpec(s: string)
    ensures |TrimStart(s)| <= |s| && TrimStart(s) == s[|s| - |TrimStart(s)|..]
    ensures AllSpace(s[..|s| - |TrimStart(s)|])
    ensures |TrimStart(s)| == 0 || !IsSpace(TrimStart(s)[0])
  {
    if |s| > 0 && IsSpace(s[0]) {
      TrimStartSpec(s[1..]);
      var r := TrimStart(s);
      assert s[..|s| - |r|] == [s[0]] + s[1..][..|s| - 1 - |r|];
    }
  }

  /** TrimEnd keeps a prefix whose dropped suffix is all space and which does
      not itself end with space. */
  lemma {:induction false} TrimEndSpec(s: string)
    ensures |TrimEnd(s)| <= |s| && TrimEnd(s) == s[..|TrimEnd(s)|]
    ensures AllSpace(s[|TrimEnd(s)|..])
    ensures |TrimEnd(s)| == 0 || !IsSpace(TrimEnd(s)[|TrimEnd(s)| - 1])
  {
    if |s| > 0 && IsSpace(s[|s| - 1]) {
      var init := s[..|s| - 1];
      TrimEndSpec(init);
      var r := TrimEnd(s);
      assert s[|r|..] == init[|r|..] + [s[|s| - 1]];
      assert init[..|r|] == s[..|r|];
    }
  }

  /** Trimming leaves no white space at either end, gives "" exactly for
      all-space input, and keeps an already trimmed string unchanged. */
  lemma TrimSpec(s: string)
    ensures IsTrimmed(Trim(s))
    ensures Trim(s) == "" <==> AllSpace(s)
    ensures IsTrimmed(s) ==> Trim(s) == s
  {
    var a := TrimStart(s);
    var r := TrimEnd(a);
    TrimStartSpec(s);
    TrimEndSpec(a);
    if |r| > 0 {
      assert r[0] == a[0];
    }
    if r == "" {
      assert a == "" by {
        assert a[|r|..] == a;
      }
      assert s[..|s|] == s;
    }
    if IsTrimmed(s) && |s| > 0 {
      assert TrimStart(s) == s;
    }
  }

  /** Trimming only removes white space: `s` is some leading white space,
      the result, and some trailing white space. */
  lemma TrimCuts(s: string)
    ensures exists p, q :: AllSpace(p) && AllSpace(q) && s == p + Trim(s) + q
  {
    var a := TrimStart(s);
    var r := TrimEnd(a);
    TrimStartSpec(s);
    TrimEndSpec(a);
    var lead := |s| - |a|;
    assert a == s[lead..];
    assert r == s[lead..lead + |r|];
    assert s[lead + |r|..] == a[|r|..];
    assert s == s[..lead] + r + s[lead + |r|..];
  }

  lemma TrimIdempotent(s: string)
    ensures Trim(Trim(s)) == Trim(s)
  {
    TrimSpec(s);
    TrimSpec(Trim(s));
  }

  function UpperChar(c: char): char {
    if 'a' <= c <= 'z' then (c as int - 32) as char else c
  }

  /** `toUpperCase` restricted to the ASCII case mapping. */
  function ToUpper(s: string): (r: string)
    ensures |r| == |s|
    ensures forall i :: 0 <= i < |s| ==> r[i] == UpperChar(s[i])
  {
    if |s| == 0 then "" else [UpperChar(s[0])] + ToUpper(s[1..])
  }

  /** Upper-casing gives "NO" for exactly the four spellings of "no". */
  lemma UpperIsNoIff(s: string)
    ensures ToUpper(s) == "NO" <==> s in {"NO", "No", "nO", "no"}
  {
    if ToUpper(s) == "NO" {
      assert UpperChar(s[0]) == 'N' && UpperChar(s[1]) == 'O';
      assert s == [s[0], s[1]];
    }
  }

  /** Membership in the regular-expression class `\d`. */
  predicate IsDigit(c: char) {
    '0' <= c <= '9'
  }

  lemma DigitNotSpace(c: char)
    requires IsDigit(c)
    ensures !IsSpace(c)
  {
  }

  predicate AllDigits(s: string) {
    forall i :: 0 <= i < |s| ==> IsDigit(s[i])
  }

  /** The value of a string of decimal digits, most significant first, as
      `Number` reads it; leading zeros add nothing. */
  function DecimalValue(s: string): nat
    requires AllDigits(s)
    decreases |s|
  {
    if |s| == 0 then 0
    else DecimalValue(s[..|s| - 1]) * 10 + (s[|s| - 1] as int - '0' as int)
  }

  function DigitChar(d: nat): (c: char)
    requires d < 10
    ensures IsDigit(c) && c as int - '0' as int == d
  {
    (d + '0' as int) as char
  }

  /** The decimal numeral of `n`, without leading zeros. */
  function ShowNat(n: nat): (s: string)
    ensures |s| > 0 && AllDigits(s)
    decreases n
  {
    if n < 10 then [DigitChar(n)] else ShowNat(n / 10) + [DigitChar(n % 10)]
  }

  /** Reading back the numeral of `n` gives `n`. */
  lemma {:induction false} DecimalRoundTrip(n: nat)
    ensures DecimalValue(ShowNat(n)) == n
    decreases n
  {
    var s := ShowNat(n);
    if n < 10 {
      assert s[..0] == "";
    } else {
      DecimalRoundTrip(n / 10);
      assert s[..|s| - 1] == ShowNat(n / 10);
    }
  }

  /** A leading zero does not change the value. */
  lemma {:induction false} DecimalLeadingZero(s: string)
    requires AllDigits(s)
    ensures AllDigits("0" + s) && DecimalValue("0" + s) == DecimalValue(s)
    decreases |s|
  {
    var z := "0" + s;
    if |s| == 0 {
      assert z[..0] == "";
    } else {
      var init := s[..|s| - 1];
      DecimalLeadingZero(init);
      assert z[..|z| - 1] == "0" + init;
      assert z[|z| - 1] == s[|s| - 1];
    }
  }

  /** `s.replace(/[^\d]/g, "")`: the digits of `s` in order. */
  function Digits(s: string): (r: string)
    ensures forall c :: c in r <==> c in s && IsDigit(c)
    ensures forall c :: multiset(r)[c] == if IsDigit(c) then multiset(s)[c] else 0
    ensures IsSubseq(r, s)
  {
    FilterIsSubseq(s, IsDigit);
    FilterMultiset(s, IsDigit);
    Filter(s, IsDigit)
  }

  /** Stripping works character by character: a digit stays, anything else
      goes, and the pieces of a concatenation are stripped separately. */
  lemma {:induction false} DigitsConcat(a: string, b: string, c: char)
    ensures Digits(a + b) == Digits(a) + Digits(b)
    ensures Digits([c]) == if IsDigit(c) then [c] else ""
  {
    FilterConcat(a, b, IsDigit);
    assert [c][1..] == "";
  }

  predicate HasDigit(s: string) {
    exists i :: 0 <= i < |s| && IsDigit(s[i])
  }

  lemma DigitsEmptyIff(s: string)
    ensures Digits(s) != "" <==> HasDigit(s)
  {
    if Digits(s) != "" {
      assert Digits(s)[0] in Digits(s);
    }
    if HasDigit(s) {
      var i :| 0 <= i < |s| && IsDigit(s[i]);
      assert s[i] in s;
    }
  }

  /** `parts.join(sep)`. */
  function Join(parts: seq<string>, sep: string): (r: string)
    ensures |parts| == 0 ==> r == ""
    ensures |parts| > 0 ==> |parts[0]| <= |r| && r[..|parts[0]|] == parts[0]
    ensures |sep| > 0 && |parts| > 1 ==> |r| > 0
  {
    if |parts| == 0 then ""
    else if |parts| == 1 then parts[0]
    else parts[0] + sep + Join(parts[1..], sep)
  }

  /** Joining one more part appends the separator and that part. */
  lemma {:induction false} JoinSnoc(parts: seq<string>, p: string, sep: string)
    ensures |parts| == 0 ==> Join(parts + [p], sep) == p
    ensures |parts| > 0 ==> Join(parts + [p], sep) == Join(parts, sep) + sep + p
    decreases |parts|
  {
    if |parts| == 0 {
      assert parts + [p] == [p];
    } else if |parts| == 1 {
      assert (parts + [p])[1..] == [p];
    } else {
      assert (parts + [p])[1..] == parts[1..] + [p];
      JoinSnoc(parts[1..], p, sep);
    }
  }

  predicate NonEmpty(s: string) {
    s != ""
  }
}
