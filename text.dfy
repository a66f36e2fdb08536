/**
 * Character classes and the few string operations the tool relies on:
 * decimal digits, `str.split` on one character, `sep.join`, the decimal
 * rendering of an integer in an f-string, and Python's `int()` on a string.
 * Character classes are the ASCII ones (`\d` is 0-9, `\w` is letters,
 * digits and underscore).
 */
module Text {
  import opened Wrappers

  predicate IsDigit(c: char) { '0' <= c <= '9' }

  predicate IsWordChar(c: char) { 'a' <= c <= 'z' || 'A' <= c <= 'Z' || IsDigit(c) || c == '_' }

  /**
   * The ASCII whitespace `int()` strips around a literal: space, tab, line
   * feed, vertical tab, form feed and carriage return. The separators
   * U+001C to U+001F, which `str.isspace` also accepts, are not stripped.
   */
  predicate IsSpace(c: char) { c == ' ' || '\t' <= c <= '\r' }

  predicate AllDigits(s: string) { forall i :: 0 <= i < |s| ==> IsDigit(s[i]) }

  predicate AllWordChars(s: string) { forall i :: 0 <= i < |s| ==> IsWordChar(s[i]) }

  function Last<T>(s: seq<T>): T
    requires |s| > 0
  {
    s[|s| - 1]
  }

  function DigitValue(c: char): (d: nat)
    requires IsDigit(c)
    ensures d < 10
  {
    c as int - '0' as int
  }

  function DigitChar(d: nat): (c: char)
    requires d < 10
    ensures IsDigit(c) && DigitValue(c) == d
  {
    ('0' as int + d) as char
  }

  /** The value of a string of decimal digits, most significant first. */
  function DigitsValue(s: string): nat
    requires AllDigits(s)
  {
    if s == [] then 0 else 10 * DigitsValue(s[..|s| - 1]) + DigitValue(Last(s))
  }

  /** `str(n)` for a natural number: no sign, no leading zero. */
  function NatToDecimal(n: nat): (s: string)
    ensures |s| > 0 && AllDigits(s)
    ensures s[0] == '0' <==> n == 0
  {
    if n < 10 then [DigitChar(n)] else NatToDecimal(n / 10) + [DigitChar(n % 10)]
  }

  lemma {:induction false} NatToDecimalValue(n: nat)
    ensures DigitsValue(NatToDecimal(n)) == n
  {
    if n >= 10 {
      var s := NatToDecimal(n);
      assert s[..|s| - 1] == NatToDecimal(n / 10);
      NatToDecimalValue(n / 10);
    }
  }

  /** `str(n)` for any integer, as an f-string renders it. */
  function IntToDecimal(n: int): (s: string)
    ensures |s| > 0
    ensures s[0] == '-' <==> n < 0
  {
    if n < 0 then "-" + NatToDecimal(-n) else NatToDecimal(n)
  }

  /** A rendered integer holds digits and at most a minus sign, so no other character. */
  lemma IntToDecimalExcludes(n: int, c: char)
    requires !IsDigit(c) && c != '-'
    ensures c !in IntToDecimal(n)
  {
    var d := NatToDecimal(if n < 0 then -n else n);
    DigitsExclude(d, c);
    assert IntToDecimal(n) == if n < 0 then "-" + d else d;
  }

  /** `sep.join(parts)`. */
  function Join(parts: seq<string>, sep: string): string
  {
    if |parts| == 0 then ""
    else if |parts| == 1 then parts[0]
    else parts[0] + sep + Join(parts[1..], sep)
  }

  /**
   * `s.split(sep)` for a one-character separator: every occurrence of `sep`
   * cuts, so `n` separators give `n + 1` pieces, possibly empty.
   */
  function Split(s: string, sep: char): (parts: seq<string>)
    ensures |parts| > 0
    ensures forall i :: 0 <= i < |parts| ==> sep !in parts[i]
    ensures Join(parts, [sep]) == s
  {
    if s == [] then [""]
    else
      var rest := Split(s[1..], sep);
      if s[0] == sep then
        assert ([""] + rest)[1..] == rest;
        [""] + rest
      else
        var parts := [[s[0]] + rest[0]] + rest[1..];
        assert parts[1..] == rest[1..];
        assert s == [s[0]] + s[1..];
        parts
  }

  /** Every character of a piece comes from the split string. */
  lemma {:induction false} SplitPieceChars(s: string, sep: char, i: nat, k: nat)
    requires i < |Split(s, sep)| && k < |Split(s, sep)[i]|
    ensures Split(s, sep)[i][k] in s
  {
    if s[0] == sep {
      if i > 0 { SplitPieceChars(s[1..], sep, i - 1, k); }
    } else if i > 0 {
      SplitPieceChars(s[1..], sep, i, k);
    } else if k > 0 {
      SplitPieceChars(s[1..], sep, 0, k - 1);
    }
  }

  /** A string of digits holds no other character. */
  lemma DigitsExclude(s: string, c: char)
    requires AllDigits(s) && !IsDigit(c)
    ensures c !in s
  {
  }

  /** A string of word characters holds no other character. */
  lemma WordCharsExclude(s: string, c: char)
    requires AllWordChars(s) && !IsWordChar(c)
    ensures c !in s
  {
  }

  lemma {:induction false} SplitWithout(p: string, sep: char)
    requires sep !in p
    ensures Split(p, sep) == [p]
  {
    if p != [] {
      assert sep !in p[1..];
      SplitWithout(p[1..], sep);
      assert [p[0]] + p[1..] == p;
    }
  }

  lemma {:induction false} SplitAfterPiece(p: string, sep: char, t: string)
    requires sep !in p
    ensures Split(p + [sep] + t, sep) == [p] + Split(t, sep)
  {
    if p == [] {
      assert p + [sep] + t == [sep] + t;
      assert ([sep] + t)[1..] == t;
    } else {
      var s := p + [sep] + t;
      assert s[1..] == p[1..] + [sep] + t;
      assert sep !in p[1..];
      SplitAfterPiece(p[1..], sep, t);
      assert [p[0]] + p[1..] == p;
    }
  }

  /** Splitting undoes joining when no piece holds the separator. */
  lemma {:induction false} SplitJoin(parts: seq<string>, sep: char)
    requires |parts| > 0
    requires forall i :: 0 <= i < |parts| ==> sep !in parts[i]
    ensures Split(Join(parts, [sep]), sep) == parts
  {
    if |parts| == 1 {
      SplitWithout(parts[0], sep);
    } else {
      SplitJoin(parts[1..], sep);
      SplitAfterPiece(parts[0], sep, Join(parts[1..], [sep]));
      assert parts[0] + [sep] + Join(parts[1..], [sep]) == Join(parts, [sep]);
      assert [parts[0]] + parts[1..] == parts;
    }
  }

  /** `str.lstrip()` restricted to the characters of IsSpace. */
  function TrimStart(s: string): string
  {
    if s != [] && IsSpace(s[0]) then TrimStart(s[1..]) else s
  }

  /** `str.rstrip()` restricted to the characters of IsSpace. */
  function TrimEnd(s: string): string
  {
    if s != [] && IsSpace(Last(s)) then TrimEnd(s[..|s| - 1]) else s
  }

  /** Decimal digits in which single underscores may separate digit groups. */
  predicate IsDigitGroups(b: string)
  {
    |b| > 0 && IsDigit(b[0]) && IsDigit(Last(b)) &&
    (forall i :: 0 <= i < |b| ==> IsDigit(b[i]) || b[i] == '_') &&
    (forall i :: 0 <= i < |b| - 1 ==> !(b[i] == '_' && b[i + 1] == '_'))
  }

  function DropUnderscores(b: string): string
  {
    if b == [] then []
    else (if b[0] == '_' then [] else [b[0]]) + DropUnderscores(b[1..])
  }

  /** Digits and underscores lose their underscores and leave only digits. */
  lemma {:induction false} DropUnderscoresDigits(b: string)
    requires forall i :: 0 <= i < |b| ==> IsDigit(b[i]) || b[i] == '_'
    ensures AllDigits(DropUnderscores(b))
  {
    if b != [] {
      DropUnderscoresDigits(b[1..]);
    }
  }

  /** Text without an underscore is left as it is. */
  lemma {:induction false} DropUnderscoresNone(b: string)
    requires '_' !in b
    ensures DropUnderscores(b) == b
  {
    if b != [] {
      assert '_' !in b[1..];
      DropUnderscoresNone(b[1..]);
      assert [b[0]] + b[1..] == b;
    }
  }

  /** A sign-free body of an integer literal: digit groups, read without the underscores. */
  function ParseUnsigned(body: string): (r: Option<nat>)
    ensures r.Some? <==> IsDigitGroups(body)
  {
    if IsDigitGroups(body) then
      DropUnderscoresDigits(body);
      Some(DigitsValue(DropUnderscores(body)))
    else None
  }

  /** An integer literal without surrounding whitespace: one optional sign, then digit groups. */
  function ParseSigned(t: string): Option<int>
  {
    if |t| > 0 && (t[0] == '-' || t[0] == '+') then
      match ParseUnsigned(t[1..])
      case None => None
      case Some(v) => Some(if t[0] == '-' then -(v as int) else v)
    else
      match ParseUnsigned(t)
      case None => None
      case Some(v) => Some(v)
  }

  /**
   * Python's `int(s)` with base 10: surrounding whitespace is ignored, one
   * optional sign, then digits in which single underscores may separate
   * groups; anything else raises ValueError, modelled as None.
   */
  function ParseInt(s: string): Option<int>
  {
    ParseSigned(TrimEnd(TrimStart(s)))
  }

  lemma TrimmedAlready(s: string)
    requires s != [] && !IsSpace(s[0]) && !IsSpace(Last(s))
    ensures ParseInt(s) == ParseSigned(s)
  {
    assert TrimStart(s) == s;
    assert TrimEnd(s) == s;
  }

  lemma DigitsHaveNoUnderscore(s: string)
    requires AllDigits(s)
    ensures '_' !in s && (forall i :: 0 <= i < |s| ==> IsDigit(s[i]) || s[i] == '_')
  {
  }

  /** Plain digits are a digit-group body without underscores. */
  lemma UnsignedOfDigits(d: string)
    requires AllDigits(d) && d != []
    ensures ParseUnsigned(d) == Some(DigitsValue(d))
  {
    DigitsHaveNoUnderscore(d);
    DropUnderscoresNone(d);
    assert IsDigitGroups(d);
  }

  /** On a string of plain digits `int()` is the digits' value, and fails only on the empty string. */
  lemma ParseIntOfDigits(s: string)
    requires AllDigits(s)
    ensures ParseInt(s) == if s == [] then None else Some(DigitsValue(s))
  {
    if s != [] {
      TrimmedAlready(s);
      UnsignedOfDigits(s);
    }
  }

  /** A minus sign before plain digits negates their value. */
  lemma ParseIntOfNegated(d: string)
    requires AllDigits(d) && d != []
    ensures ParseInt("-" + d) == Some(-(DigitsValue(d) as int))
  {
    var s := "-" + d;
    assert Last(s) == Last(d);
    TrimmedAlready(s);
    SignedOfNegated(d);
  }

  lemma SignedOfNegated(d: string)
    requires AllDigits(d) && d != []
    ensures ParseSigned("-" + d) == Some(-(DigitsValue(d) as int))
  {
    var s := "-" + d;
    assert s[1..] == d;
    UnsignedOfDigits(d);
    SignedOfSign(s, DigitsValue(d));
  }

  /** After a sign, the body is read as unsigned and the sign applied to it. */
  lemma SignedOfSign(s: string, v: nat)
    requires |s| > 0 && (s[0] == '-' || s[0] == '+')
    requires ParseUnsigned(s[1..]) == Some(v)
    ensures ParseSigned(s) == Some(if s[0] == '-' then -(v as int) else v)
  {
  }

  /** A `+` sign before plain digits reads as their value. */
  lemma ParseIntOfPlus(d: string)
    requires AllDigits(d) && d != []
    ensures ParseInt("+" + d) == Some(DigitsValue(d))
  {
    var s := "+" + d;
    assert Last(s) == Last(d) && s[1..] == d;
    TrimmedAlready(s);
    UnsignedOfDigits(d);
    SignedOfSign(s, DigitsValue(d));
  }

  predicate AllSpace(w: string) { forall i :: 0 <= i < |w| ==> IsSpace(w[i]) }

  /** Leading whitespace is stripped up to the first other character. */
  lemma {:induction false} TrimStartOver(w: string, t: string)
    requires AllSpace(w) && (t == [] || !IsSpace(t[0]))
    ensures TrimStart(w + t) == t
  {
    if w != [] {
      assert (w + t)[1..] == w[1..] + t;
      TrimStartOver(w[1..], t);
    }
  }

  /** Trailing whitespace is stripped back to the last other character. */
  lemma {:induction false} TrimEndOver(t: string, w: string)
    requires AllSpace(w) && (t == [] || !IsSpace(Last(t)))
    ensures TrimEnd(t + w) == t
  {
    if w != [] {
      var tw := t + w;
      assert Last(tw) == Last(w) && tw[..|tw| - 1] == t + w[..|w| - 1];
      TrimEndOver(t, w[..|w| - 1]);
    } else {
      assert t + w == t;
    }
  }

  /** `int()` ignores whitespace around the literal. */
  lemma ParseIntIgnoresSpace(w1: string, s: string, w2: string)
    requires AllSpace(w1) && AllSpace(w2)
    requires s != [] && !IsSpace(s[0]) && !IsSpace(Last(s))
    ensures ParseInt(w1 + s + w2) == ParseInt(s)
  {
    assert w1 + s + w2 == w1 + (s + w2);
    TrimStartOver(w1, s + w2);
    TrimEndOver(s, w2);
    TrimmedAlready(s);
  }

  /** The information separators are not stripped: `int("\x1c60")` raises. */
  lemma ParseIntRefusesSeparator(d: string)
    requires AllDigits(d)
    ensures ParseInt("\U{1C}" + d) == None
  {
    var s := "\U{1C}" + d;
    assert TrimStart(s) == s;
    var t := TrimEnd(s);
    TrimEndPrefix(s);
    assert t[0] == '\U{1C}';
  }

  /** Trimming the end keeps the first character of text that does not start with whitespace. */
  lemma {:induction false} TrimEndPrefix(s: string)
    requires s != [] && !IsSpace(s[0])
    ensures TrimEnd(s) != [] && TrimEnd(s)[0] == s[0]
    decreases |s|
  {
    if IsSpace(Last(s)) {
      TrimEndPrefix(s[..|s| - 1]);
    }
  }

  /** `int()` of nothing but whitespace (the empty text included) raises. */
  lemma ParseIntOfBlank(w: string)
    requires AllSpace(w)
    ensures ParseInt(w) == None
  {
    TrimStartOver(w, []);
    assert w + [] == w;
  }

  lemma DropUnderscoresCons(c: char, r: string)
    ensures DropUnderscores([c] + r) == (if c == '_' then [] else [c]) + DropUnderscores(r)
  {
    assert ([c] + r)[1..] == r;
  }

  lemma {:induction false} DropUnderscoresAppend(x: string, y: string)
    ensures DropUnderscores(x + y) == DropUnderscores(x) + DropUnderscores(y)
  {
    if x == [] {
      assert x + y == y;
    } else {
      var c, r := x[0], x[1..];
      assert x == [c] + r && x + y == [c] + (r + y);
      DropUnderscoresAppend(r, y);
      DropUnderscoresCons(c, r);
      DropUnderscoresCons(c, r + y);
    }
  }

  /** An underscore between two digit groups of a sign-free body is skipped. */
  lemma UnsignedWithSeparator(a: string, b: string)
    requires AllDigits(a) && AllDigits(b) && a != [] && b != []
    ensures ParseUnsigned(a + "_" + b) == Some(DigitsValue(a + b))
  {
    SeparatedIsDigitGroups(a, b);
    DropSeparator(a, b);
  }

  /** `int()` skips an underscore between two digit groups: `int("1_000") == 1000`. */
  lemma ParseIntWithSeparator(a: string, b: string)
    requires AllDigits(a) && AllDigits(b) && a != [] && b != []
    ensures ParseInt(a + "_" + b) == Some(DigitsValue(a + b))
  {
    var s := a + "_" + b;
    assert s[0] == a[0] && Last(s) == Last(b);
    TrimmedAlready(s);
    UnsignedWithSeparator(a, b);
  }

  lemma SeparatedIsDigitGroups(a: string, b: string)
    requires AllDigits(a) && AllDigits(b) && a != [] && b != []
    ensures IsDigitGroups(a + "_" + b)
  {
    var s := a + "_" + b;
    assert forall i :: 0 <= i < |a| ==> s[i] == a[i];
    assert s[|a|] == '_';
    assert forall i :: |a| < i < |s| ==> s[i] == b[i - |a| - 1];
  }

  lemma DropSeparator(a: string, b: string)
    requires AllDigits(a) && AllDigits(b)
    ensures DropUnderscores(a + "_" + b) == a + b && AllDigits(a + b)
  {
    DigitsHaveNoUnderscore(a);
    DigitsHaveNoUnderscore(b);
    DropUnderscoresNone(a);
    DropUnderscoresNone(b);
    assert DropUnderscores("_") == [] by {
      assert "_"[1..] == [];
    }
    DropUnderscoresAppend(a, "_");
    assert DropUnderscores(a + "_") == a + [] == a;
    DropUnderscoresAppend(a + "_", b);
    assert DropUnderscores(a + "_" + b) == a + b;
    assert forall i :: 0 <= i < |a + b| ==> (a + b)[i] in a || (a + b)[i] in b;
  }

  lemma NegativeRoundTrip(m: nat)
    requires m > 0
    ensures ParseInt("-" + NatToDecimal(m)) == Some(-(m as int))
  {
    NatToDecimalValue(m);
    ParseIntOfNegated(NatToDecimal(m));
  }

  lemma NonNegativeRoundTrip(m: nat)
    ensures ParseInt(NatToDecimal(m)) == Some(m)
  {
    NatToDecimalValue(m);
    ParseIntOfDigits(NatToDecimal(m));
  }

  /** `int(str(n)) == n`: the decimal rendering reads back as the same integer. */
  lemma IntToDecimalRoundTrip(n: int)
    ensures ParseInt(IntToDecimal(n)) == Some(n)
  {
    if n < 0 {
      var m: nat := -n;
      var d := NatToDecimal(m);
      NegativeRoundTrip(m);
      assert ParseInt("-" + d) == Some(n);
      assert IntToDecimal(n) == "-" + d;
    } else {
      NonNegativeRoundTrip(n);
    }
  }
}
