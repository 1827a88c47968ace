/**
 * The string primitives the crawlers rely on, with Python's meaning:
 * str.strip / str.lstrip, str.split on one character, str.replace of a
 * two-character pattern, the decimal digits that `\d` and int() accept,
 * and the subset of float() literals the pages use.
 */
module Text {
  import opened Wrappers

  /** The characters for which Python's str.isspace() holds; `\s` in a
      str pattern and str.strip() without arguments use the same set. */
  predicate IsSpace(c: char) {
    || c == ' '
    || ('\t' <= c <= '\r')
    || ('\U{1c}' <= c <= '\U{1f}')
    || c == '\U{85}' || c == '\U{a0}' || c == '\U{1680}'
    || ('\U{2000}' <= c <= '\U{200a}')
    || c == '\U{2028}' || c == '\U{2029}' || c == '\U{202f}'
    || c == '\U{205f}' || c == '\U{3000}'
  }

  predicate IsDigit(c: char) {
    '0' <= c <= '9'
  }

  predicate AllDigits(s: string) {
    forall i :: 0 <= i < |s| ==> IsDigit(s[i])
  }

  function Pow10(n: nat): (p: nat)
    ensures p >= 1
  {
    if n == 0 then 1 else 10 * Pow10(n - 1)
  }

  /** Powers of ten grow with the exponent. */
  lemma {:induction false} Pow10AtMost(m: nat, n: nat)
    requires m <= n
    ensures Pow10(m) <= Pow10(n)
    decreases n
  {
    if m < n {
      Pow10AtMost(m, n - 1);
    }
  }

  /** The number a string of decimal digits denotes (what int() returns). */
  function DigitsValue(s: string): (n: nat)
    requires AllDigits(s)
    ensures n < Pow10(|s|)
  {
    if s == [] then 0
    else DigitsValue(s[..|s| - 1]) * 10 + (s[|s| - 1] as int - '0' as int)
  }

  /** The decimal rendering of a natural number, without leading zeros. */
  function NatToDigits(n: nat): (s: string)
    ensures |s| >= 1 && AllDigits(s)
    decreases n
  {
    if n < 10 then [('0' as int + n) as char]
    else NatToDigits(n / 10) + [('0' as int + n % 10) as char]
  }

  lemma {:induction false} DigitsValueOfNatToDigits(n: nat)
    ensures DigitsValue(NatToDigits(n)) == n
    decreases n
  {
    if n >= 10 {
      var s := NatToDigits(n);
      assert s[..|s| - 1] == NatToDigits(n / 10);
      DigitsValueOfNatToDigits(n / 10);
    }
  }

  /** The longest prefix of decimal digits (what a greedy `\d+` or `\d*` consumes). */
  function DigitPrefix(s: string): (d: string)
    ensures |d| <= |s| && d == s[..|d|]
    ensures AllDigits(d)
    ensures |d| == |s| || !IsDigit(s[|d|])
  {
    if s == [] || !IsDigit(s[0]) then [] else [s[0]] + DigitPrefix(s[1..])
  }

  /** The digit prefix of digits followed by a non-digit is those digits. */
  lemma {:induction false} DigitPrefixOf(d: string, rest: string)
    requires AllDigits(d)
    requires rest == [] || !IsDigit(rest[0])
    ensures DigitPrefix(d + rest) == d
  {
    if d != [] {
      assert (d + rest)[1..] == d[1..] + rest;
      DigitPrefixOf(d[1..], rest);
    }
  }

  /** The number of leading whitespace characters (what a greedy `\s*` consumes). */
  function SpacePrefixLength(s: string): (n: nat)
    ensures n <= |s|
    ensures forall k :: 0 <= k < n ==> IsSpace(s[k])
    ensures n == |s| || !IsSpace(s[n])
  {
    if s == [] || !IsSpace(s[0]) then 0 else 1 + SpacePrefixLength(s[1..])
  }

  /** str.lstrip(): the leading whitespace removed. */
  function StripLeft(s: string): (r: string)
    ensures |r| <= |s| && r == s[|s| - |r|..]
    ensures forall k :: 0 <= k < |s| - |r| ==> IsSpace(s[k])
    ensures r == [] || !IsSpace(r[0])
  {
    if s == [] || !IsSpace(s[0]) then s else StripLeft(s[1..])
  }

  /** str.rstrip(): the trailing whitespace removed. */
  function StripRight(s: string): (r: string)
    ensures |r| <= |s| && r == s[..|r|]
    ensures forall k :: |r| <= k < |s| ==> IsSpace(s[k])
    ensures r == [] || !IsSpace(r[|r| - 1])
  {
    if s == [] || !IsSpace(s[|s| - 1]) then s else StripRight(s[..|s| - 1])
  }

  /** str.strip(): the leading whitespace dropped, then the trailing. */
  function Strip(s: string): (r: string)
    ensures r == [] || (!IsSpace(r[0]) && !IsSpace(r[|r| - 1]))
  {
    if s != [] && IsSpace(s[0]) then Strip(s[1..]) else StripRight(s)
  }

  /** str.strip() is str.lstrip() followed by str.rstrip(): exactly the
      leading and the trailing whitespace runs are removed. */
  lemma {:induction false} StripIsBothEnds(s: string)
    ensures Strip(s) == StripRight(StripLeft(s))
    ensures |Strip(s)| <= |s| && Strip(s) == s[SpacePrefixLength(s)..][..|Strip(s)|]
  {
    if s != [] && IsSpace(s[0]) {
      StripIsBothEnds(s[1..]);
      assert Strip(s) == Strip(s[1..]) && StripLeft(s) == StripLeft(s[1..]);
      assert SpacePrefixLength(s) == 1 + SpacePrefixLength(s[1..]);
      assert s[SpacePrefixLength(s)..] == s[1..][SpacePrefixLength(s[1..])..];
    } else {
      assert StripLeft(s) == s && Strip(s) == StripRight(s);
      assert SpacePrefixLength(s) == 0;
      assert s[0..] == s;
    }
  }

  /** A text with no whitespace at either end is its own strip. */
  lemma {:induction false} StripUnchanged(s: string)
    requires s != [] && !IsSpace(s[0]) && !IsSpace(s[|s| - 1])
    ensures Strip(s) == s
  {
  }

  /** Stripping adds no character. */
  lemma {:induction false} StripKeepsAbsent(s: string, c: char)
    requires c !in s
    ensures c !in Strip(s)
  {
    if s != [] && IsSpace(s[0]) {
      assert c !in s[1..] by {
        forall k | 0 <= k < |s| - 1
          ensures s[1..][k] != c
        {
          assert s[1..][k] == s[k + 1];
        }
      }
      StripKeepsAbsent(s[1..], c);
    } else {
      var r := StripRight(s);
      forall k | 0 <= k < |r|
        ensures r[k] != c
      {
        assert r[k] == s[k];
      }
    }
  }

  /** str.lstrip(c): every leading `c` removed. */
  function StripLeftChar(s: string, c: char): (r: string)
    ensures |r| <= |s| && r == s[|s| - |r|..]
    ensures forall k :: 0 <= k < |s| - |r| ==> s[k] == c
    ensures r == [] || r[0] != c
  {
    if s == [] || s[0] != c then s else StripLeftChar(s[1..], c)
  }

  /** str.replace(c, ""): every occurrence of `c` removed. */
  function RemoveChar(s: string, c: char): (r: string)
    ensures c !in r
    ensures |r| <= |s|
  {
    if s == [] then []
    else if s[0] == c then RemoveChar(s[1..], c)
    else [s[0]] + RemoveChar(s[1..], c)
  }

  /** Removing a character works piece by piece: each character other than
      `c` is kept, in order, and each `c` is dropped. */
  lemma {:induction false} RemoveCharConcat(a: string, b: string, c: char)
    ensures RemoveChar(a + b, c) == RemoveChar(a, c) + RemoveChar(b, c)
    ensures forall x :: RemoveChar([x], c) == if x == c then [] else [x]
    decreases |a|
  {
    if a == [] {
      assert a + b == b;
    } else {
      assert (a + b)[1..] == a[1..] + b;
      RemoveCharConcat(a[1..], b, c);
    }
    forall x
      ensures RemoveChar([x], c) == if x == c then [] else [x]
    {
      assert [x][1..] == [];
    }
  }

  /** str.replace(a + b, ""): occurrences of the two-character pattern removed,
      scanning left to right without overlap, as Python does. */
  function RemovePair(s: string, a: char, b: char): (r: string)
    ensures |r| <= |s|
  {
    if |s| >= 2 && s[0] == a && s[1] == b then RemovePair(s[2..], a, b)
    else if s == [] then []
    else [s[0]] + RemovePair(s[1..], a, b)
  }

  /** The first `:-` is dropped and everything before it is kept: no pair
      starts inside `x`, even one whose second character is the `a` of the
      removed pair. */
  lemma {:induction false} RemovePairFirst(x: string, y: string, a: char, b: char)
    requires forall k :: 0 <= k < |x| ==> !(x[k] == a && (x + [a, b])[k + 1] == b)
    ensures RemovePair(x + [a, b] + y, a, b) == x + RemovePair(y, a, b)
    decreases |x|
  {
    if x == [] {
      assert x + [a, b] + y == [a, b] + y;
      assert ([a, b] + y)[2..] == y;
    } else {
      var s := x + [a, b] + y;
      var u := x[1..] + [a, b] + y;
      assert s == [x[0]] + u;
      assert s[1] == (x + [a, b])[1];
      assert !(s[0] == a && s[1] == b);
      assert s[1..] == u;
      forall k | 0 <= k < |x[1..]|
        ensures !(x[1..][k] == a && (x[1..] + [a, b])[k + 1] == b)
      {
        assert x[1..][k] == x[k + 1];
        assert (x[1..] + [a, b])[k + 1] == (x + [a, b])[k + 2];
      }
      RemovePairFirst(x[1..], y, a, b);
      assert x == [x[0]] + x[1..];
    }
  }

  /** An `a` not followed by `b` is kept in front of the rest. */
  lemma {:induction false} RemovePairLoneFirst(y: string, a: char, b: char)
    requires y == [] || y[0] != b
    ensures RemovePair([a] + y, a, b) == [a] + RemovePair(y, a, b)
  {
    assert ([a] + y)[0] == a;
    assert ([a] + y)[1..] == y;
  }

  /** A character other than `a` is kept in front. */
  lemma {:induction false} RemovePairKeeps(c: char, u: string, a: char, b: char)
    requires c != a
    ensures RemovePair([c] + u, a, b) == [c] + RemovePair(u, a, b)
  {
    assert ([c] + u)[0] == c;
    assert ([c] + u)[1..] == u;
  }

  /** A text without `a` is kept whole. */
  lemma {:induction false} RemovePairAbsent(x: string, a: char, b: char)
    requires a !in x
    ensures RemovePair(x, a, b) == x
  {
    if x != [] {
      assert a !in x[1..];
      RemovePairAbsent(x[1..], a, b);
      assert x == [x[0]] + x[1..];
    }
  }

  lemma {:induction false} RemoveCharAbsent(s: string, c: char)
    requires c !in s
    ensures RemoveChar(s, c) == s
  {
    if s != [] {
      assert c !in s[1..];
      RemoveCharAbsent(s[1..], c);
    }
  }

  /** The inverse of Split: the pieces glued back with `sep` between them. */
  function Join(parts: seq<string>, sep: char): string
    requires |parts| >= 1
  {
    if |parts| == 1 then parts[0] else parts[0] + [sep] + Join(parts[1..], sep)
  }

  /** str.split(sep) for a one-character separator: always at least one
      piece, and an empty piece on each side of every leading, trailing or
      doubled separator. */
  function Split(s: string, sep: char): (parts: seq<string>)
    ensures |parts| >= 1
    ensures forall i :: 0 <= i < |parts| ==> sep !in parts[i]
  {
    if s == [] then [""]
    else
      var rest := Split(s[1..], sep);
      if s[0] == sep then [""] + rest else [[s[0]] + rest[0]] + rest[1..]
  }

  lemma {:induction false} JoinSplit(s: string, sep: char)
    ensures Join(Split(s, sep), sep) == s
  {
    if s != [] {
      var rest := Split(s[1..], sep);
      JoinSplit(s[1..], sep);
      if s[0] == sep {
        assert Split(s, sep) == [""] + rest;
        assert ([""] + rest)[1..] == rest;
      } else {
        var parts := [[s[0]] + rest[0]] + rest[1..];
        assert Split(s, sep) == parts;
        if |rest| == 1 {
          assert Join(parts, sep) == [s[0]] + rest[0];
        } else {
          assert parts[1..] == rest[1..];
          assert Join(parts, sep) == [s[0]] + rest[0] + [sep] + Join(rest[1..], sep);
          assert Join(rest, sep) == rest[0] + [sep] + Join(rest[1..], sep);
        }
      }
    }
  }

  /** A string without the separator is a single piece. */
  lemma {:induction false} SplitAbsent(s: string, sep: char)
    requires sep !in s
    ensures Split(s, sep) == [s]
  {
    if s != [] {
      assert sep !in s[1..];
      SplitAbsent(s[1..], sep);
      assert s[0] != sep;
      assert [s[0]] + s[1..] == s;
    }
  }

  /** Splitting `a + sep + b` with no separator in `a` gives `a`, then the pieces of `b`. */
  lemma {:induction false} SplitAt(a: string, sep: char, b: string)
    requires sep !in a
    ensures Split(a + [sep] + b, sep) == [a] + Split(b, sep)
  {
    if a == [] {
      assert ([sep] + b)[1..] == b;
    } else {
      assert (a + [sep] + b)[1..] == a[1..] + [sep] + b;
      assert sep !in a[1..];
      SplitAt(a[1..], sep, b);
      assert [a[0]] + a[1..] == a;
    }
  }

  /** A trailing separator leaves an empty last piece. */
  lemma {:induction false} SplitTrailing(s: string, sep: char)
    ensures |Split(s + [sep], sep)| >= 2
    ensures Split(s + [sep], sep)[|Split(s + [sep], sep)| - 1] == ""
  {
    if s == [] {
      assert Split([sep], sep) == [""] + Split([], sep);
    } else {
      assert (s + [sep])[1..] == s[1..] + [sep];
      SplitTrailing(s[1..], sep);
    }
  }

  /** The part of `s` before the first `sep`, which is s.split(sep)[0]. */
  lemma {:induction false} SplitHead(s: string, sep: char, k: nat)
    requires k <= |s| && sep !in s[..k] && (k == |s| || s[k] == sep)
    ensures Split(s, sep)[0] == s[..k]
  {
    if k > 0 {
      assert s[1..][..k - 1] == s[..k][1..];
      SplitHead(s[1..], sep, k - 1);
      assert s[..k] == [s[0]] + s[1..][..k - 1];
    }
  }

  /** The literals float() is modelled on: an optional sign, then digits with an
      optional fraction (`35`, `35.`, `35.90`, `.5`), with surrounding whitespace. */
  function ParseFloat(s: string): Option<real>
  {
    if s != [] && IsSpace(s[0]) then ParseFloat(s[1..])
    else if s != [] && IsSpace(s[|s| - 1]) then ParseFloat(s[..|s| - 1])
    else ParseSigned(s)
  }

  /** float() strips its argument, then reads the literal. */
  lemma {:induction false} ParseFloatStrips(s: string)
    ensures ParseFloat(s) == ParseSigned(Strip(s))
  {
    if s != [] && IsSpace(s[0]) {
      ParseFloatStrips(s[1..]);
    } else {
      ParseFloatTrailing(s);
    }
  }

  lemma {:induction false} ParseFloatTrailing(s: string)
    requires s == [] || !IsSpace(s[0])
    ensures ParseFloat(s) == ParseSigned(StripRight(s))
  {
    if s != [] && IsSpace(s[|s| - 1]) {
      var t := s[..|s| - 1];
      assert t == [] || t[0] == s[0];
      ParseFloatTrailing(t);
    }
  }

  /** An optional sign followed by an unsigned literal. */
  function ParseSigned(t: string): Option<real>
  {
    var neg := |t| >= 1 && t[0] == '-';
    var body := if |t| >= 1 && (t[0] == '-' || t[0] == '+') then t[1..] else t;
    var v := ParseUnsigned(body);
    if v.None? then None
    else if neg then Some(-v.value) else Some(v.value)
  }

  /** The position of the first `c` in `s`, if any. */
  function IndexOf(s: string, c: char): (r: Option<nat>)
    ensures r.Some? ==> r.value < |s| && s[r.value] == c && c !in s[..r.value]
    ensures r.None? ==> c !in s
  {
    if s == [] then None
    else if s[0] == c then Some(0)
    else
      var r := IndexOf(s[1..], c);
      assert s[1..] == s[..|s|][1..];
      if r.None? then None
      else assert s[..r.value + 1] == [s[0]] + s[1..][..r.value]; Some(r.value + 1)
  }

  /** `digits ["." digits]` or `"." digits`, the whole string, at least one digit. */
  function ParseUnsigned(b: string): Option<real>
  {
    var dot := IndexOf(b, '.');
    var whole := if dot.Some? then b[..dot.value] else b;
    var frac := if dot.Some? then b[dot.value + 1..] else "";
    if AllDigits(whole) && AllDigits(frac) && |whole| + |frac| >= 1 then
      Some(Decimal(whole, frac))
    else None
  }

  /** The value of the digits after a decimal point: "9" is 0.9, "09" is 0.09. */
  function FractionValue(frac: string): (v: real)
    requires AllDigits(frac)
    ensures 0.0 <= v < 1.0
  {
    if frac == [] then 0.0
    else ((frac[0] as int - '0' as int) as real + FractionValue(frac[1..])) / 10.0
  }

  /** The number written `whole.frac` in decimal: the digits of `frac` are a
      fraction appended to the integer `whole`, so "35" and "9" give 35.9 and
      "35" and "09" give 35.09. */
  function Decimal(whole: string, frac: string): (v: real)
    requires AllDigits(whole) && AllDigits(frac)
    ensures DigitsValue(whole) as real <= v < DigitsValue(whole) as real + 1.0
  {
    DigitsValue(whole) as real + FractionValue(frac)
  }

  lemma {:induction false} StripAllDigits(s: string)
    requires AllDigits(s)
    ensures Strip(s) == s
  {
    assert s == [] || !IsSpace(s[0]);
    assert StripLeft(s) == s;
    assert s == [] || !IsSpace(s[|s| - 1]);
  }

  lemma {:induction false} ParseUnsignedDigits(s: string)
    requires |s| >= 1 && AllDigits(s)
    ensures ParseUnsigned(s) == Some(DigitsValue(s) as real)
  {
    assert '.' !in s by {
      assert forall i :: 0 <= i < |s| ==> s[i] != '.';
    }
    assert IndexOf(s, '.') == None;
    assert AllDigits("");
    assert ParseUnsigned(s) == Some(Decimal(s, ""));
    assert FractionValue("") == 0.0;
  }

  /** A literal without a sign is read unchanged. */
  lemma {:induction false} UnsignedIsSigned(t: string)
    requires |t| >= 1 && t[0] != '-' && t[0] != '+'
    ensures ParseSigned(t) == ParseUnsigned(t)
  {
  }

  /** float() of a plain digit string is the integer it denotes. */
  lemma {:induction false} ParseFloatDigits(s: string)
    requires |s| >= 1 && AllDigits(s)
    ensures ParseFloat(s) == Some(DigitsValue(s) as real)
  {
    assert IsDigit(s[0]) && IsDigit(s[|s| - 1]);
    assert ParseFloat(s) == ParseSigned(s);
    UnsignedIsSigned(s);
    ParseUnsignedDigits(s);
  }

  /** float("0." + s) for a text s without trailing whitespace: the decimal
      fraction 0.s when s is digits (the empty s gives 0.0), and an error
      otherwise. */
  lemma {:induction false} ParseFloatAfterPoint(s: string)
    requires s == [] || !IsSpace(s[|s| - 1])
    ensures ParseFloat("0." + s) == if AllDigits(s) then Some(FractionValue(s)) else None
  {
    var t := "0." + s;
    assert t[0] == '0' && t[1] == '.';
    assert !IsSpace(t[|t| - 1]) by {
      if |s| > 0 { assert t[|t| - 1] == s[|s| - 1]; }
    }
    assert ParseFloat(t) == ParseSigned(t);
    UnsignedIsSigned(t);
    assert IndexOf(t, '.') == Some(1) by {
      assert t[1..] == "." + s;
    }
    assert t[..1] == "0" && t[2..] == s;
    assert AllDigits("0");
    assert DigitsValue("0") == 0 by { assert "0"[..0] == ""; }
  }
}
