/**
 * The Swedish price-text parser of the ICA crawler: `35:-`, `35:90` and
 * `35.90` become kronor, and a `from-to` text becomes the mean of its
 * pieces.  The parser scans for the pattern `(\d+)(?::|\.)(\d+)?` the way
 * re.search does, and fails when no position matches.
 */
module PriceText {
  import opened Wrappers
  import opened Text

  /** The ValueError raised for a text without a price; it carries the text
      after space removal. */
  datatype PriceError = UnparsablePrice(text: string)

  predicate IsPriceSeparator(c: char) {
    c == ':' || c == '.'
  }

  /** The pattern matches at `i`: a digit there, and the whole digit run that
      starts at `i` followed by `:` or `.`.  A shorter run cannot match, since
      a digit would then stand where the separator must be. */
  predicate PriceMatchAt(s: string, i: nat) {
    && i < |s|
    && IsDigit(s[i])
    && var n := |DigitPrefix(s[i..])|;
       i + n < |s| && IsPriceSeparator(s[i + n])
  }

  /** Any way of matching `\d+` followed by a separator at `i` uses the whole
      digit run, so the greedy choice is the only one. */
  lemma {:induction false} OnlyMatchIsWholeRun(s: string, i: nat, n: nat)
    requires 1 <= n && i + n < |s|
    requires AllDigits(s[i..i + n]) && IsPriceSeparator(s[i + n])
    ensures PriceMatchAt(s, i) && |DigitPrefix(s[i..])| == n
  {
    var t := s[i..];
    assert forall j :: 0 <= j < n ==> IsDigit(t[j]) by {
      forall j | 0 <= j < n ensures IsDigit(t[j]) {
        assert t[j] == s[i..i + n][j];
      }
    }
    assert !IsDigit(t[n]);
  }

  /** The leftmost position where the pattern matches. */
  function PriceMatch(s: string): (r: Option<nat>)
    ensures r.Some? ==> PriceMatchAt(s, r.value)
    ensures r.Some? ==> forall k :: 0 <= k < r.value ==> !PriceMatchAt(s, k)
    ensures r.None? ==> forall k :: 0 <= k < |s| ==> !PriceMatchAt(s, k)
  {
    PriceMatchFrom(s, 0)
  }

  /** The scan of re.search, trying each start position from `i` on. */
  function PriceMatchFrom(s: string, i: nat): (r: Option<nat>)
    requires i <= |s|
    ensures r.Some? ==> i <= r.value && PriceMatchAt(s, r.value)
    ensures r.Some? ==> forall k :: i <= k < r.value ==> !PriceMatchAt(s, k)
    ensures r.None? ==> forall k :: i <= k < |s| ==> !PriceMatchAt(s, k)
    decreases |s| - i
  {
    if i == |s| then None
    else if PriceMatchAt(s, i) then Some(i)
    else PriceMatchFrom(s, i + 1)
  }

  /** The krona digits of the match at `i`: group 1. */
  function Krona(s: string, i: nat): (d: string)
    requires PriceMatchAt(s, i)
    ensures |d| >= 1 && AllDigits(d)
  {
    DigitPrefix(s[i..])
  }

  /** The öre digits of the match at `i`: group 2, empty when it did not take part. */
  function Ore(s: string, i: nat): (d: string)
    requires PriceMatchAt(s, i)
    ensures AllDigits(d)
  {
    DigitPrefix(s[i + |Krona(s, i)| + 1..])
  }

  /** `_price_text_to_float`: spaces removed, then the leftmost match read as
      `krona` or `krona.öre`. */
  function ParsePrice(text: string): (r: Result<real, PriceError>)
    ensures r.Ok? ==>
      var s := RemoveChar(text, ' ');
      PriceMatch(s).Some? &&
      var krona := DigitsValue(Krona(s, PriceMatch(s).value)) as real;
      krona <= r.value < krona + 1.0
  {
    var s := RemoveChar(text, ' ');
    match PriceMatch(s)
    case None => Err(UnparsablePrice(s))
    case Some(i) => Ok(Decimal(Krona(s, i), Ore(s, i)))
  }

  /** The parser fails exactly when the pattern matches nowhere in the text
      with its spaces removed. */
  lemma {:induction false} ParsePriceFails(text: string)
    ensures ParsePrice(text).Err? <==>
      forall k :: 0 <= k < |RemoveChar(text, ' ')| ==> !PriceMatchAt(RemoveChar(text, ' '), k)
  {
    var s := RemoveChar(text, ' ');
    var m := PriceMatch(s);
    if m.Some? {
      assert PriceMatchAt(s, m.value);
      assert ParsePrice(text).Ok?;
    } else {
      assert ParsePrice(text).Err?;
    }
  }

  /** A written price has no spaces when its öre and tail have none. */
  lemma {:induction false} WrittenHasNoSpace(kd: string, sep: char, ore: string, tail: string)
    requires AllDigits(kd) && IsPriceSeparator(sep)
    requires ' ' !in ore && ' ' !in tail
    ensures ' ' !in kd + [sep] + ore + tail
  {
    var s := kd + [sep] + ore + tail;
    forall j | 0 <= j < |s| ensures s[j] != ' ' {
      if j < |kd| { assert s[j] == kd[j] && IsDigit(kd[j]); }
      else if j == |kd| { assert s[j] == sep; }
      else if j < |kd| + 1 + |ore| { assert s[j] == ore[j - |kd| - 1]; }
      else { assert s[j] == tail[j - |kd| - 1 - |ore|]; }
    }
  }

  /** In a written price the pattern matches at the start, with the krona and
      öre digits as its groups. */
  lemma {:induction false} WrittenMatchesAtStart(kd: string, sep: char, ore: string, tail: string)
    requires |kd| >= 1 && AllDigits(kd) && IsPriceSeparator(sep) && AllDigits(ore)
    requires tail == [] || !IsDigit(tail[0])
    ensures var s := kd + [sep] + ore + tail;
      PriceMatch(s) == Some(0) && Krona(s, 0) == kd && Ore(s, 0) == ore
  {
    var s := kd + [sep] + ore + tail;
    assert s[0..] == kd + ([sep] + ore + tail);
    DigitPrefixOf(kd, [sep] + ore + tail);
    assert s[|kd|] == sep;
    assert PriceMatchAt(s, 0);
    assert s[|kd| + 1..] == ore + tail;
    DigitPrefixOf(ore, tail);
  }

  /** Parsing the text a price is written as gives that price back: krona
      digits, `:` or `.`, öre digits, then anything not starting with a digit
      (such as the `-` of `35:-`). */
  lemma {:induction false} ParseWrittenPrice(kd: string, sep: char, ore: string, tail: string)
    requires |kd| >= 1 && AllDigits(kd) && IsPriceSeparator(sep)
    requires AllDigits(ore)
    requires tail == [] || !IsDigit(tail[0])
    requires ' ' !in ore && ' ' !in tail
    ensures ParsePrice(kd + [sep] + ore + tail) == Ok(DigitsValue(kd) as real + FractionValue(ore))
  {
    var s := kd + [sep] + ore + tail;
    WrittenHasNoSpace(kd, sep, ore, tail);
    RemoveCharAbsent(s, ' ');
    WrittenMatchesAtStart(kd, sep, ore, tail);
    ParseMatchAtStart(s, kd, ore);
  }

  /** The round trip for every whole krona amount written in decimal. */
  lemma {:induction false} ParseWrittenAmount(k: nat, sep: char, ore: string, tail: string)
    requires IsPriceSeparator(sep)
    requires AllDigits(ore)
    requires tail == [] || !IsDigit(tail[0])
    requires ' ' !in ore && ' ' !in tail
    ensures ParsePrice(NatToDigits(k) + [sep] + ore + tail) == Ok(k as real + FractionValue(ore))
  {
    ParseWrittenPrice(NatToDigits(k), sep, ore, tail);
    DigitsValueOfNatToDigits(k);
  }

  lemma {:induction false} ParseMatchAtStart(s: string, kd: string, ore: string)
    requires RemoveChar(s, ' ') == s
    requires PriceMatch(s) == Some(0) && Krona(s, 0) == kd && Ore(s, 0) == ore
    ensures ParsePrice(s) == Ok(DigitsValue(kd) as real + FractionValue(ore))
  {
    assert ParsePrice(s) == Ok(Decimal(kd, ore));
  }

  /** A text whose digits are never followed by `:` or `.` is refused, `35` for one. */
  lemma {:induction false} NoSeparatorNoPrice(text: string)
    requires forall k :: 0 <= k < |text| ==> text[k] != ':' && text[k] != '.'
    ensures ParsePrice(text).Err?
  {
    var s := RemoveChar(text, ' ');
    RemoveCharKeeps(text, ' ', ':');
    RemoveCharKeeps(text, ' ', '.');
    ParsePriceFails(text);
  }

  /** Removing one character keeps every other character out if it was out. */
  lemma {:induction false} RemoveCharKeeps(s: string, c: char, d: char)
    requires d !in s
    ensures d !in RemoveChar(s, c)
  {
    if s != [] {
      assert d !in s[1..];
      RemoveCharKeeps(s[1..], c, d);
    }
  }

  lemma {:induction false} Krona35()
    ensures DigitsValue("35") == 35
  {
    assert "35"[..1] == "3";
    assert "3"[..0] == "";
  }

  /** `35:-`: a price with no öre after the separator is whole kronor. */
  lemma {:induction false} ParsePriceWholeKronor()
    ensures ParsePrice("35:-") == Ok(35.0)
  {
    assert "35" + [':'] + "" + "-" == "35:-";
    assert ParsePrice("35" + [':'] + "" + "-") == Ok(35.0) by {
      Krona35();
      assert FractionValue("") == 0.0;
      ParseWrittenPrice("35", ':', "", "-");
    }
  }

  /** `35:90` with a colon separator. */
  lemma {:induction false} ParsePriceColon()
    ensures ParsePrice("35:90") == Ok(35.9)
  {
    assert "35" + [':'] + "90" + "" == "35:90";
    assert ParsePrice("35" + [':'] + "90" + "") == Ok(35.9) by {
      Krona35();
      Ore90();
      ParseWrittenPrice("35", ':', "90", "");
    }
  }

  /** `35.90` is the same price with a point separator. */
  lemma {:induction false} ParsePricePoint()
    ensures ParsePrice("35.90") == Ok(35.9)
  {
    assert "35" + ['.'] + "90" + "" == "35.90";
    assert ParsePrice("35" + ['.'] + "90" + "") == Ok(35.9) by {
      Krona35();
      Ore90();
      ParseWrittenPrice("35", '.', "90", "");
    }
  }

  /** A single öre digit is tenths: `35:9` is 35.9. */
  lemma {:induction false} ParsePriceOneOreDigit()
    ensures ParsePrice("35:9") == Ok(35.9)
  {
    assert "35" + [':'] + "9" + "" == "35:9";
    assert ParsePrice("35" + [':'] + "9" + "") == Ok(35.9) by {
      Krona35();
      assert FractionValue("9") == 0.9 by { assert "9"[1..] == ""; }
      ParseWrittenPrice("35", ':', "9", "");
    }
  }

  /** A leading zero öre digit is kept: `35:09` is 35.09. */
  lemma {:induction false} ParsePriceLeadingZeroOre()
    ensures ParsePrice("35:09") == Ok(35.09)
  {
    assert "35" + [':'] + "09" + "" == "35:09";
    assert ParsePrice("35" + [':'] + "09" + "") == Ok(35.09) by {
      Krona35();
      assert FractionValue("09") == 0.09 by { assert "09"[1..] == "9"; assert "9"[1..] == ""; }
      ParseWrittenPrice("35", ':', "09", "");
    }
  }

  lemma {:induction false} Ore90()
    ensures FractionValue("90") == 0.9
  {
    assert "90"[1..] == "0";
    assert "0"[1..] == "";
  }

  /** A bare number with no separator is not a price. */
  lemma {:induction false} ParsePriceNeedsSeparator()
    ensures ParsePrice("35").Err?
  {
    NoSeparatorNoPrice("35");
  }

  /** The parsed value of every piece, or the first piece's error, as the
      list comprehension over the pieces does. */
  function ParseAll(pieces: seq<string>): (r: Result<seq<real>, PriceError>)
    ensures r.Err? <==> exists i :: 0 <= i < |pieces| && ParsePrice(pieces[i]).Err?
    ensures r.Ok? ==> |r.value| == |pieces|
    ensures r.Ok? ==> forall i :: 0 <= i < |pieces| ==> ParsePrice(pieces[i]) == Ok(r.value[i])
  {
    if pieces == [] then Ok([])
    else
      match ParsePrice(pieces[0])
      case Err(e) => Err(e)
      case Ok(p) =>
        match ParseAll(pieces[1..])
        case Err(e) => Err(e)
        case Ok(ps) => Ok([p] + ps)
  }

  function Sum(xs: seq<real>): real {
    if xs == [] then 0.0 else xs[0] + Sum(xs[1..])
  }

  function Min(xs: seq<real>): (m: real)
    requires |xs| >= 1
    ensures m in xs && forall i :: 0 <= i < |xs| ==> m <= xs[i]
  {
    if |xs| == 1 then xs[0]
    else var m := Min(xs[1..]); if xs[0] <= m then xs[0] else m
  }

  function Max(xs: seq<real>): (m: real)
    requires |xs| >= 1
    ensures m in xs && forall i :: 0 <= i < |xs| ==> xs[i] <= m
  {
    if |xs| == 1 then xs[0]
    else var m := Max(xs[1..]); if xs[0] >= m then xs[0] else m
  }

  /** The number of values, as a real. */
  function Count(xs: seq<real>): real {
    if xs == [] then 0.0 else 1.0 + Count(xs[1..])
  }

  lemma {:induction false} CountIsLength(xs: seq<real>)
    ensures Count(xs) == |xs| as real
  {
    if xs != [] {
      CountIsLength(xs[1..]);
    }
  }

  /** Every value in [lo, hi] keeps the sum between n times lo and n times hi. */
  lemma {:induction false} SumBounds(xs: seq<real>, lo: real, hi: real)
    requires forall i :: 0 <= i < |xs| ==> lo <= xs[i] <= hi
    ensures Count(xs) * lo <= Sum(xs) <= Count(xs) * hi
  {
    if xs != [] {
      var c := Count(xs[1..]);
      SumBounds(xs[1..], lo, hi);
      assert Count(xs) == 1.0 + c;
      assert (1.0 + c) * lo == lo + c * lo;
      assert (1.0 + c) * hi == hi + c * hi;
    }
  }

  lemma {:induction false} DivLower(a: real, n: real, lo: real)
    requires n > 0.0 && n * lo <= a
    ensures lo <= a / n
  {
    var m := a / n;
    assert m * n == a;
    if m < lo {
      assert (lo - m) * n > 0.0;
      assert lo * n - m * n > 0.0;
    }
  }

  lemma {:induction false} DivUpper(a: real, n: real, hi: real)
    requires n > 0.0 && a <= n * hi
    ensures a / n <= hi
  {
    var m := a / n;
    assert m * n == a;
    if m > hi {
      assert (m - hi) * n > 0.0;
      assert m * n - hi * n > 0.0;
    }
  }

  /** Values in [lo, hi] have their mean in [lo, hi]. */
  lemma {:induction false} MeanWithin(xs: seq<real>, lo: real, hi: real)
    requires Count(xs) > 0.0
    requires forall i :: 0 <= i < |xs| ==> lo <= xs[i] <= hi
    ensures lo <= Sum(xs) / Count(xs) <= hi
  {
    SumBounds(xs, lo, hi);
    DivLower(Sum(xs), Count(xs), lo);
    DivUpper(Sum(xs), Count(xs), hi);
  }

  /** A mean of values lies between their least and their greatest. */
  lemma {:induction false} MeanBetween(xs: seq<real>)
    requires |xs| >= 1
    ensures Min(xs) <= Sum(xs) / |xs| as real <= Max(xs)
  {
    CountIsLength(xs);
    MeanWithin(xs, Min(xs), Max(xs));
  }

  /** The arithmetic mean; the empty sequence has none. */
  function Mean(xs: seq<real>): real
    requires |xs| >= 1
  {
    Sum(xs) / |xs| as real
  }

  /** The prices of the `-`-separated pieces of a range text. */
  function PiecePrices(rangeStr: string): Result<seq<real>, PriceError>
  {
    ParseAll(Split(rangeStr, '-'))
  }

  /** `_avg_price_from_range`: the mean of the prices of all `-`-separated
      pieces; it fails as soon as one piece has no price. */
  function AvgPriceFromRange(rangeStr: string): (r: Result<real, PriceError>)
    ensures r.Err? <==> exists i :: 0 <= i < |Split(rangeStr, '-')| && ParsePrice(Split(rangeStr, '-')[i]).Err?
    ensures r.Ok? ==> PiecePrices(rangeStr).Ok? && |PiecePrices(rangeStr).value| == |Split(rangeStr, '-')|
  {
    var parsed := ParseAll(Split(rangeStr, '-'));
    if parsed.Err? then
      assert exists i :: 0 <= i < |Split(rangeStr, '-')| && ParsePrice(Split(rangeStr, '-')[i]).Err?;
      Err(parsed.error)
    else Ok(Mean(parsed.value))
  }

  /** The mean lies between the least and the greatest piece price. */
  lemma {:induction false} AvgWithinPieces(rangeStr: string)
    requires AvgPriceFromRange(rangeStr).Ok?
    ensures var prices := PiecePrices(rangeStr).value;
      Min(prices) <= AvgPriceFromRange(rangeStr).value <= Max(prices)
  {
    MeanBetween(PiecePrices(rangeStr).value);
  }

  /** A text without `-` is a single price. */
  lemma {:induction false} SinglePriceRange(text: string)
    requires '-' !in text
    ensures AvgPriceFromRange(text) == ParsePrice(text)
  {
    SplitAbsent(text, '-');
    var pieces := Split(text, '-');
    assert pieces[0] == text && pieces[1..] == [];
    assert ParseAll(pieces[1..]) == Ok([]);
    if ParsePrice(text).Ok? {
      var v := ParsePrice(text).value;
      var r := ParseAll(pieces);
      assert r.Ok? by {
        forall i | 0 <= i < |pieces| ensures ParsePrice(pieces[i]).Ok? {
          assert pieces[i] == text;
        }
      }
      assert r.value == [v];
      assert PiecePrices(text) == Ok([v]);
      assert Sum([v]) == v + Sum([]);
    } else {
      assert PiecePrices(text) == Err(ParsePrice(text).error);
    }
  }

  /** `a-b` is the mean of the two endpoints. */
  lemma {:induction false} TwoEndpointRange(a: string, b: string)
    requires '-' !in a && '-' !in b
    requires ParsePrice(a).Ok? && ParsePrice(b).Ok?
    ensures AvgPriceFromRange(a + "-" + b) == Ok((ParsePrice(a).value + ParsePrice(b).value) / 2.0)
  {
    SplitAt(a, '-', b);
    SplitAbsent(b, '-');
    var pieces := Split(a + "-" + b, '-');
    assert pieces == [a, b];
    var x, y := ParsePrice(a).value, ParsePrice(b).value;
    var r := ParseAll(pieces);
    assert r.Ok? by {
      forall i | 0 <= i < |pieces| ensures ParsePrice(pieces[i]).Ok? {
        assert pieces[i] == a || pieces[i] == b;
      }
    }
    assert r.value[0] == x && r.value[1] == y by {
      assert pieces[0] == a && pieces[1] == b;
    }
    assert r.value == [x, y];
    assert Sum([x, y]) == x + y by {
      assert [x, y][1..] == [y];
      assert Sum([y]) == y + Sum([]);
    }
    assert PiecePrices(a + "-" + b) == Ok([x, y]);
    assert |[x, y]| as real == 2.0;
  }

  /** A trailing `-` leaves an empty last piece, which has no price, so the
      whole range fails: `29:-` as a range text is refused. */
  lemma {:induction false} TrailingDashFails(s: string)
    ensures AvgPriceFromRange(s + "-").Err?
  {
    SplitTrailing(s, '-');
    var pieces := Split(s + "-", '-');
    assert pieces[|pieces| - 1] == "";
    assert ParsePrice("").Err?;
  }

  lemma {:induction false} Price3890()
    ensures ParsePrice("38:90") == Ok(38.9)
  {
    assert "38" + [':'] + "90" + "" == "38:90";
    assert ParsePrice("38" + [':'] + "90" + "") == Ok(38.9) by {
      assert DigitsValue("38") == 38 by { assert "38"[..1] == "3"; assert "3"[..0] == ""; }
      Ore90();
      ParseWrittenPrice("38", ':', "90", "");
    }
  }

  lemma {:induction false} Price3990()
    ensures ParsePrice("39:90") == Ok(39.9)
  {
    assert "39" + [':'] + "90" + "" == "39:90";
    assert ParsePrice("39" + [':'] + "90" + "") == Ok(39.9) by {
      assert DigitsValue("39") == 39 by { assert "39"[..1] == "3"; assert "3"[..0] == ""; }
      Ore90();
      ParseWrittenPrice("39", ':', "90", "");
    }
  }

  lemma {:induction false} Price5090()
    ensures ParsePrice("50:90") == Ok(50.9)
  {
    assert "50" + [':'] + "90" + "" == "50:90";
    assert ParsePrice("50" + [':'] + "90" + "") == Ok(50.9) by {
      assert DigitsValue("50") == 50 by { assert "50"[..1] == "5"; assert "5"[..0] == ""; }
      Ore90();
      ParseWrittenPrice("50", ':', "90", "");
    }
  }

  /** `38:90-50:90` is the mean of its two endpoints. */
  lemma {:induction false} RangeExampleMean()
    ensures AvgPriceFromRange("38:90-50:90") == Ok(44.9)
  {
    assert "38:90" + "-" + "50:90" == "38:90-50:90";
    assert '-' !in "38:90" && '-' !in "50:90";
    Price3890();
    Price5090();
    TwoEndpointRange("38:90", "50:90");
  }

  /** `29:-` taken as a range fails on its empty second piece. */
  lemma {:induction false} RangeExampleTrailingDash()
    ensures AvgPriceFromRange("29:-").Err?
  {
    TrailingDashFails("29:");
    assert "29:" + "-" == "29:-";
  }
}
