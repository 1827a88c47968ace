/**
 * The ICA crawler's reading of one offer card, and the loop over all cards
 * of the page.  A card is given as the texts of the page elements the
 * crawler looks up; an element that is not on the card is `None`, which is
 * where the source's find_element raises.  Every exception inside the loop
 * body skips the card, so a card yields an offer or a reason to skip it.
 */
module Ica {
  import opened Wrappers
  import opened Text
  import opened PriceText
  import opened Offers

  /** The texts of the elements of one card: title, the two parts of the
      price splash, the "2 för" prefix, the description text and the unit
      suffix. */
  datatype Article = Article(
    title: Option<string>,
    firstValue: Option<string>,
    secondaryValue: Option<string>,
    prefix: Option<string>,
    text: Option<string>,
    suffix: Option<string>)

  /** What made the loop body raise and the card be skipped. */
  datatype SkipReason =
    | MissingTitle
    | MissingFirstValue
    | UnparsableSalePrice
    | ZeroQuantity
    | MissingText
    | NoOrdinaryPrice
    | UnparsableOrdinaryPrice(error: PriceError)
    | DivisionByZeroOrdinary

  /** The ICA crawler stamps "ICA" on its offers. */
  const IcaCrawler := Crawler("ICA")

  // ---------------- Sale price ----------------

  /** float("0." + t) of the stripped secondary value t: the öre digits
      as a fraction, or an error. */
  function Cents(t: string): (c: Option<real>)
    ensures c.Some? ==> 0.0 <= c.value < 1.0
  {
    if AllDigits(t) then Some(FractionValue(t)) else None
  }

  /** Cents is what float() makes of `0.` and the stripped secondary value. */
  lemma {:induction false} CentsIsFloat(secondaryValue: string)
    ensures Cents(Strip(secondaryValue)) == ParseFloat("0." + Strip(secondaryValue))
  {
    ParseFloatAfterPoint(Strip(secondaryValue));
  }

  /** float() of the stripped first value once `:-` is removed. */
  function FirstValue(firstValue: string): Option<real>
  {
    ParseFloat(RemovePair(Strip(firstValue), ':', '-'))
  }

  /** Without a colon in it, the first value reads exactly as float() of
      its text: stripping and the removal of `:-` change nothing float()
      would notice. */
  lemma {:induction false} FirstValueWithoutColon(firstValue: string)
    requires ':' !in firstValue
    ensures FirstValue(firstValue) == ParseFloat(firstValue)
  {
    var t := Strip(firstValue);
    assert ':' !in t by { StripKeepsAbsent(firstValue, ':'); }
    assert RemovePair(t, ':', '-') == t by { RemovePairAbsent(t, ':', '-'); }
    assert ParseFloat(t) == ParseSigned(t) by {
      ParseFloatStrips(t);
      if t != [] {
        StripUnchanged(t);
      }
    }
    assert ParseFloat(firstValue) == ParseSigned(t) by { ParseFloatStrips(firstValue); }
  }

  /** The sale price: float() of the first value without `:-`, plus the
      cents of the secondary value when they read as a number; a failure of
      the secondary part is ignored. */
  function SalePrice(firstValue: string, secondaryValue: Option<string>): (r: Option<real>)
    ensures r.Some? <==> FirstValue(firstValue).Some?
    ensures r.Some? ==> FirstValue(firstValue).value <= r.value < FirstValue(firstValue).value + 1.0
    ensures secondaryValue.None? ==> r == FirstValue(firstValue)
  {
    var first := FirstValue(firstValue);
    if first.None? then None
    else if secondaryValue.None? then first
    else
      var cents := Cents(Strip(secondaryValue.value));
      if cents.None? then first else Some(first.value + cents.value)
  }

  /** Cents that read as a number are added to the first value; with
      Cents as float() of `0.` and the secondary value, this is the sum the
      card shows. */
  lemma {:induction false} SalePriceAddsCents(firstValue: string, secondaryValue: string, first: real, cents: real)
    requires FirstValue(firstValue) == Some(first)
    requires ParseFloat("0." + Strip(secondaryValue)) == Some(cents)
    ensures SalePrice(firstValue, Some(secondaryValue)) == Some(first + cents)
  {
    assert Cents(Strip(secondaryValue)) == Some(cents) by {
      CentsIsFloat(secondaryValue);
    }
  }

  /** A secondary value that is not a number leaves the first value alone. */
  lemma {:induction false} SalePriceIgnoresBadCents(firstValue: string, secondaryValue: string)
    requires !AllDigits(Strip(secondaryValue))
    ensures SalePrice(firstValue, Some(secondaryValue)) == SalePrice(firstValue, None)
  {
  }

  /** A first value of plain digits reads as the number they denote. */
  lemma {:induction false} FirstValueDigits(kronor: string)
    requires |kronor| >= 1 && AllDigits(kronor)
    ensures FirstValue(kronor) == Some(DigitsValue(kronor) as real)
  {
    StripAllDigits(kronor);
    RemovePairDigits(kronor);
    ParseFloatDigits(kronor);
  }

  /** A string of digits contains no `:-` to remove. */
  lemma {:induction false} RemovePairDigits(s: string)
    requires AllDigits(s)
    ensures RemovePair(s, ':', '-') == s
  {
    if s != [] {
      assert AllDigits(s[1..]);
      RemovePairDigits(s[1..]);
      assert [s[0]] + s[1..] == s;
    }
  }

  /** `35:-` as the first value: the `:-` is dropped before float(). */
  lemma {:induction false} FirstValueWholeKronor(kronor: string)
    requires |kronor| >= 1 && AllDigits(kronor)
    ensures FirstValue(kronor + ":-") == Some(DigitsValue(kronor) as real)
  {
    var t := kronor + ":-";
    assert !IsSpace(t[0]) by { assert t[0] == kronor[0]; }
    assert StripLeft(t) == t;
    assert Strip(t) == t;
    RemovePairTrailing(kronor);
    ParseFloatDigits(kronor);
  }

  lemma {:induction false} RemovePairTrailing(s: string)
    requires AllDigits(s)
    ensures RemovePair(s + ":-", ':', '-') == s
  {
    if s == [] {
      assert RemovePair([], ':', '-') == [];
    } else {
      assert (s + ":-")[1..] == s[1..] + ":-";
      RemovePairTrailing(s[1..]);
      assert [s[0]] + s[1..] == s;
    }
  }

  // ---------------- Quantity prefix ----------------

  predicate IsF(c: char) { c == 'f' || c == 'F' }
  predicate IsO(c: char) { c == 'o' || c == 'O' || c == 'ö' || c == 'Ö' }
  predicate IsR(c: char) { c == 'r' || c == 'R' }

  /** `\s*f[öo]r` at the start of `s`, in any case. */
  predicate ForAt(s: string)
  {
    if s != [] && IsSpace(s[0]) then ForAt(s[1..])
    else |s| >= 3 && IsF(s[0]) && IsO(s[1]) && IsR(s[2])
  }

  /** re.match(r"\s*(\d+)\s*f[öo]r", t, re.I): the number of a "2 för"
      prefix, read at the start only.  The greedy digit and space runs are
      the only way the pattern can match: a digit is never a space and never
      the letter f, so backing off a run cannot help. */
  function PrefixQuantity(t: string): (q: Option<nat>)
    ensures var u := t[SpacePrefixLength(t)..];
      var d := DigitPrefix(u);
      && (q.Some? <==> |d| >= 1 && ForAt(u[|d|..]))
      && (q.Some? ==> q.value == DigitsValue(d))
  {
    if t != [] && IsSpace(t[0]) then
      assert t[SpacePrefixLength(t)..] == t[1..][SpacePrefixLength(t[1..])..];
      PrefixQuantity(t[1..])
    else
      var d := DigitPrefix(t);
      if |d| >= 1 && ForAt(t[|d|..]) then Some(DigitsValue(d)) else None
  }

  /** The quantity the sale price is divided by: 1 without a prefix element
      or without a match. */
  function Quantity(prefix: Option<string>): (q: nat)
    ensures prefix.None? ==> q == 1
    ensures prefix.Some? && PrefixQuantity(Strip(prefix.value)).None? ==> q == 1
    ensures prefix.Some? && PrefixQuantity(Strip(prefix.value)).Some? ==>
      q == PrefixQuantity(Strip(prefix.value)).value
  {
    if prefix.None? then 1
    else
      var q := PrefixQuantity(Strip(prefix.value));
      if q.Some? then q.value else 1
  }

  /** Digits, spaces and `för` (in any case) read as the number the digits denote. */
  lemma {:induction false} PrefixQuantityReads(d: string, spaces: string, word: string, tail: string)
    requires |d| >= 1 && AllDigits(d)
    requires forall k :: 0 <= k < |spaces| ==> IsSpace(spaces[k])
    requires |word| == 3 && IsF(word[0]) && IsO(word[1]) && IsR(word[2])
    ensures PrefixQuantity(d + spaces + word + tail) == Some(DigitsValue(d))
  {
    var rest := spaces + (word + tail);
    var t := d + rest;
    assert d + spaces + word + tail == t;
    assert !IsSpace(t[0]) by { assert t[0] == d[0]; }
    assert t[SpacePrefixLength(t)..] == t;
    assert DigitPrefix(t) == d by {
      assert rest[0] == if spaces != [] then spaces[0] else word[0];
      DigitPrefixOf(d, rest);
    }
    assert ForAt(t[|d|..]) by {
      assert t[|d|..] == rest;
      ForAfterSpaces(spaces, word + tail);
    }
  }

  /** A prefix element reading "2 för" divides the sale price by two. */
  lemma {:induction false} QuantityOfPrefix(d: string, spaces: string, word: string)
    requires |d| >= 1 && AllDigits(d)
    requires forall k :: 0 <= k < |spaces| ==> IsSpace(spaces[k])
    requires |word| == 3 && IsF(word[0]) && IsO(word[1]) && IsR(word[2])
    ensures Quantity(Some(d + spaces + word)) == DigitsValue(d)
  {
    var p := d + spaces + word;
    assert Strip(p) == p by {
      assert p[0] == d[0] && p[|p| - 1] == word[2];
      StripUnchanged(p);
    }
    assert p + "" == p;
    PrefixQuantityReads(d, spaces, word, "");
  }

  /** Spaces before `för` are skipped. */
  lemma {:induction false} ForAfterSpaces(spaces: string, s: string)
    requires forall k :: 0 <= k < |spaces| ==> IsSpace(spaces[k])
    requires |s| >= 3 && IsF(s[0]) && IsO(s[1]) && IsR(s[2])
    ensures ForAt(spaces + s)
  {
    if spaces != [] {
      assert (spaces + s)[0] == spaces[0];
      assert (spaces + s)[1..] == spaces[1..] + s;
      ForAfterSpaces(spaces[1..], s);
    } else {
      assert spaces + s == s;
    }
  }

  lemma {:induction false} SpacePrefixOf(w: string, rest: string)
    requires forall k :: 0 <= k < |w| ==> IsSpace(w[k])
    requires rest == [] || !IsSpace(rest[0])
    ensures SpacePrefixLength(w + rest) == |w|
  {
    if w != [] {
      assert (w + rest)[0] == w[0];
      assert (w + rest)[1..] == w[1..] + rest;
      SpacePrefixOf(w[1..], rest);
    }
  }

  /** Without a leading number there is no quantity. */
  lemma {:induction false} PrefixNeedsNumber(t: string)
    requires t == [] || (!IsDigit(t[0]) && !IsSpace(t[0]))
    ensures PrefixQuantity(t) == None
  {
  }

  // ---------------- Ordinary price ----------------

  const Label: string := "Ord.pris"

  /** The characters of `[0-9:.\-]`. */
  predicate IsRangeChar(c: char) {
    IsDigit(c) || c == ':' || c == '.' || c == '-'
  }

  /** The longest prefix of range characters (what a greedy `[0-9:.\-]+` consumes). */
  function RangeCharPrefix(s: string): (g: string)
    ensures |g| <= |s| && g == s[..|g|]
    ensures forall k :: 0 <= k < |g| ==> IsRangeChar(g[k])
    ensures |g| == |s| || !IsRangeChar(s[|g|])
  {
    if s == [] || !IsRangeChar(s[0]) then [] else [s[0]] + RangeCharPrefix(s[1..])
  }

  /** `Ord.pris` is written at `i`. */
  predicate LabelAt(s: string, i: nat) {
    i + |Label| <= |s| && s[i..i + |Label|] == Label
  }

  /** Where the text after the label and its whitespace begins. */
  function AfterLabel(s: string, i: nat): (j: nat)
    requires LabelAt(s, i)
    ensures i + |Label| <= j <= |s|
  {
    i + |Label| + SpacePrefixLength(s[i + |Label|..])
  }

  /** `Ord\.pris\s+([0-9:.\-]+)` matches at `i`: the label, at least one
      whitespace character, and at least one range character.  Matching
      fewer spaces would leave a space where a range character must be. */
  predicate RangeMatchAt(s: string, i: nat) {
    && LabelAt(s, i)
    && AfterLabel(s, i) > i + |Label|
    && |RangeCharPrefix(s[AfterLabel(s, i)..])| >= 1
  }

  /** Group 1 of the range match at `i`. */
  function RangeGroup(s: string, i: nat): (g: string)
    requires RangeMatchAt(s, i)
    ensures |g| >= 1
  {
    RangeCharPrefix(s[AfterLabel(s, i)..])
  }

  /** The leftmost start of the range pattern from `i` on. */
  function RangeSearchFrom(s: string, i: nat): (r: Option<nat>)
    requires i <= |s|
    ensures r.Some? ==> i <= r.value && RangeMatchAt(s, r.value)
    ensures r.Some? ==> forall k :: i <= k < r.value ==> !RangeMatchAt(s, k)
    ensures r.None? ==> forall k :: i <= k < |s| ==> !RangeMatchAt(s, k)
    decreases |s| - i
  {
    if i == |s| then None
    else if RangeMatchAt(s, i) then Some(i)
    else RangeSearchFrom(s, i + 1)
  }

  /** `Ord\.pris\s+(\d+):(\d+)` matches at `i`. */
  predicate FallbackMatchAt(s: string, i: nat) {
    && LabelAt(s, i)
    && AfterLabel(s, i) > i + |Label|
    && var j := AfterLabel(s, i);
       var kronor := DigitPrefix(s[j..]);
       && |kronor| >= 1
       && j + |kronor| < |s|
       && s[j + |kronor|] == ':'
       && |DigitPrefix(s[j + |kronor| + 1..])| >= 1
  }

  /** The leftmost start of the fallback pattern from `i` on. */
  function FallbackSearchFrom(s: string, i: nat): (r: Option<nat>)
    requires i <= |s|
    ensures r.Some? ==> i <= r.value && FallbackMatchAt(s, r.value)
    ensures r.Some? ==> forall k :: i <= k < r.value ==> !FallbackMatchAt(s, k)
    ensures r.None? ==> forall k :: i <= k < |s| ==> !FallbackMatchAt(s, k)
    decreases |s| - i
  {
    if i == |s| then None
    else if FallbackMatchAt(s, i) then Some(i)
    else FallbackSearchFrom(s, i + 1)
  }

  /** Group 1 of the fallback match: the kronor digits. */
  function FallbackKronor(s: string, i: nat): (d: string)
    requires FallbackMatchAt(s, i)
    ensures AllDigits(d)
  {
    DigitPrefix(s[AfterLabel(s, i)..])
  }

  /** Group 2 of the fallback match: the öre digits after the colon. */
  function FallbackOre(s: string, i: nat): (d: string)
    requires FallbackMatchAt(s, i)
    ensures AllDigits(d)
  {
    DigitPrefix(s[AfterLabel(s, i) + |FallbackKronor(s, i)| + 1..])
  }

  /** float(group 1) + float(group 2) / 100 of the fallback match: at least
      the kronor, and below the next krona when the öre are two digits. */
  function FallbackValue(s: string, i: nat): (v: real)
    requires FallbackMatchAt(s, i)
    ensures DigitsValue(FallbackKronor(s, i)) as real <= v
    ensures |FallbackOre(s, i)| <= 2 ==> v < DigitsValue(FallbackKronor(s, i)) as real + 1.0
  {
    var ore := FallbackOre(s, i);
    assert |ore| <= 2 ==> DigitsValue(ore) < 100 by {
      if |ore| <= 2 {
        Pow10AtMost(|ore|, 2);
        assert Pow10(2) == 100;
      }
    }
    DigitsValue(FallbackKronor(s, i)) as real + DigitsValue(ore) as real / 100.0
  }

  /** The ordinary price of a card text: the mean of the range after the
      first `Ord.pris`, else the fallback pattern, else none. */
  function OrdinaryPrice(text: string): (r: Result<real, SkipReason>)
    ensures r == Err(NoOrdinaryPrice) <==> RangeSearchFrom(text, 0).None? && FallbackSearchFrom(text, 0).None?
    ensures r.Err? ==> r.error == NoOrdinaryPrice || r.error.UnparsableOrdinaryPrice?
  {
    var range := RangeSearchFrom(text, 0);
    if range.Some? then
      var avg := AvgPriceFromRange(RangeGroup(text, range.value));
      if avg.Ok? then Ok(avg.value) else Err(UnparsableOrdinaryPrice(avg.error))
    else
      var fallback := FallbackSearchFrom(text, 0);
      if fallback.Some? then Ok(FallbackValue(text, fallback.value)) else Err(NoOrdinaryPrice)
  }

  /** Wherever the fallback pattern matches, the range pattern matches too:
      digits and `:` are range characters. */
  lemma {:induction false} FallbackImpliesRange(s: string, i: nat)
    requires FallbackMatchAt(s, i)
    ensures RangeMatchAt(s, i)
  {
    var j := AfterLabel(s, i);
    assert IsDigit(DigitPrefix(s[j..])[0]);
    assert s[j..][0] == DigitPrefix(s[j..])[0];
  }

  /** So the fallback search never finds anything once the range search has
      failed: the second pattern is dead code. */
  lemma {:induction false} FallbackUnreachable(s: string)
    requires RangeSearchFrom(s, 0).None?
    ensures FallbackSearchFrom(s, 0).None?
  {
    var f := FallbackSearchFrom(s, 0);
    if f.Some? {
      FallbackImpliesRange(s, f.value);
      assert false;
    }
  }

  /** The ordinary price is the mean of the first range, or there is none. */
  lemma {:induction false} OrdinaryPriceIsRangeMean(text: string)
    ensures RangeSearchFrom(text, 0).None? ==> OrdinaryPrice(text) == Err(NoOrdinaryPrice)
    ensures RangeSearchFrom(text, 0).Some? ==>
      var avg := AvgPriceFromRange(RangeGroup(text, RangeSearchFrom(text, 0).value));
      && (avg.Ok? <==> OrdinaryPrice(text).Ok?)
      && (avg.Ok? ==> OrdinaryPrice(text).value == avg.value)
  {
    if RangeSearchFrom(text, 0).None? {
      FallbackUnreachable(text);
    }
  }

  /** A text that starts with the label, whitespace and a range reads that range. */
  lemma {:induction false} LabelledRange(spaces: string, range: string, tail: string)
    requires |spaces| >= 1 && forall k :: 0 <= k < |spaces| ==> IsSpace(spaces[k])
    requires |range| >= 1 && forall k :: 0 <= k < |range| ==> IsRangeChar(range[k])
    requires tail == [] || !IsRangeChar(tail[0])
    ensures var s := Label + spaces + range + tail;
      RangeSearchFrom(s, 0) == Some(0) && RangeGroup(s, 0) == range
  {
    var s := Label + spaces + range + tail;
    var rest := range + tail;
    var u := spaces + rest;
    assert s == Label + u;
    assert s[|Label|..] == u;
    assert LabelAt(s, 0) by {
      assert s[0..|Label|] == Label;
    }
    assert AfterLabel(s, 0) == |Label| + |spaces| by {
      assert !IsSpace(range[0]);
      SpacePrefixOf(spaces, rest);
    }
    assert RangeCharPrefix(s[|Label| + |spaces|..]) == range by {
      assert s[|Label| + |spaces|..] == u[|spaces|..] == rest;
      RangeCharPrefixOf(range, tail);
    }
    assert RangeMatchAt(s, 0);
    assert RangeGroup(s, 0) == range;
  }

  lemma {:induction false} RangeCharPrefixOf(g: string, rest: string)
    requires forall k :: 0 <= k < |g| ==> IsRangeChar(g[k])
    requires rest == [] || !IsRangeChar(rest[0])
    ensures RangeCharPrefix(g + rest) == g
  {
    if g != [] {
      assert (g + rest)[0] == g[0];
      assert (g + rest)[1..] == g[1..] + rest;
      RangeCharPrefixOf(g[1..], rest);
    }
  }

  // ---------------- Brand and unit ----------------

  /** text.split('.')[0]: the text up to its first point. */
  function Brand(text: string): (b: string)
    ensures '.' !in b
  {
    Split(text, '.')[0]
  }

  /** The brand is the whole text before the first point. */
  lemma {:induction false} BrandBeforePoint(text: string, k: nat)
    requires k <= |text| && '.' !in text[..k] && (k == |text| || text[k] == '.')
    ensures Brand(text) == text[..k]
  {
    SplitHead(text, '.', k);
  }

  /** The unit: the suffix without leading `/`, or "st" without a suffix. */
  function UnitOf(suffix: Option<string>): (u: string)
    ensures suffix.None? ==> u == "st"
    ensures suffix.Some? ==>
      var t := Strip(suffix.value);
      && |u| <= |t| && u == t[|t| - |u|..]
      && (forall k :: 0 <= k < |t| - |u| ==> t[k] == '/')
      && (u == [] || u[0] != '/')
  {
    if suffix.None? then "st" else StripLeftChar(Strip(suffix.value), '/')
  }

  // ---------------- One card ----------------

  /** The body of the loop for one card, in the order the source evaluates it. */
  function ExtractArticle(a: Article): (r: Result<Offer, SkipReason>)
    ensures r.Ok? <==>
      && a.title.Some? && a.firstValue.Some? && a.text.Some?
      && SalePrice(a.firstValue.value, a.secondaryValue).Some?
      && Quantity(a.prefix) >= 1
      && OrdinaryPrice(Strip(a.text.value)).Ok?
      && OrdinaryPrice(Strip(a.text.value)).value != 0.0
    ensures r.Ok? ==>
      && r.value.store == "ICA"
      && r.value.name == Strip(a.title.value)
      && r.value.brand == Some(Brand(Strip(a.text.value)))
      && r.value.unit == UnitOf(a.suffix)
  {
    if a.title.None? then Err(MissingTitle)
    else
      var name := Strip(a.title.value);
      if a.firstValue.None? then Err(MissingFirstValue)
      else
        var sale := SalePrice(a.firstValue.value, a.secondaryValue);
        if sale.None? then Err(UnparsableSalePrice)
        else
          var qty := Quantity(a.prefix);
          if qty == 0 then Err(ZeroQuantity)
          else
            var perUnit := sale.value / qty as real;
            if a.text.None? then Err(MissingText)
            else
              var text := Strip(a.text.value);
              var ordinary := OrdinaryPrice(text);
              if ordinary.Err? then Err(ordinary.error)
              else
                var offer := IcaCrawler.CreateOffer(name, perUnit, ordinary.value, UnitOf(a.suffix), Some(Brand(text)));
                if offer.Err? then Err(DivisionByZeroOrdinary) else Ok(offer.value)
  }

  /** The prices of an extracted offer: the sale price divided by the
      quantity and the ordinary price, both to within the rounding to öre,
      and the percentage from the unrounded pair. */
  lemma {:induction false} ExtractedPrices(a: Article)
    requires ExtractArticle(a).Ok?
    ensures a.firstValue.Some? && a.text.Some?
    ensures SalePrice(a.firstValue.value, a.secondaryValue).Some?
    ensures Quantity(a.prefix) >= 1
    ensures OrdinaryPrice(Strip(a.text.value)).Ok?
    ensures var o := ExtractArticle(a).value;
      var sale := SalePrice(a.firstValue.value, a.secondaryValue).value / Quantity(a.prefix) as real;
      var ordinary := OrdinaryPrice(Strip(a.text.value)).value;
      && ordinary != 0.0
      && sale - 0.005 <= o.salePrice <= sale + 0.005
      && ordinary - 0.005 <= o.ordinaryPrice <= ordinary + 0.005
      && OnHundredths(o.salePrice) && OnHundredths(o.ordinaryPrice)
      && Discount(sale, ordinary) - 0.05 <= o.pctOff <= Discount(sale, ordinary) + 0.05
      && OnTenths(o.pctOff)
  {
  }

  /** A "0 för" prefix divides by zero, so the card is skipped. */
  lemma {:induction false} ZeroQuantitySkips(a: Article)
    requires a.title.Some? && a.firstValue.Some?
    requires SalePrice(a.firstValue.value, a.secondaryValue).Some?
    requires Quantity(a.prefix) == 0
    ensures ExtractArticle(a) == Err(ZeroQuantity)
  {
  }

  /** A card whose text has no ordinary price is skipped. */
  lemma {:induction false} NoOrdinaryPriceSkips(a: Article)
    requires a.title.Some? && a.firstValue.Some? && a.text.Some?
    requires SalePrice(a.firstValue.value, a.secondaryValue).Some?
    requires Quantity(a.prefix) >= 1
    requires OrdinaryPrice(Strip(a.text.value)).Err?
    ensures ExtractArticle(a).Err?
  {
  }

  /** A plain card: "Kaffe", a `35:-` splash without öre or prefix, no unit
      suffix, and the text "Ord.pris 39:90".  It is kept at 35 kronor against
      39.90, 12.3 percent off, per piece, with the text before the first
      point as the brand. */
  lemma {:induction false} PlainCardExample()
    ensures ExtractArticle(Article(Some("Kaffe"), Some("35:-"), None, None, Some("Ord.pris 39:90"), None))
      == Ok(Offer("ICA", "Kaffe", Some("Ord"), 35.0, 39.9, 12.3, "st"))
  {
    var a := Article(Some("Kaffe"), Some("35:-"), None, None, Some("Ord.pris 39:90"), None);
    assert Strip(a.title.value) == "Kaffe" by { StripUnchanged("Kaffe"); }
    assert Strip(a.text.value) == "Ord.pris 39:90" by { StripUnchanged("Ord.pris 39:90"); }
    assert SalePrice(a.firstValue.value, a.secondaryValue) == Some(35.0) by { CardSalePrice(); }
    assert OrdinaryPrice("Ord.pris 39:90") == Ok(39.9) by { CardOrdinaryPrice(); }
    assert Brand("Ord.pris 39:90") == "Ord" by { CardBrand(); }
    KeptCard(a, "Kaffe", 35.0, 39.9, "Ord");
    CardOffer();
  }

  /** A card read with a quantity of one and a non-zero ordinary price
      becomes the normalised offer of its name, prices and brand. */
  lemma {:induction false} KeptCard(a: Article, name: string, sale: real, ordinary: real, brand: string)
    requires a.title.Some? && Strip(a.title.value) == name
    requires a.firstValue.Some? && SalePrice(a.firstValue.value, a.secondaryValue) == Some(sale)
    requires a.prefix.None?
    requires a.text.Some? && OrdinaryPrice(Strip(a.text.value)) == Ok(ordinary) && ordinary != 0.0
    requires Brand(Strip(a.text.value)) == brand
    ensures ExtractArticle(a) == Ok(IcaCrawler.CreateOffer(name, sale / 1.0, ordinary, UnitOf(a.suffix), Some(brand)).value)
  {
    assert Quantity(a.prefix) == 1;
    var offer := IcaCrawler.CreateOffer(name, sale / 1.0, ordinary, UnitOf(a.suffix), Some(brand));
    assert offer.Ok?;
  }

  lemma {:induction false} CardBrand()
    ensures Brand("Ord.pris 39:90") == "Ord"
  {
    var text := "Ord.pris 39:90";
    assert text[..3] == "Ord";
    assert text[3] == '.';
    assert '.' !in text[..3];
    BrandBeforePoint(text, 3);
  }

  lemma {:induction false} CardSalePrice()
    ensures SalePrice("35:-", None) == Some(35.0)
  {
    assert "35:-" == "35" + ":-";
    Krona35();
    FirstValueWholeKronor("35");
  }

  lemma {:induction false} CardOrdinaryPrice()
    ensures OrdinaryPrice("Ord.pris 39:90") == Ok(39.9)
  {
    var text := "Ord.pris 39:90";
    assert RangeSearchFrom(text, 0) == Some(0) && RangeGroup(text, 0) == "39:90" by {
      assert Label + " " + "39:90" + "" == text;
      assert forall k :: 0 <= k < |"39:90"| ==> IsRangeChar("39:90"[k]);
      LabelledRange(" ", "39:90", "");
    }
    assert AvgPriceFromRange("39:90") == Ok(39.9) by {
      assert '-' !in "39:90";
      SinglePriceRange("39:90");
      Price3990();
    }
  }

  lemma {:induction false} CardOffer()
    ensures IcaCrawler.CreateOffer("Kaffe", 35.0 / 1.0, 39.9, "st", Some("Ord"))
      == Ok(Offer("ICA", "Kaffe", Some("Ord"), 35.0, 39.9, 12.3, "st"))
  {
    assert Round2(35.0) == 35.0 by {
      RoundHalfEvenOfInt(3500);
    }
    assert Round2(39.9) == 39.9 by {
      RoundHalfEvenOfInt(3990);
    }
    assert Round1(Discount(35.0, 39.9)) == 12.3 by {
      var y := 10.0 * Discount(35.0, 39.9);
      assert y == 49000.0 / 399.0;
      assert y.Floor == 122;
    }
  }

  // ---------------- All cards ----------------

  /** The offers of the cards, in card order, skipped cards left out. */
  function ExtractAll(articles: seq<Article>): (offers: seq<Offer>)
    ensures |offers| <= |articles|
  {
    if articles == [] then []
    else
      var last := ExtractArticle(articles[|articles| - 1]);
      ExtractAll(articles[..|articles| - 1]) + (if last.Ok? then [last.value] else [])
  }

  /** The loop of fetch_offers over the cards of the page. */
  method FetchOffers(articles: seq<Article>) returns (offers: seq<Offer>)
    ensures offers == ExtractAll(articles)
  {
    offers := [];
    var i := 0;
    while i < |articles|
      invariant 0 <= i <= |articles|
      invariant offers == ExtractAll(articles[..i])
    {
      assert articles[..i + 1] == articles[..i] + [articles[i]];
      ExtractAllAppend(articles[..i], articles[i]);
      var r := ExtractArticle(articles[i]);
      if r.Ok? {
        offers := offers + [r.value];
      }
      i := i + 1;
    }
    assert articles[..|articles|] == articles;
  }

  /** Cards are read independently: the offers of two runs of cards are
      the offers of each run, one after the other. */
  lemma {:induction false} ExtractAllConcat(xs: seq<Article>, ys: seq<Article>)
    ensures ExtractAll(xs + ys) == ExtractAll(xs) + ExtractAll(ys)
    decreases |ys|
  {
    if ys == [] {
      assert xs + ys == xs;
    } else {
      var init := ys[..|ys| - 1];
      assert (xs + ys)[..|xs + ys| - 1] == xs + init;
      assert (xs + ys)[|xs + ys| - 1] == ys[|ys| - 1];
      ExtractAllConcat(xs, init);
    }
  }

  /** Every offer comes from one card, in order, and carries the ICA store
      name. */
  lemma {:induction false} ExtractAllFromCards(articles: seq<Article>)
    ensures forall o :: o in ExtractAll(articles) ==>
      o.store == "ICA" && exists k :: 0 <= k < |articles| && ExtractArticle(articles[k]) == Ok(o)
  {
    if articles != [] {
      var init := articles[..|articles| - 1];
      ExtractAllFromCards(init);
      forall o | o in ExtractAll(articles)
        ensures o.store == "ICA" && exists k :: 0 <= k < |articles| && ExtractArticle(articles[k]) == Ok(o)
      {
        if o in ExtractAll(init) {
          var k :| 0 <= k < |init| && ExtractArticle(init[k]) == Ok(o);
          assert articles[k] == init[k];
        } else {
          assert ExtractArticle(articles[|articles| - 1]) == Ok(o);
        }
      }
    }
  }

  /** A card that is skipped contributes nothing; one that is read
      contributes exactly its offer. */
  lemma {:induction false} ExtractAllAppend(articles: seq<Article>, a: Article)
    ensures ExtractArticle(a).Err? ==> ExtractAll(articles + [a]) == ExtractAll(articles)
    ensures ExtractArticle(a).Ok? ==> ExtractAll(articles + [a]) == ExtractAll(articles) + [ExtractArticle(a).value]
  {
    assert (articles + [a])[..|articles|] == articles;
  }
}
