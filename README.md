# Grocery offers: price parsing, offer normalisation, caching and ranking

This project models the offer pipeline of the groceries web page in Dafny.
The page collects the current offers of two Swedish stores, ICA and Coop.
It turns each offer into one `Offer` record and shows them all, largest
discount first.

The model covers these parts:

- **Text** (`text.dfy`). The Python string primitives the crawlers rely on:
  - `str.strip` and `str.lstrip(c)`;
  - `str.replace` of one character and of `:-`;
  - `str.split` on one character;
  - the decimal digits that `\d` and `int()` accept;
  - the subset of `float()` literals the pages use.
- **Offers** (`offer.dfy`). The `Offer` record and the base crawler's
  `_create_offer`.
  - Python's `round` is exact round-half-even on `real`.
  - A zero ordinary price is the `ZeroDivisionError` of the percentage, an
    error value.
- **PriceText** (`price.dfy`). The Swedish price parser
  `_price_text_to_float` and the range averager `_avg_price_from_range`.
  - The regular expression `(\d+)(?::|\.)(\d+)?` becomes the leftmost
    position with a whole digit run followed by `:` or `.`.
- **Ica** (`ica.dfy`). The ICA crawler's loop body for one offer card and
  the loop over all cards, `FetchOffers`. That loop is a `method` proved
  equal to `ExtractAll`.
  - A card is the texts of the page elements the crawler looks up.
  - An element missing from the card is `None`, where the browser's
    `find_element` would raise.
  - Every exception inside the loop body skips the card.
- **Coop** (`coop.dfy`). The Coop crawler's nested walk over the decoded
  JSON feed. The nested loop is a `method` proved equal to `FeedOffers`.
  - JSON objects are records whose keys may be missing.
  - A missing key that the code reads with `[...]` ends the whole fetch,
    which is returned as an error.
- **TimedCache** (`cache.dfy`). The `timed_lru_cache` decorator, in two
  forms:
  - the pure state machine `Step`;
  - the class `Cache`, whose `Call` method updates the expiration and
    memo fields, keeps the lifetime, and is proved to make that step.
  - The clock is a parameter.
- **Ranking** (`ranking.dfy`). The front page's
  `sorted(coop + ica, key=pct_off, reverse=True)`, written as a stable
  insertion sort.
  - It is proved to be a permutation, sorted and stable.
  - It is the only list with all three properties.

Behaviour of the code worth knowing, as the model states it:

- With ASCII digits, the fallback pattern `Ord.pris (\d+):(\d+)` of the
  ICA crawler cannot match when the range pattern `Ord.pris ([0-9:.\-]+)`
  has not: ASCII digits and `:` are range characters
  (`Ica.FallbackUnreachable`). With other Unicode decimal digits, such as
  fullwidth `３９:９０`, only the fallback matches, since `[0-9]` is ASCII
  while `\d` and `float()` are not; the model reads ASCII digits only (see
  "Left out").
- The range averager splits on every `-`. So an ordinary price written as
  `Ord.pris 29:-` becomes the pieces `29:` and an empty piece. The empty
  piece does not parse, and the card is skipped
  (`PriceText.RangeExampleTrailingDash`).
  - The `:-` notation is only understood by the single-price parser, as in
    `PriceText.ParsePriceWholeKronor`.
  - The model follows the code here.
- A `0 för` prefix divides the sale price by zero, so the card is skipped
  (`Ica.ZeroQuantitySkips`).
- `pct_off` is computed from the unrounded prices. A percentage recomputed
  from the stored, rounded prices can differ
  (`Offers.PctOffFromUnroundedPrices`).

## Model

| member | source | states |
|---|---|---|
| Text.Strip | crawlers/ica.py:82 | the stripped text neither starts nor ends with whitespace |
| Text.StripIsBothEnds | crawlers/ica.py:82 | `strip()` is `lstrip()` then `rstrip()`: the text after its leading whitespace, cut before its trailing whitespace |
| Text.StripKeepsAbsent | crawlers/ica.py:86 | stripping adds no character |
| Text.StripUnchanged | crawlers/ica.py:82 | a text with no whitespace at either end is its own strip |
| Text.StripLeft | crawlers/ica.py:82 | the result is a suffix of the input, everything removed is whitespace and the result does not start with whitespace |
| Text.StripRight | crawlers/ica.py:82 | the result is a prefix of the input, everything removed is whitespace and the result does not end with whitespace |
| Text.StripLeftChar | crawlers/ica.py:128 | `lstrip("/")` removes exactly the leading run of `/`: the result is a suffix, the removed part is all `/`, and the result does not start with `/` |
| Text.RemoveChar | crawlers/ica.py:39 | after `replace(" ", "")` no space is left and the text is no longer |
| Text.RemoveCharConcat | crawlers/ica.py:39 | `replace(" ", "")` works character by character: it distributes over concatenation, drops each space and keeps every other character |
| Text.RemoveCharAbsent | crawlers/ica.py:39 | removing a character the text does not contain changes nothing |
| Text.RemovePair | crawlers/ica.py:86 | `replace(":-", "")` never lengthens the text |
| Text.RemovePairFirst | crawlers/ica.py:86 | the first `:-` of a text is removed, the text before it kept (including any `:` not followed by `-`), and the rest treated the same way |
| Text.RemovePairLoneFirst | crawlers/ica.py:86 | a `:` not followed by `-` is kept in front of the rest |
| Text.RemovePairKeeps | crawlers/ica.py:86 | a character other than `:` is kept in front of the rest |
| Text.RemovePairAbsent | crawlers/ica.py:86 | a text without `:` is unchanged |
| Text.Split | crawlers/ica.py:48 | `split(sep)` gives at least one piece and no piece contains the separator |
| Text.JoinSplit | crawlers/ica.py:48 | joining the pieces with the separator gives back the text: the pieces are the text cut at every separator |
| Text.SplitAbsent | crawlers/ica.py:48 | a text without the separator is one piece |
| Text.SplitAt | crawlers/ica.py:48 | the first separator ends the first piece and the rest is split the same way |
| Text.SplitTrailing | crawlers/ica.py:48 | a trailing separator gives an empty last piece |
| Text.SplitHead | crawlers/ica.py:122 | the first piece is the text before the first separator, or the whole text |
| Text.DigitPrefix | crawlers/ica.py:35 | the greedy `\d+` run: a prefix of digits followed by a non-digit or the end |
| Text.DigitPrefixOf | crawlers/ica.py:35 | digits followed by a non-digit are exactly the run `\d+` consumes |
| Text.SpacePrefixLength | crawlers/ica.py:99 | the greedy `\s*` run: leading whitespace followed by a non-space or the end |
| Text.Pow10AtMost | crawlers/ica.py:101 | powers of ten grow with the exponent |
| Text.DigitsValue | crawlers/ica.py:101 | `int()` of n digits is below 10^n |
| Text.DigitsValueOfNatToDigits | crawlers/ica.py:101 | `int()` of the decimal rendering of a number is that number (round trip) |
| Text.FractionValue | crawlers/ica.py:44 | the öre digits after a decimal point are a fraction in [0, 1) |
| Text.Decimal | crawlers/ica.py:44 | `float(f"{krona}.{ore}")` lies in [krona, krona + 1) |
| Text.ParseFloatStrips | crawlers/ica.py:87 | `float()` ignores surrounding whitespace: it reads the stripped literal |
| Text.ParseFloatDigits | crawlers/ica.py:87 | `float()` of a digit string is the integer it denotes |
| Text.UnsignedIsSigned | crawlers/ica.py:87 | a literal without a sign is read as the unsigned literal |
| Text.ParseUnsignedDigits | crawlers/ica.py:87 | an unsigned literal of digits only is the integer they denote |
| Text.StripAllDigits | crawlers/ica.py:86 | stripping a digit string leaves it unchanged |
| Text.ParseFloatAfterPoint | crawlers/ica.py:91 | `float("0." + s)` is the fraction 0.s when s is digits (0.0 when s is empty), and an error otherwise |
| Offers.RoundHalfEven | crawlers/Crawler.py:40 | the nearest integer, with ties to the even neighbour |
| Offers.RoundHalfEvenMonotone | crawlers/Crawler.py:40 | rounding is monotone |
| Offers.RoundHalfEvenOfInt | crawlers/Crawler.py:40 | an integer rounds to itself |
| Offers.Round1 | crawlers/Crawler.py:40 | `round(x, 1)` is on the 0.1 grid and within 0.05 of x |
| Offers.Round2 | crawlers/Crawler.py:45-46 | `round(x, 2)` is on the 0.01 grid and within 0.005 of x |
| Offers.Round1Monotone | crawlers/Crawler.py:40 | rounding to one decimal is monotone |
| Offers.Round1Zero | crawlers/Crawler.py:40 | zero rounds to zero |
| Offers.QuotientFacts | crawlers/Crawler.py:40 | the saving relative to a positive ordinary price is non-negative exactly when the sale price is not above it, and is one for a free item |
| Offers.Discount | crawlers/Crawler.py:40 | for a positive ordinary price the percentage is ≥ 0 exactly when the sale price is not above it; a free item is 100 % off and equal prices are 0 % off |
| Offers.Crawler.CreateOffer | crawlers/Crawler.py:20-49 | an error exactly when the ordinary price is zero; otherwise the store is the crawler's name, name, brand and unit pass through, both stored prices are on the 0.01 grid within 0.005 of the given prices, and `pct_off` is on the 0.1 grid within 0.05 of the unrounded discount |
| Offers.CreateOfferDefaults | crawlers/Crawler.py:25-26 | without unit and brand the offer has unit "st" and no brand |
| Offers.PctOffSign | crawlers/Crawler.py:40 | for a positive ordinary price `pct_off` is not clamped: 0 at equal prices, ≥ 0 when the sale price is not above the ordinary price, ≤ 0 when it is not below, and negative once the discount is below -0.05 % |
| Offers.PctOffFromUnroundedPrices | crawlers/Crawler.py:40-46 | `pct_off` comes from the unrounded prices: 0.994 of 1.0 gives 0.6 % while the stored prices give 1.0 % |
| PriceText.OnlyMatchIsWholeRun | crawlers/ica.py:35 | a whole digit run followed by `:` or `.` is a match of the price pattern, with that run as group 1 |
| PriceText.PriceMatch | crawlers/ica.py:40 | `search` finds the leftmost match, and none only when no position matches |
| PriceText.PriceMatchFrom | crawlers/ica.py:40 | the leftmost match at or after a position |
| PriceText.Krona | crawlers/ica.py:43 | group 1 is at least one digit |
| PriceText.Ore | crawlers/ica.py:43 | group 2 is digits, possibly none (the group did not take part) |
| PriceText.ParsePrice | crawlers/ica.py:37-44 | a parsed price lies in [krona, krona + 1) for the krona of the first match in the text without spaces |
| PriceText.ParsePriceFails | crawlers/ica.py:39-42 | the parser fails exactly when no position of the space-free text matches |
| PriceText.NoSeparatorNoPrice | crawlers/ica.py:40-42 | a text without `:` and `.` does not parse |
| PriceText.ParsePriceNeedsSeparator | crawlers/ica.py:40-42 | "35" does not parse |
| PriceText.WrittenMatchesAtStart | crawlers/ica.py:35 | krona digits, a separator and öre digits match at the start with those groups |
| PriceText.ParseWrittenPrice | crawlers/ica.py:37-44 | krona digits, `:` or `.`, öre digits and a tail that starts with no digit parse as krona + 0.öre |
| PriceText.ParseWrittenAmount | crawlers/ica.py:37-44 | any whole number written out with a separator parses back to that number plus the öre fraction (round trip) |
| PriceText.ParseMatchAtStart | crawlers/ica.py:43-44 | a space-free text that matches at 0 parses as the krona and öre groups of that match |
| PriceText.ParsePriceWholeKronor | crawlers/ica.py:35 | "35:-" parses as 35 |
| PriceText.ParsePriceColon | crawlers/ica.py:38 | "35:90" parses as 35.9 |
| PriceText.ParsePricePoint | crawlers/ica.py:38 | "35.90" parses as 35.9 |
| PriceText.ParsePriceOneOreDigit | crawlers/ica.py:44 | "35:9" parses as 35.9: the öre digits are a decimal fraction |
| PriceText.ParsePriceLeadingZeroOre | crawlers/ica.py:44 | "35:09" parses as 35.09 |
| PriceText.ParseAll | crawlers/ica.py:49 | the pieces' prices, one per piece, failing exactly when some piece fails |
| PriceText.Min | crawlers/ica.py:50 | a helper the code does not have, giving the bound of `AvgWithinPieces` on `sum(prices) / len(prices)`: the least element |
| PriceText.Max | crawlers/ica.py:50 | a helper the code does not have, giving the bound of `AvgWithinPieces` on `sum(prices) / len(prices)`: the greatest element |
| PriceText.CountIsLength | crawlers/ica.py:50 | `len(prices)` counts the elements |
| PriceText.SumBounds | crawlers/ica.py:50 | `sum` of values in [lo, hi] lies between count·lo and count·hi |
| PriceText.MeanWithin | crawlers/ica.py:50 | the mean of values in [lo, hi] lies in [lo, hi] |
| PriceText.MeanBetween | crawlers/ica.py:50 | the mean lies between the minimum and the maximum |
| PriceText.AvgPriceFromRange | crawlers/ica.py:46-50 | fails exactly when some `-`-separated piece fails to parse; otherwise every piece has a price |
| PriceText.AvgWithinPieces | crawlers/ica.py:46-50 | the range's price lies between the least and the greatest piece price |
| PriceText.SinglePriceRange | crawlers/ica.py:48-50 | a text without `-` is averaged to its own price |
| PriceText.TwoEndpointRange | crawlers/ica.py:46-50 | `a-b` averages to the midpoint of the two prices |
| PriceText.TrailingDashFails | crawlers/ica.py:48-49 | a trailing `-` leaves an empty piece, which raises |
| PriceText.Price3990 | crawlers/ica.py:37-44 | "39:90" parses as 39.9 |
| PriceText.RangeExampleMean | crawlers/ica.py:47 | "38:90-50:90" averages to 44.9 |
| PriceText.RangeExampleTrailingDash | crawlers/ica.py:48-49 | "29:-" as a range fails |
| Ica.Cents | crawlers/ica.py:91 | the secondary value's cents are in [0, 1) |
| Ica.CentsIsFloat | crawlers/ica.py:91 | Cents is `float("0." + secondary.strip())` |
| Ica.SalePrice | crawlers/ica.py:85-93 | the sale price exists exactly when the first value reads; it lies in [first value, first value + 1), and is the first value when there is no secondary value |
| Ica.SalePriceAddsCents | crawlers/ica.py:85-93 | when both parts read, the sale price is the first value plus `float("0." + secondary)` |
| Ica.SalePriceIgnoresBadCents | crawlers/ica.py:89-93 | a secondary value that raises is ignored |
| Ica.FirstValueWithoutColon | crawlers/ica.py:86-87 | a first value without `:` reads exactly as `float()` of its text |
| Ica.FirstValueDigits | crawlers/ica.py:86-87 | a first value of plain digits reads as its integer |
| Ica.FirstValueWholeKronor | crawlers/ica.py:86-87 | "35:-" as the first value reads as 35 once `:-` is removed |
| Ica.RemovePairTrailing | crawlers/ica.py:86 | removing `:-` from digits followed by `:-` leaves the digits |
| Ica.PrefixQuantity | crawlers/ica.py:99-101 | after the leading whitespace, a match exactly when a non-empty digit run is followed by `för`; the quantity is the number those digits denote |
| Ica.Quantity | crawlers/ica.py:96-103 | 1 without a prefix element and 1 when the stripped prefix does not match; otherwise the matched number |
| Ica.QuantityOfPrefix | crawlers/ica.py:96-103 | a prefix element reading digits, whitespace and `för` gives the number the digits denote |
| Ica.PrefixQuantityReads | crawlers/ica.py:99-101 | digits, optional whitespace and `för`/`for` in any case give the number the digits denote |
| Ica.PrefixNeedsNumber | crawlers/ica.py:99-100 | a prefix not starting with whitespace or a digit gives no quantity |
| Ica.RangeCharPrefix | crawlers/ica.py:109 | the greedy `[0-9:.\-]+` run |
| Ica.AfterLabel | crawlers/ica.py:109 | the position after `Ord.pris` and its whitespace lies within the text |
| Ica.RangeGroup | crawlers/ica.py:118 | group 1 of the range match is non-empty |
| Ica.RangeSearchFrom | crawlers/ica.py:109 | the leftmost range match, and none only when no position matches |
| Ica.FallbackSearchFrom | crawlers/ica.py:112 | the leftmost fallback match, and none only when no position matches |
| Ica.FallbackKronor | crawlers/ica.py:112 | group 1 of the fallback match is digits |
| Ica.FallbackOre | crawlers/ica.py:112 | group 2 of the fallback match is digits |
| Ica.FallbackValue | crawlers/ica.py:116 | the fallback price is at least its kronor, and below the next krona when the öre are at most two digits |
| Ica.OrdinaryPrice | crawlers/ica.py:108-119 | "no ordinary price" exactly when neither pattern matches; every other failure is a range that does not parse |
| Ica.FallbackImpliesRange | crawlers/ica.py:109-112 | every fallback match is a range match at the same position |
| Ica.FallbackUnreachable | crawlers/ica.py:110-116 | with the ASCII digits the model reads, once the range search fails the fallback search fails too |
| Ica.OrdinaryPriceIsRangeMean | crawlers/ica.py:108-119 | no range match gives no ordinary price; otherwise the ordinary price is the range's average, failing exactly when it fails |
| Ica.LabelledRange | crawlers/ica.py:109 | `Ord.pris`, whitespace and range characters match at 0 with the range as group 1 |
| Ica.Brand | crawlers/ica.py:122 | the brand contains no `.` |
| Ica.BrandBeforePoint | crawlers/ica.py:122 | the brand is the whole text before the first `.` |
| Ica.UnitOf | crawlers/ica.py:125-130 | "st" without a suffix; otherwise the stripped suffix minus exactly its leading `/` run |
| Ica.ExtractArticle | crawlers/ica.py:79-145 | a card is kept exactly when it has a title, a first value that reads, a quantity ≥ 1, a text and a non-zero ordinary price; a kept card has store "ICA", the stripped title, the brand before the first `.` and the card's unit |
| Ica.ExtractedPrices | crawlers/ica.py:105-140 | a kept card's sale price is the sale price divided by a quantity ≥ 1 and its ordinary price the text's price, both on the 0.01 grid within 0.005, and `pct_off` their unrounded discount on the 0.1 grid within 0.05 |
| Ica.KeptCard | crawlers/ica.py:79-140 | a card without prefix, with its name, sale price, non-zero ordinary price and brand read, becomes the normalised offer of those values |
| Ica.PlainCardExample | crawlers/ica.py:79-140 | "Kaffe" at `35:-` with "Ord.pris 39:90" is kept at 35 against 39.9, 12.3 % off, unit "st", brand "Ord" |
| Ica.CardBrand | crawlers/ica.py:122 | the brand of "Ord.pris 39:90" is "Ord" |
| Ica.CardSalePrice | crawlers/ica.py:85-93 | `35:-` without öre reads as 35 |
| Ica.CardOrdinaryPrice | crawlers/ica.py:108-119 | "Ord.pris 39:90" has the ordinary price 39.9 |
| Ica.CardOffer | crawlers/Crawler.py:40-46 | 35 against 39.9 is stored as 35 and 39.9 with 12.3 % off |
| Ica.ZeroQuantitySkips | crawlers/ica.py:105 | quantity 0 skips the card |
| Ica.NoOrdinaryPriceSkips | crawlers/ica.py:110-115 | a card without an ordinary price is skipped |
| Ica.ExtractAll | crawlers/ica.py:78-145 | no more offers than cards |
| Ica.FetchOffers | crawlers/ica.py:78-145 | the loop returns the offers of the kept cards, in card order |
| Ica.ExtractAllConcat | crawlers/ica.py:78 | cards are read independently: the offers of two runs of cards are concatenated in order |
| Ica.ExtractAllFromCards | crawlers/ica.py:132-140 | every offer carries "ICA" and is the offer of one of the cards |
| Ica.ExtractAllAppend | crawlers/ica.py:141-145 | a skipped card adds nothing and later cards are still read; a kept card adds exactly its offer |
| Coop.SaleValue | crawlers/CoopCrawler.py:31-36 | when the minimum amount is truthy and above 1 and the discount is not per item, the sale value times the minimum amount is the discount value (missing discount: error); otherwise the discount value unchanged |
| Coop.ReadOffer | crawlers/CoopCrawler.py:29-47 | a missing priceInformation raises, and so does a missing discount value under the division; an emitted offer has a truthy ordinary price, a truthy sale value, a content and a title |
| Coop.ReadOfferEmits | crawlers/CoopCrawler.py:38-47 | an emitted offer carries "Coop", the title, the brand and the unit (default ""), from non-zero prices; its prices are on the 0.01 grid within 0.005 and `pct_off` on the 0.1 grid within 0.05 of the unrounded discount |
| Coop.ReadOfferEmitsWhenTruthy | crawlers/coop.py:55-58 | with both prices truthy the entry is emitted, or raises for a missing content or title; otherwise it is passed over |
| Coop.MultiBuyExample | crawlers/coop.py:52-53 | 30 kr for 2 items is 15 each, but stays 30 for a per-item price or a minimum of 1; a missing discount under division raises |
| Coop.ReadOffers | crawlers/CoopCrawler.py:28-47 | no more offers than entries, each carrying "Coop" |
| Coop.ReadCategories | crawlers/CoopCrawler.py:27-48 | every offer of the categories carries "Coop" |
| Coop.ReadCategoriesLength | crawlers/CoopCrawler.py:27-28 | no more offers than entries of all categories together |
| Coop.FeedOffers | crawlers/CoopCrawler.py:27-48 | a feed without `categories` gives no offers, and every offer carries "Coop" |
| Coop.FetchOffers | crawlers/CoopCrawler.py:27-48 | the nested loop returns the feed's offers, or the error of the first entry that raises |
| Coop.FailingEntryEndsFetch | crawlers/CoopCrawler.py:29 | an entry that raises ends the whole fetch with its error |
| Coop.ReadOffersErrorPersists | crawlers/CoopCrawler.py:28-29 | nothing after a raising entry changes the outcome |
| Coop.ReadCategoriesErrorPersists | crawlers/coop.py:44-46 | nothing after a raising category changes the outcome |
| Coop.ReadOffersConcat | crawlers/coop.py:45-56 | offers come out in entry order: two runs of entries give their offers one after the other |
| Coop.ReadCategoriesConcat | crawlers/CoopCrawler.py:27-39 | categories come out in feed order |
| Coop.MissingListsAreEmpty | crawlers/CoopCrawler.py:27-28 | a feed without `categories` gives no offers, and a category without `offers` adds nothing |
| Coop.ReadOffersFromEntries | crawlers/CoopCrawler.py:38-47 | every offer carries "Coop" and is the offer of one of the entries |
| TimedCache.Decorated | crawlers/ica.py:18-19 | the first window ends `seconds` after decoration and the memo starts empty |
| TimedCache.Refreshed | crawlers/ica.py:23-25 | the window check keeps the lifetime; an expired window becomes an empty memo with the expiration now + lifetime, and an open one is left as it is |
| TimedCache.Step | crawlers/ica.py:22-26 | a call never changes the lifetime |
| TimedCache.ReuseWithinWindow | crawlers/ica.py:23-26 | before the expiration a memoised argument returns the memoised value, the function does not run and the state is unchanged |
| TimedCache.WindowKept | crawlers/coop.py:16-19 | before the expiration the expiration is unchanged and no memoised key is lost |
| TimedCache.MissInWindowRuns | crawlers/ica.py:26 | before the expiration an argument not memoised makes the function run; its result is returned and, unless it raised, added to the memo with nothing else changed |
| TimedCache.RecomputeAfterExpiry | crawlers/ica.py:23-25 | at or after the expiration the memo is emptied, the expiration becomes now + lifetime and the function runs again |
| TimedCache.StepIsTransparent | crawlers/ica.py:17 | for a function with a fixed answer, the cached call returns what the function returns and the memo stays faithful |
| TimedCache.SecondCallReuses | crawlers/coop.py:16-19 | a second call inside the window left by the first one reuses its result without running the function |
| TimedCache.Cache.constructor | crawlers/coop.py:9-12 | the fields start as the decorated state |
| TimedCache.Cache.Call | crawlers/ica.py:22-26 | the call updates the expiration and memo fields, keeps the lifetime, and returns what one step of the state machine gives |
| Ranking.Insert | app.py:58 | one longer, with the larger of the new offer and the old head in front |
| Ranking.InsertPermutes | app.py:58 | inserting adds the offer and loses nothing |
| Ranking.InsertSorted | app.py:58 | inserting into a descending list keeps it descending |
| Ranking.SortDesc | app.py:58 | the sort is a permutation and non-increasing by `pct_off` |
| Ranking.Deals | app.py:58 | the deals are a permutation of coop + ica, non-increasing by `pct_off` |
| Ranking.DealsPermutation | app.py:58 | the deals are a permutation of coop + ica, as many as both, with no offer changed, sorted descending |
| Ranking.WithPctAppend | app.py:58 | the offers with one percentage in a concatenation are those of each part, in order |
| Ranking.InsertWithPct | app.py:58 | an inserted offer goes after every offer of its own percentage |
| Ranking.SortDescStable | app.py:58 | the sort is stable: each percentage's offers keep their order |
| Ranking.DealsTies | app.py:58 | on ties the Coop offers come before the ICA offers, each in its own order |
| Ranking.SortDescUnique | app.py:58 | a sorted list holding each percentage's offers in their original order is the sort |
| Ranking.SortedSamePctRunsEqual | app.py:58 | two sorted lists with the same offers per percentage are equal |
| Ranking.RankingExample | app.py:58 | 30 % Coop, 50 % ICA and 30 % ICA rank as 50 % ICA, 30 % Coop, 30 % ICA |

## Left out

- The browser: the driver setup and teardown, page loading, waiting for the
  cards, and `find_element` (crawlers/ica.py:57-76, 146-147). A card is
  given as the texts of its elements, and a missing element is `None`.
- HTTP and JSON decoding of the Coop feed (crawlers/CoopCrawler.py:24-25,
  crawlers/coop.py:41-42). The feed is given decoded.
- A JSON `null` is treated like a missing key. So a `"unit": null`, which
  the code passes on as `None`, becomes the default `""`.
- Coop.FeedOffers: a `"categories": null`, or a category's `"offers": null`,
  makes the code's `for` loop raise a TypeError (crawlers/CoopCrawler.py:27-28).
  The model reads it as the missing key, so that list yields no offers.
- Coop.ReadOffer: a `"title": null` gives the code an offer named `None`
  (crawlers/CoopCrawler.py:41). Names are strings here, so the model ends
  the fetch with `MissingTitle`, as the code does for a missing title.
- The Flask application, its route, template rendering and `app.run`
  (app.py:20, 54-74). The Lidl flyer link `fetch_lidl_flyer` (app.py:38-45)
  is I/O into a web page.
- crawlers/LidlCrawler.py is not part of this model. It is a browser flow,
  and its `fetch_offers` raises NotImplementedError.
- crawlers/__init__.py is not part of this model. It only re-exports the
  crawlers.
- The `.base` and `.cache_utils` modules imported by the crawlers are not
  part of this model. The base crawler is crawlers/Crawler.py, and the
  cache is the decorator written out in crawlers/ica.py and
  crawlers/coop.py.
- `print` logging throughout.
- Floating point. Prices and percentages are exact `real`s, so IEEE
  rounding of `float()`, of the division and of `round` are not modelled.
  - Offers.Round1: rounds the exact decimal value half-to-even. Python
    rounds the nearest binary float, which sometimes lies on the other side
    of a tie.
  - Offers.Crawler.CreateOffer: states each stored value as a grid value
    within half a step of the exact value: 0.1 for `pct_off`, 0.01 for the
    prices. It does not say which neighbour a tie goes to; that is stated
    by `Offers.RoundHalfEven`.
- Text.ParseFloat reads the literals that appear on the pages:
  - an optional sign, then digits with an optional fraction, with
    surrounding whitespace.
  - Exponents, `inf`, `nan`, `_` separators and non-ASCII digits are
    treated as errors rather than as numbers.
- Text.DigitsValue and the `\d` of the patterns accept the ASCII digits
  only. Python's `\d` and `int()` also accept other Unicode decimal digits.
  - So a card whose ordinary price is written in non-ASCII digits, such as
    `Ord.pris ３９:９０`, is kept by the code through the fallback pattern
    (crawlers/ica.py:112-116), but skipped by the model with
    NoOrdinaryPrice.
- Ica.PrefixQuantity folds case for `f`, `o`, `ö` and `r` only, the
  letters of the pattern.
- TimedCache.Step: `lru_cache`'s `maxsize` (the eviction of the least
  recently used entry beyond 128) is not modelled. The memo is unbounded,
  which the 5-minute window keeps small in practice.
- TimedCache.Step: the wrapper reads the clock twice, once for the check and
  once for the new expiration. Both readings are one `now` parameter.
- TimedCache.Step: the key is the call's argument tuple. Keyword argument
  order and hashing are not modelled.
- Concurrency: two requests calling the cache at once are not modelled.
