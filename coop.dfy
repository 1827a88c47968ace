/**
 * The Coop crawler: the offers feed of the store's JSON interface, walked
 * category by category and offer by offer.  A JSON object is a record whose
 * keys may be missing (`None`); a JSON null is treated as a missing key.
 * A missing key the code reads with `[...]` raises and ends the whole fetch,
 * which the model returns as an error.
 */
module Coop {
  import opened Wrappers
  import opened Offers

  /** The `priceInformation` object of one offer. */
  datatype PriceInformation = PriceInformation(
    ordinaryPrice: Option<real>,
    discountValue: Option<real>,
    minimumAmount: Option<real>,
    isItemPriceDiscount: Option<bool>,
    unit: Option<string>)

  /** The `content` object of one offer. */
  datatype Content = Content(title: Option<string>, brand: Option<string>)

  /** One entry of a category's `offers` list. */
  datatype FeedOffer = FeedOffer(priceInformation: Option<PriceInformation>, content: Option<Content>)

  /** One entry of the feed's `categories` list. */
  datatype Category = Category(offers: Option<seq<FeedOffer>>)

  /** The decoded response. */
  datatype Feed = Feed(categories: Option<seq<Category>>)

  /** Why a fetch raised: a key read with `[...]` was missing, or the
      division met a missing discount value. */
  datatype FetchError =
    | MissingPriceInformation
    | MissingDiscountValue
    | MissingContent
    | MissingTitle

  const CoopCrawler := Crawler("Coop")

  /** Python truthiness of an optional number: present and not zero. */
  predicate Truthy(x: Option<real>) {
    x.Some? && x.value != 0.0
  }

  /** A multi-buy price: the discount is for `minimumAmount` items together,
      unless it is flagged as a per-item price. */
  predicate DividesByMinimum(pi: PriceInformation) {
    && Truthy(pi.minimumAmount)
    && pi.minimumAmount.value > 1.0
    && pi.isItemPriceDiscount != Some(true)
  }

  /** The sale value after the multi-buy division; dividing a missing
      discount value raises. */
  function SaleValue(pi: PriceInformation): (r: Result<Option<real>, FetchError>)
    ensures r.Err? <==> DividesByMinimum(pi) && pi.discountValue.None?
    ensures r.Ok? && DividesByMinimum(pi) ==>
      r.value.Some? && r.value.value * pi.minimumAmount.value == pi.discountValue.value
    ensures r.Ok? && !DividesByMinimum(pi) ==> r.value == pi.discountValue
  {
    if DividesByMinimum(pi) then
      if pi.discountValue.None? then Err(MissingDiscountValue)
      else Ok(Some(pi.discountValue.value / pi.minimumAmount.value))
    else Ok(pi.discountValue)
  }

  /** The body of the inner loop for one offer: `Ok(None)` when nothing is
      emitted, `Ok(Some(o))` when `o` is appended. */
  function ReadOffer(off: FeedOffer): (r: Result<Option<Offer>, FetchError>)
    ensures off.priceInformation.None? ==> r == Err(MissingPriceInformation)
    ensures off.priceInformation.Some? && SaleValue(off.priceInformation.value).Err? ==>
      r == Err(MissingDiscountValue)
    ensures r.Ok? && r.value.Some? ==>
      && off.priceInformation.Some?
      && var pi := off.priceInformation.value;
      && Truthy(pi.ordinaryPrice)
      && SaleValue(pi).Ok? && Truthy(SaleValue(pi).value)
      && off.content.Some? && off.content.value.title.Some?
  {
    if off.priceInformation.None? then Err(MissingPriceInformation)
    else
      var pi := off.priceInformation.value;
      var sale := SaleValue(pi);
      if sale.Err? then Err(sale.error)
      else if !(Truthy(pi.ordinaryPrice) && Truthy(sale.value)) then Ok(None)
      else if off.content.None? then Err(MissingContent)
      else if off.content.value.title.None? then Err(MissingTitle)
      else
        var unit := if pi.unit.Some? then pi.unit.value else "";
        var offer := CoopCrawler.CreateOffer(
          off.content.value.title.value, sale.value.value, pi.ordinaryPrice.value, unit, off.content.value.brand);
        assert offer.Ok?;
        Ok(Some(offer.value))
  }

  /** `cat.get("offers", [])`. */
  function OffersOf(cat: Category): seq<FeedOffer> {
    if cat.offers.Some? then cat.offers.value else []
  }

  /** `data.get("categories", [])`. */
  function CategoriesOf(feed: Feed): seq<Category> {
    if feed.categories.Some? then feed.categories.value else []
  }

  /** The offers of a run of feed entries, in order; the first raising
      entry ends the run with its error. */
  function ReadOffers(offs: seq<FeedOffer>): (r: Result<seq<Offer>, FetchError>)
    ensures r.Ok? ==> |r.value| <= |offs|
    ensures r.Ok? ==> forall o | o in r.value :: o.store == "Coop"
  {
    if offs == [] then Ok([])
    else
      var init := ReadOffers(offs[..|offs| - 1]);
      if init.Err? then init
      else
        var last := ReadOffer(offs[|offs| - 1]);
        if last.Err? then Err(last.error)
        else Ok(init.value + Emitted(last.value))
  }

  /** What one read entry appends. */
  function Emitted(o: Option<Offer>): seq<Offer> {
    if o.Some? then [o.value] else []
  }

  /** The number of entries of all categories together. */
  function TotalOffers(cats: seq<Category>): nat {
    if cats == [] then 0 else TotalOffers(cats[..|cats| - 1]) + |OffersOf(cats[|cats| - 1])|
  }

  /** The offers of a run of categories, category by category. */
  function ReadCategories(cats: seq<Category>): (r: Result<seq<Offer>, FetchError>)
    ensures r.Ok? ==> forall o | o in r.value :: o.store == "Coop"
  {
    if cats == [] then Ok([])
    else
      var init := ReadCategories(cats[..|cats| - 1]);
      if init.Err? then init
      else
        var last := ReadOffers(OffersOf(cats[|cats| - 1]));
        if last.Err? then Err(last.error)
        else Ok(init.value + last.value)
  }

  /** No more offers come out than there are entries. */
  lemma {:induction false} ReadCategoriesLength(cats: seq<Category>)
    requires ReadCategories(cats).Ok?
    ensures |ReadCategories(cats).value| <= TotalOffers(cats)
  {
    if cats != [] {
      ReadCategoriesLength(cats[..|cats| - 1]);
    }
  }

  /** What fetch_offers returns for a decoded feed. */
  function FeedOffers(feed: Feed): (r: Result<seq<Offer>, FetchError>)
    ensures feed.categories.None? ==> r == Ok([])
    ensures r.Ok? ==> forall o | o in r.value :: o.store == "Coop"
  {
    ReadCategories(CategoriesOf(feed))
  }

  /** The nested loop of fetch_offers. */
  method FetchOffers(feed: Feed) returns (r: Result<seq<Offer>, FetchError>)
    ensures r == FeedOffers(feed)
  {
    var cats := CategoriesOf(feed);
    var offers: seq<Offer> := [];
    var i := 0;
    while i < |cats|
      invariant 0 <= i <= |cats|
      invariant ReadCategories(cats[..i]) == Ok(offers)
    {
      var offs := OffersOf(cats[i]);
      var before := offers;
      var j := 0;
      while j < |offs|
        invariant 0 <= j <= |offs|
        invariant ReadOffers(offs[..j]).Ok?
        invariant offers == before + ReadOffers(offs[..j]).value
      {
        var one := ReadOffer(offs[j]);
        if one.Err? {
          FailingEntryEndsFetch(cats, i, j);
          return Err(one.error);
        }
        ReadOffersStep(offs, j);
        offers := offers + Emitted(one.value);
        j := j + 1;
      }
      assert offs[..j] == offs;
      ReadCategoriesStep(cats, i);
      i := i + 1;
    }
    assert cats[..i] == cats;
    return Ok(offers);
  }

  /** One step of the inner loop. */
  lemma {:induction false} ReadOffersStep(offs: seq<FeedOffer>, j: nat)
    requires j < |offs| && ReadOffers(offs[..j]).Ok? && ReadOffer(offs[j]).Ok?
    ensures ReadOffers(offs[..j + 1]) == Ok(ReadOffers(offs[..j]).value + Emitted(ReadOffer(offs[j]).value))
  {
    assert offs[..j + 1][..j] == offs[..j];
  }

  /** One step of the outer loop. */
  lemma {:induction false} ReadCategoriesStep(cats: seq<Category>, i: nat)
    requires i < |cats| && ReadCategories(cats[..i]).Ok? && ReadOffers(OffersOf(cats[i])).Ok?
    ensures ReadCategories(cats[..i + 1]) == Ok(ReadCategories(cats[..i]).value + ReadOffers(OffersOf(cats[i])).value)
  {
    assert cats[..i + 1][..i] == cats[..i];
  }

  /** An entry that raises after a clean start ends the whole fetch with its error. */
  lemma {:induction false} FailingEntryEndsFetch(cats: seq<Category>, i: nat, j: nat)
    requires i < |cats| && j < |OffersOf(cats[i])|
    requires ReadCategories(cats[..i]).Ok? && ReadOffers(OffersOf(cats[i])[..j]).Ok?
    requires ReadOffer(OffersOf(cats[i])[j]).Err?
    ensures ReadCategories(cats) == Err(ReadOffer(OffersOf(cats[i])[j]).error)
  {
    FailingEntryEndsCategory(OffersOf(cats[i]), j);
    FailingCategoryEndsFetch(cats, i);
  }

  lemma {:induction false} FailingEntryEndsCategory(offs: seq<FeedOffer>, j: nat)
    requires j < |offs| && ReadOffers(offs[..j]).Ok? && ReadOffer(offs[j]).Err?
    ensures ReadOffers(offs) == Err(ReadOffer(offs[j]).error)
  {
    assert offs[..j + 1][..j] == offs[..j];
    ReadOffersErrorPersists(offs[..j + 1], offs[j + 1..]);
    assert offs[..j + 1] + offs[j + 1..] == offs;
  }

  lemma {:induction false} FailingCategoryEndsFetch(cats: seq<Category>, i: nat)
    requires i < |cats| && ReadCategories(cats[..i]).Ok? && ReadOffers(OffersOf(cats[i])).Err?
    ensures ReadCategories(cats) == Err(ReadOffers(OffersOf(cats[i])).error)
  {
    assert cats[..i + 1][..i] == cats[..i];
    ReadCategoriesErrorPersists(cats[..i + 1], cats[i + 1..]);
    assert cats[..i + 1] + cats[i + 1..] == cats;
  }

  /** An entry that raises ends the whole run: what follows is never read. */
  lemma {:induction false} ReadOffersErrorPersists(xs: seq<FeedOffer>, ys: seq<FeedOffer>)
    requires ReadOffers(xs).Err?
    ensures ReadOffers(xs + ys) == ReadOffers(xs)
    decreases |ys|
  {
    if ys == [] {
      assert xs + ys == xs;
    } else {
      var init := ys[..|ys| - 1];
      assert (xs + ys)[..|xs + ys| - 1] == xs + init;
      ReadOffersErrorPersists(xs, init);
    }
  }

  /** A category that raises ends the whole fetch. */
  lemma {:induction false} ReadCategoriesErrorPersists(xs: seq<Category>, ys: seq<Category>)
    requires ReadCategories(xs).Err?
    ensures ReadCategories(xs + ys) == ReadCategories(xs)
    decreases |ys|
  {
    if ys == [] {
      assert xs + ys == xs;
    } else {
      var init := ys[..|ys| - 1];
      assert (xs + ys)[..|xs + ys| - 1] == xs + init;
      ReadCategoriesErrorPersists(xs, init);
    }
  }

  /** Entries are read independently and in order: the offers of two runs
      are those of the first run, then those of the second. */
  lemma {:induction false} ReadOffersConcat(xs: seq<FeedOffer>, ys: seq<FeedOffer>)
    requires ReadOffers(xs).Ok? && ReadOffers(ys).Ok?
    ensures ReadOffers(xs + ys) == Ok(ReadOffers(xs).value + ReadOffers(ys).value)
    decreases |ys|
  {
    if ys == [] {
      assert xs + ys == xs;
      assert ReadOffers(xs).value + [] == ReadOffers(xs).value;
    } else {
      var init := ys[..|ys| - 1];
      assert (xs + ys)[..|xs + ys| - 1] == xs + init;
      assert (xs + ys)[|xs + ys| - 1] == ys[|ys| - 1];
      ReadOffersConcat(xs, init);
      var last := ReadOffer(ys[|ys| - 1]).value;
      assert ReadOffers(xs).value + ReadOffers(init).value + Emitted(last)
        == ReadOffers(xs).value + (ReadOffers(init).value + Emitted(last));
    }
  }

  /** Categories come out in feed order, each with its offers in order. */
  lemma {:induction false} ReadCategoriesConcat(xs: seq<Category>, ys: seq<Category>)
    requires ReadCategories(xs).Ok? && ReadCategories(ys).Ok?
    ensures ReadCategories(xs + ys) == Ok(ReadCategories(xs).value + ReadCategories(ys).value)
    decreases |ys|
  {
    if ys == [] {
      assert xs + ys == xs;
      assert ReadCategories(xs).value + [] == ReadCategories(xs).value;
    } else {
      var init := ys[..|ys| - 1];
      assert (xs + ys)[..|xs + ys| - 1] == xs + init;
      assert (xs + ys)[|xs + ys| - 1] == ys[|ys| - 1];
      ReadCategoriesConcat(xs, init);
      var last := ReadOffers(OffersOf(ys[|ys| - 1])).value;
      assert ReadCategories(xs).value + ReadCategories(init).value + last
        == ReadCategories(xs).value + (ReadCategories(init).value + last);
    }
  }

  /** A feed without `categories` yields no offers, and a category without
      `offers` contributes nothing. */
  lemma {:induction false} MissingListsAreEmpty(feed: Feed, cats: seq<Category>)
    ensures feed.categories.None? ==> FeedOffers(feed) == Ok([])
    ensures ReadCategories(cats + [Category(None)]) == ReadCategories(cats)
  {
    var all := cats + [Category(None)];
    assert all[..|all| - 1] == cats;
    var init := ReadCategories(cats);
    if init.Ok? {
      assert init.value + [] == init.value;
    }
  }

  /** Every emitted offer carries the Coop store name, its title, its brand
      and its unit (or the empty unit), and comes from an entry with a
      non-zero ordinary price and a non-zero sale value. */
  lemma {:induction false} ReadOfferEmits(off: FeedOffer)
    requires ReadOffer(off).Ok? && ReadOffer(off).value.Some?
    ensures var o := ReadOffer(off).value.value;
      var pi := off.priceInformation.value;
      var sale := SaleValue(pi).value.value;
      var ordinary := pi.ordinaryPrice.value;
      && o.store == "Coop"
      && o.name == off.content.value.title.value
      && o.brand == off.content.value.brand
      && o.unit == (if pi.unit.Some? then pi.unit.value else "")
      && sale != 0.0 && ordinary != 0.0
      && sale - 0.005 <= o.salePrice <= sale + 0.005
      && ordinary - 0.005 <= o.ordinaryPrice <= ordinary + 0.005
      && OnHundredths(o.salePrice) && OnHundredths(o.ordinaryPrice)
      && Discount(sale, ordinary) - 0.05 <= o.pctOff <= Discount(sale, ordinary) + 0.05
      && OnTenths(o.pctOff)
  {
  }

  /** Conversely, an entry with its price information and content, a
      non-zero ordinary price and a non-zero sale value is emitted;
      one with a zero or missing price is passed over. */
  lemma {:induction false} ReadOfferEmitsWhenTruthy(off: FeedOffer)
    requires off.priceInformation.Some? && SaleValue(off.priceInformation.value).Ok?
    ensures var pi := off.priceInformation.value;
      !(Truthy(pi.ordinaryPrice) && Truthy(SaleValue(pi).value)) ==> ReadOffer(off) == Ok(None)
    ensures var pi := off.priceInformation.value;
      Truthy(pi.ordinaryPrice) && Truthy(SaleValue(pi).value) ==>
        && (off.content.None? ==> ReadOffer(off) == Err(MissingContent))
        && (off.content.Some? && off.content.value.title.None? ==> ReadOffer(off) == Err(MissingTitle))
        && (off.content.Some? && off.content.value.title.Some? ==> ReadOffer(off).Ok? && ReadOffer(off).value.Some?)
  {
  }

  /** The multi-buy rule on an example: 2 for 30 is 15 each, unless the
      price is per item. */
  lemma MultiBuyExample()
    ensures SaleValue(PriceInformation(Some(20.0), Some(30.0), Some(2.0), None, None)) == Ok(Some(15.0))
    ensures SaleValue(PriceInformation(Some(20.0), Some(30.0), Some(2.0), Some(true), None)) == Ok(Some(30.0))
    ensures SaleValue(PriceInformation(Some(20.0), Some(30.0), Some(1.0), None, None)) == Ok(Some(30.0))
    ensures SaleValue(PriceInformation(Some(20.0), None, Some(3.0), Some(false), None)) == Err(MissingDiscountValue)
  {
  }

  /** Every emitted offer of a run of entries comes from one of them. */
  lemma {:induction false} ReadOffersFromEntries(offs: seq<FeedOffer>)
    requires ReadOffers(offs).Ok?
    ensures forall o :: o in ReadOffers(offs).value ==>
      o.store == "Coop" && exists k :: 0 <= k < |offs| && ReadOffer(offs[k]) == Ok(Some(o))
  {
    if offs != [] {
      var init := offs[..|offs| - 1];
      ReadOffersFromEntries(init);
      forall o | o in ReadOffers(offs).value
        ensures o.store == "Coop" && exists k :: 0 <= k < |offs| && ReadOffer(offs[k]) == Ok(Some(o))
      {
        if o in ReadOffers(init).value {
          var k :| 0 <= k < |init| && ReadOffer(init[k]) == Ok(Some(o));
          assert offs[k] == init[k];
        } else {
          ReadOfferEmits(offs[|offs| - 1]);
          assert ReadOffer(offs[|offs| - 1]) == Ok(Some(o));
        }
      }
    }
  }
}
