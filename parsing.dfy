/**
 * Card extraction, the rule shared by the six site parsers. The HTML parser
 * and its CSS selectors are abstracted away: a page is the sequence of cards
 * the site's card selector matched, and a card holds the text of each element
 * its field selectors found (None when a selector found nothing). The parsers
 * differ only in their selectors and in the base URL put in front of a link,
 * so one extraction, parameterised by the base URL, stands for all six.
 */
module Parsing {
  import opened Wrappers
  import opened Text
  import opened Sequences

  /** The anchor element of a card; `href` is None when the attribute is absent. */
  datatype Anchor = Anchor(href: Option<string>)

  /** One property card: the text of its address, price and size elements, and its anchor. */
  datatype Card = Card(address: Option<string>, price: Option<string>, size: Option<string>, link: Option<Anchor>)

  /** A scraped listing, as stored in the snapshot and reported in the notification. */
  datatype Listing = Listing(address: string, price: string, size: string, link: string, foundDate: string)

  const PriceMissing := "Price not available"
  const SizeMissing := "Size not available"
  const NoLink := "#"

  /** The street filter: the lower-cased target street is a substring of the lower-cased address. */
  predicate OnStreet(address: string, targetStreet: string) {
    Contains(Lower(address), Lower(targetStreet))
  }

  /** Reading `href` from an anchor that lacks it raises, and the card is dropped. */
  predicate LinkRaises(card: Card) {
    card.link.Some? && card.link.value.href.None?
  }

  /**
   * What one card yields: nothing when it has no address element, when its
   * stripped address is not on the target street, or when its processing
   * raises; otherwise the listing built from it.
   */
  function CardListing(card: Card, targetStreet: string, baseUrl: string, today: string): Option<Listing> {
    if card.address.None? then None
    else
      var address := Strip(card.address.value);
      if !OnStreet(address, targetStreet) || LinkRaises(card) then None
      else
        var price := if card.price.Some? then Strip(card.price.value) else PriceMissing;
        var size := if card.size.Some? then Strip(card.size.value) else SizeMissing;
        var link := if card.link.Some? then baseUrl + card.link.value.href.value else NoLink;
        Some(Listing(address, price, size, link, today))
  }

  /** Each card's own result, position by position. */
  function CardResults(cards: seq<Card>, targetStreet: string, baseUrl: string, today: string): (rs: seq<Option<Listing>>)
    ensures |rs| == |cards|
    ensures forall i :: 0 <= i < |cards| ==> rs[i] == CardListing(cards[i], targetStreet, baseUrl, today)
  {
    seq(|cards|, i requires 0 <= i < |cards| => CardListing(cards[i], targetStreet, baseUrl, today))
  }

  /** The listings a page yields: the listings of its kept cards, in card order. */
  function Extracted(cards: seq<Card>, targetStreet: string, baseUrl: string, today: string): seq<Listing>
  {
    Kept(CardResults(cards, targetStreet, baseUrl, today))
  }

  lemma CardResultsAppend(a: seq<Card>, b: seq<Card>, targetStreet: string, baseUrl: string, today: string)
    ensures CardResults(a + b, targetStreet, baseUrl, today)
         == CardResults(a, targetStreet, baseUrl, today) + CardResults(b, targetStreet, baseUrl, today)
  {
    var whole := CardResults(a + b, targetStreet, baseUrl, today);
    var parts := CardResults(a, targetStreet, baseUrl, today) + CardResults(b, targetStreet, baseUrl, today);
    forall i | 0 <= i < |whole|
      ensures whole[i] == parts[i]
    {
      if i < |a| {
        assert (a + b)[i] == a[i];
      } else {
        assert (a + b)[i] == b[i - |a|];
      }
    }
  }

  /** Extraction works card by card: the listings of two pages laid end to end are the
      listings of the first followed by those of the second. */
  lemma ExtractedAppend(a: seq<Card>, b: seq<Card>, targetStreet: string, baseUrl: string, today: string)
    ensures Extracted(a + b, targetStreet, baseUrl, today)
         == Extracted(a, targetStreet, baseUrl, today) + Extracted(b, targetStreet, baseUrl, today)
  {
    CardResultsAppend(a, b, targetStreet, baseUrl, today);
    KeptAppend(CardResults(a, targetStreet, baseUrl, today), CardResults(b, targetStreet, baseUrl, today));
  }

  /** A page of one card yields that card's listing, if any. */
  lemma ExtractedSingle(card: Card, targetStreet: string, baseUrl: string, today: string)
    ensures Extracted([card], targetStreet, baseUrl, today)
         == match CardListing(card, targetStreet, baseUrl, today)
            case Some(l) => [l]
            case None => []
  {
    var r := CardListing(card, targetStreet, baseUrl, today);
    var rs := CardResults([card], targetStreet, baseUrl, today);
    assert rs == [r];
    assert rs[..0] == [];
    assert Kept(rs) == Kept<Listing>([]) + (if r.Some? then [r.value] else []);
  }

  /** One more card adds that card's listing, if any, to what the page so far yields. */
  lemma ExtractedStep(cards: seq<Card>, i: nat, targetStreet: string, baseUrl: string, today: string)
    requires i < |cards|
    ensures Extracted(cards[..i + 1], targetStreet, baseUrl, today)
         == Extracted(cards[..i], targetStreet, baseUrl, today)
          + match CardListing(cards[i], targetStreet, baseUrl, today)
            case Some(l) => [l]
            case None => []
  {
    assert cards[..i + 1] == cards[..i] + [cards[i]];
    ExtractedAppend(cards[..i], [cards[i]], targetStreet, baseUrl, today);
    ExtractedSingle(cards[i], targetStreet, baseUrl, today);
  }

  /**
   * The generic parser: walks the cards in order, skips a card without an
   * address, keeps a card whose stripped address is on the target street, and
   * drops a card whose processing raises, leaving the other cards unaffected.
   */
  method ExtractListings(cards: seq<Card>, targetStreet: string, baseUrl: string, today: string)
    returns (listings: seq<Listing>)
    ensures listings == Extracted(cards, targetStreet, baseUrl, today)
  {
    listings := [];
    for i := 0 to |cards|
      invariant listings == Extracted(cards[..i], targetStreet, baseUrl, today)
    {
      ghost var before := listings;
      ghost var result := CardListing(cards[i], targetStreet, baseUrl, today);
      ExtractedStep(cards, i, targetStreet, baseUrl, today);
      var card := cards[i];
      if card.address.None? {
        assert result == None;
        continue;
      }
      var address := Strip(card.address.value);
      if Contains(Lower(address), Lower(targetStreet)) {
        var price := if card.price.Some? then Strip(card.price.value) else PriceMissing;
        var size := if card.size.Some? then Strip(card.size.value) else SizeMissing;
        if card.link.Some? && card.link.value.href.None? {
          // the lookup of the missing href raises; the handler drops this card
          assert result == None;
          continue;
        }
        var link := if card.link.Some? then baseUrl + card.link.value.href.value else NoLink;
        assert result == Some(Listing(address, price, size, link, today));
        listings := listings + [Listing(address, price, size, link, today)];
      } else {
        assert result == None;
      }
    }
    assert cards[..|cards|] == cards;
  }

  /** A card is kept exactly when it has an address element, its stripped address is on
      the target street, and reading its link does not raise. */
  lemma CardKept(card: Card, targetStreet: string, baseUrl: string, today: string)
    ensures CardListing(card, targetStreet, baseUrl, today).Some? <==>
      card.address.Some? && OnStreet(Strip(card.address.value), targetStreet) && !LinkRaises(card)
  {
  }

  /** The listing built from a kept card: stripped address, price and size, placeholders for a
      missing price or size, the base URL in front of the href, or "#" without an anchor. */
  lemma BuiltListing(card: Card, targetStreet: string, baseUrl: string, today: string)
    requires CardListing(card, targetStreet, baseUrl, today).Some?
    ensures var l := CardListing(card, targetStreet, baseUrl, today).value;
      && l.address == Strip(card.address.value)
      && l.price == (if card.price.Some? then Strip(card.price.value) else PriceMissing)
      && l.size == (if card.size.Some? then Strip(card.size.value) else SizeMissing)
      && (card.link.None? ==> l.link == NoLink)
      && (card.link.Some? ==> l.link == baseUrl + card.link.value.href.value)
      && l.foundDate == today
  {
  }

  /** A kept address is already stripped and contains the target street, ignoring ASCII case. */
  lemma KeptAddressOnStreet(card: Card, targetStreet: string, baseUrl: string, today: string)
    requires CardListing(card, targetStreet, baseUrl, today).Some?
    ensures var address := CardListing(card, targetStreet, baseUrl, today).value.address;
      && Strip(address) == address
      && exists i :: OccursAt(Lower(targetStreet), Lower(address), i)
  {
    var address := Strip(card.address.value);
    StripIdempotent(card.address.value);
    ContainsIff(Lower(address), Lower(targetStreet));
  }

  /** Whether a card is kept does not depend on its price or size elements,
      nor on its anchor except that an anchor without href drops it. */
  lemma KeepIgnoresPriceAndSize(c1: Card, c2: Card, targetStreet: string, baseUrl: string, today: string)
    requires c1.address == c2.address && LinkRaises(c1) == LinkRaises(c2)
    ensures CardListing(c1, targetStreet, baseUrl, today).Some? == CardListing(c2, targetStreet, baseUrl, today).Some?
  {
  }

  /** A card that yields nothing (no address, off the street, or raising) can be
      removed from the page without changing what the other cards yield. */
  lemma DroppedCardHasNoEffect(a: seq<Card>, card: Card, b: seq<Card>, targetStreet: string, baseUrl: string, today: string)
    requires CardListing(card, targetStreet, baseUrl, today).None?
    ensures Extracted(a + [card] + b, targetStreet, baseUrl, today) == Extracted(a + b, targetStreet, baseUrl, today)
  {
    ExtractedAppend(a + [card], b, targetStreet, baseUrl, today);
    ExtractedAppend(a, [card], targetStreet, baseUrl, today);
    ExtractedAppend(a, b, targetStreet, baseUrl, today);
    ExtractedSingle(card, targetStreet, baseUrl, today);
  }

  /** Never more listings than cards. */
  lemma ExtractedLength(cards: seq<Card>, targetStreet: string, baseUrl: string, today: string)
    ensures |Extracted(cards, targetStreet, baseUrl, today)| <= |cards|
  {
    KeptLength(CardResults(cards, targetStreet, baseUrl, today));
  }

  /** A listing is extracted exactly when some card of the page yields it. */
  lemma ExtractedMembership(cards: seq<Card>, targetStreet: string, baseUrl: string, today: string, l: Listing)
    ensures l in Extracted(cards, targetStreet, baseUrl, today) <==>
      exists i :: 0 <= i < |cards| && CardListing(cards[i], targetStreet, baseUrl, today) == Some(l)
  {
    KeptMembership(CardResults(cards, targetStreet, baseUrl, today), l);
  }

  /** The run's date only stamps the listing: a card is kept on one day exactly when it is
      kept on another, and its listing differs only in its found date. */
  lemma CardListingOtherDay(card: Card, targetStreet: string, baseUrl: string, savedOn: string, today: string)
    ensures CardListing(card, targetStreet, baseUrl, today).Some? == CardListing(card, targetStreet, baseUrl, savedOn).Some?
    ensures CardListing(card, targetStreet, baseUrl, today).Some? ==>
      CardListing(card, targetStreet, baseUrl, today).value
        == CardListing(card, targetStreet, baseUrl, savedOn).value.(foundDate := today)
  {
  }

  /** Every listing a page yields today has a listing with the same address and price among
      those the same page yielded on another day. */
  lemma ExtractedOtherDay(cards: seq<Card>, targetStreet: string, baseUrl: string, savedOn: string, today: string, l: Listing)
    requires l in Extracted(cards, targetStreet, baseUrl, today)
    ensures exists p :: p in Extracted(cards, targetStreet, baseUrl, savedOn) && p.address == l.address && p.price == l.price
  {
    ExtractedMembership(cards, targetStreet, baseUrl, today, l);
    var i :| 0 <= i < |cards| && CardListing(cards[i], targetStreet, baseUrl, today) == Some(l);
    CardListingOtherDay(cards[i], targetStreet, baseUrl, savedOn, today);
    var p := CardListing(cards[i], targetStreet, baseUrl, savedOn).value;
    ExtractedMembership(cards, targetStreet, baseUrl, savedOn, p);
  }

  /** With an empty target street the street filter passes every address, so a card is kept
      exactly when it has an address element and reading its link does not raise. */
  lemma EmptyStreetKeepsAll(card: Card, baseUrl: string, today: string)
    ensures CardListing(card, "", baseUrl, today).Some? <==> card.address.Some? && !LinkRaises(card)
  {
    if card.address.Some? {
      EmptyIsContained(Lower(Strip(card.address.value)));
    }
  }
}
