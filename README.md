# Property monitor: change detection and card extraction

This project models the core of `property_monitor.py`, a scraper that watches property-listing
sites for apartments on one target street. A run has four steps:

1. It fetches each of six sites in a fixed order.
2. It parses the cards on each page into listings. A card is kept only when its stripped address
   contains the lower-cased target street, ignoring case.
3. It compares each site's listings with the ones saved by the previous run. A listing is new when
   no previous listing of that site has both the same address and the same price. Each new listing
   is tagged with its site and appended to the result.
4. It saves the listings of every site that succeeded as the next snapshot. When something is new
   and a recipient is configured, it asks for a notification.

The modules are:

- `Wrappers`: `Option`.
- `Text`: ASCII `lower`, `strip`, and Python's substring test `in`.
- `Sequences`: two generic sequence operations and their lemmas.
- `Parsing`: the card-to-listing rule that all six `parse_*` methods share. These methods differ
  only in their CSS selectors and their base URL, so one extraction, with the base URL as a
  parameter, stands for all six.
- `Monitor`: the monitor's configuration, the specification of one run, the run itself, and the
  notification guard.

The run and the parsers work by looping and appending, so they are modelled as methods with loops:

- `Parsing.ExtractListings` walks the cards. It uses `continue` for a card without an address and
  for a card whose link lookup raises.
- `Monitor.IsNewListing` is the flag-and-break search.
- `Monitor.AppendNewListings` is the loop over one site's listings.
- `Monitor.Run` is the loop over the sites. It fills the snapshot map and the result list.

Each method is proved equal to a pure specification:

- `Extracted` for the parser;
- `IsNew` for the search;
- `NewIn` and `Tagged` for one site;
- `Diff` and `CurrentSnapshot` for the whole run.

The properties the program promises are then proved as lemmas about those functions.

The network is a parameter. It is one `Outcome` per site, in site order: either a response, with
its status code and the cards the site's selectors found, or an exception. The snapshot file is a
map that the model gets as loaded and returns to be saved. The clock is the parameter `today`.

The definitions the contracts below are stated in, and the source lines each one models:

- `Parsing.OnStreet`: the street test, property_monitor.py:150.
- `Parsing.LinkRaises`: the `KeyError` from looking up a missing `href`, property_monitor.py:157 and 166-167.
- `Parsing.CardListing`: the rule for one card, property_monitor.py:142-167. It gives nothing when the card has no address element, when the stripped address is off the street, or when the `href` lookup raises. Otherwise it gives the listing with:
  - the stripped address, price and size, with the placeholders for a missing price or size;
  - `base URL + href` as the link, or `"#"` when there is no anchor;
  - the run's date.
- `Parsing.Extracted`: the listings of the kept cards, in card order. It is what one `parse_*` method returns, property_monitor.py:141-169.
- `Monitor.SameKey` and `Monitor.IsNew`: the address-and-price comparison against every previous listing, property_monitor.py:103-108.
- `Monitor.Previous`: the `.get(site['name'], [])` lookup of property_monitor.py:101.
- `Monitor.NewIn`: the new listings of one site, in listing order, property_monitor.py:102-113.
- `Monitor.SiteNew`: one site's contribution to the result. It is its new listings, tagged with its name, when the site succeeded, and nothing otherwise (property_monitor.py:96-118).
- `Monitor.Diff`: the contributions of all the sites laid end to end, in site order, property_monitor.py:89-118.
- `Monitor.CurrentSnapshot`: each succeeding site under its name with its listings, property_monitor.py:96-98 and 121.
- `Monitor.HasRecipient`: the negation of `not self.email_to` in `send_notification`, property_monitor.py:353.
- `Parsing.CardResults`: each card's own result, one per card, in card order (property_monitor.py:141).
- `Monitor.Tagged`: each listing wrapped as `{site, details}`, with the listing unchanged, one entry per listing, in order (property_monitor.py:110-113).
- `Monitor.ScanSite`: what checking one site yields. That is the extracted listings when the response has status 200, and nothing when the status is another or the fetch raised (property_monitor.py:96-118).
- `Monitor.Scans`: one scan per site, in site order (property_monitor.py:89).
- `Monitor.SendNotification`: the guard at property_monitor.py:353-355. It gives a notice for the recipient and the listings when `HasRecipient` holds, and nothing otherwise.

Each of these five functions has an `ensures` that spells out its definition for the proofs that use it. What the program promises about them is proved elsewhere:
- by `Run`'s contract;
- by `FailingSiteIgnored` and `SucceedingSiteSaved`;
- by `TaggedMembership`, `SiteNewMembership` and `DiffMembership`;
- by `ExtractedMembership`.

## Model

| member | source | states |
|---|---|---|
| Monitor.Run | property_monitor.py:86-130 | the result is `Diff` of the previous snapshot and the site scans. The saved snapshot is `CurrentSnapshot` of the scans. A notice exists exactly when the result is non-empty and a recipient is set, and it carries the recipient and the result. |
| Monitor.IsNewListing | property_monitor.py:103-108 | the flag-and-break search returns true exactly when no previous listing has the same address and price |
| Monitor.AppendNewListings | property_monitor.py:101-113 | appends to the list it is given the site's new listings, each tagged with the site name, in listing order |
| Monitor.IsNewByKey | property_monitor.py:105 | a listing is new iff its (address, price) pair is not among the previous listings' pairs |
| Monitor.IsNewIgnoresDetails | property_monitor.py:105 | two listings with the same address and price are new or old together, whatever their size, link and date |
| Monitor.NewInMembership | property_monitor.py:101-113 | a listing is reported for a site iff it is among the site's current listings and is new against its previous ones |
| Monitor.NewInCount | property_monitor.py:102-113 | current listings are not de-duplicated: each copy of a new listing is reported, and no copy of an old one |
| Monitor.NewInAppend | property_monitor.py:102-113 | the new listings of two concatenated lists are those of each list, in order |
| Monitor.NewInLength | property_monitor.py:102-113 | a site never has more new listings than current ones |
| Monitor.NothingPreviousAllNew | property_monitor.py:101-113 | against an empty previous list, every current listing is new, in order |
| Monitor.UnknownSiteAllNew | property_monitor.py:101 | a site the previous snapshot does not know has all its current listings reported |
| Monitor.UnknownSiteReportsAll | property_monitor.py:101-113 | such a site contributes exactly its current listings, tagged with its name, in order |
| Monitor.AllMatchedNothingNew | property_monitor.py:102-113 | when every current listing is matched in the previous list, nothing is new |
| Monitor.SameListNothingNew | property_monitor.py:102-113 | a list compared with itself has nothing new |
| Monitor.DiffAppend | property_monitor.py:89-113 | the result for the sites split into two runs of consecutive sites is the first segment's result followed by the second's |
| Monitor.DiffSiteOrder | property_monitor.py:89-113 | ordered by site first: site i's new listings form one block, after every earlier site's and before every later site's |
| Monitor.SiteNewMembership | property_monitor.py:96-113 | an entry is contributed by a site iff it names that site, the site succeeded, and its details are one of the site's current listings that is new |
| Monitor.DiffMembership | property_monitor.py:89-113 | an entry is in the result iff some succeeding site lists its details unchanged and that listing is new against the site's previous listings |
| Monitor.DiffLength | property_monitor.py:89-113 | the result is never longer than the total number of current listings of the succeeding sites |
| Monitor.AllSitesMatchedNothingNew | property_monitor.py:89-128 | when every succeeding site's listings are all matched in its previous ones, the result is empty |
| Monitor.SnapshotKeys | property_monitor.py:96-121 | the saved snapshot has a key exactly for the sites that succeeded |
| Monitor.SnapshotEntry | property_monitor.py:96-121 | with distinct site names, a succeeding site is saved with exactly its listings |
| Monitor.FailedSiteLeftOut | property_monitor.py:96-121 | with distinct site names, a failing site has no key in the saved snapshot and no entry in the result |
| Monitor.RerunFindsNothing | property_monitor.py:89-121 | comparing scans with the snapshot saved from those same scans reports nothing |
| Monitor.ScansDistinct | property_monitor.py:32-63 | the scans of a monitor with distinct site names name distinct sites |
| Monitor.FailingSiteIgnored | property_monitor.py:96-121 | a site with a non-200 status, or whose fetch or parse raised, adds nothing to the result and is not saved |
| Monitor.SucceedingSiteSaved | property_monitor.py:96-121 | a site with status 200 is saved with exactly the listings parsed from its cards |
| Monitor.UnchangedPagesReportNothing | property_monitor.py:121-128 | when the previous snapshot is exactly what this run saves (the same pages on the same day, so the same found dates), the run reports nothing, so no notification is sent |
| Monitor.SamePagesLaterDay | property_monitor.py:89-128 | the same pages scanned again on any later day report nothing against the snapshot saved the first time, so no notification is sent: the found date is never compared |
| Monitor.TaggedMembership | property_monitor.py:110-113 | an entry is in a site's tagged list iff it names that site and its details are one of the listings, unchanged |
| Monitor.FailedSiteReportedAgain | property_monitor.py:96-121 | a site that failed in the run that saved the snapshot has no entry in it, so on its next run with status 200 every one of its current listings is reported again, in order |
| Monitor.NewPropertyMonitor | property_monitor.py:25-63 | the target street is lower-cased, and lowering it again changes nothing. The other settings are kept. The sites are the six fixed sites with their base URLs, in their fixed order, and their names are distinct. |
| Parsing.ExtractListings | property_monitor.py:141-169 | the parser loop returns exactly `Extracted`: the listings of the kept cards, in card order |
| Parsing.ExtractedAppend | property_monitor.py:141-167 | extraction works card by card: two pages laid end to end yield the first page's listings, then the second's |
| Parsing.ExtractedSingle | property_monitor.py:141-167 | a one-card page yields that card's listing, if it has one |
| Parsing.CardKept | property_monitor.py:144-167 | a card yields a listing iff it has an address, its stripped address contains the target street ignoring case, and reading its link does not raise |
| Parsing.BuiltListing | property_monitor.py:148-164 | a kept listing has the stripped address, price and size, a placeholder for a missing price or size, and `base URL + href` as its link, or `"#"` when there is no anchor. Its date is the run's date. |
| Parsing.KeptAddressOnStreet | property_monitor.py:148-150 | a kept address is already stripped, and the lower-cased target street occurs in the lower-cased address at some position |
| Parsing.KeepIgnoresPriceAndSize | property_monitor.py:144-157 | whether a card is kept does not depend on its price or size elements |
| Parsing.DroppedCardHasNoEffect | property_monitor.py:166-167 | removing a card that yields nothing, including one whose processing raised, does not change the other cards' listings |
| Parsing.ExtractedLength | property_monitor.py:141-169 | a page never yields more listings than it has cards |
| Parsing.ExtractedMembership | property_monitor.py:141-169 | a listing is extracted iff some card of the page yields it |
| Text.Lower | property_monitor.py:150 | the length is kept and each character is folded on its own |
| Text.LowerIdempotent | property_monitor.py:150 | lowering twice is lowering once. This is why lowering the already-lowered target street again in the parser changes nothing. |
| Text.Strip | property_monitor.py:148 | the result is no longer than the input and does not start or end with whitespace |
| Text.StripIsTrimmedSlice | property_monitor.py:148 | the result is a slice of the input with only whitespace on either side of it |
| Text.StripIdempotent | property_monitor.py:148 | stripping twice is stripping once |
| Text.ContainsIff | property_monitor.py:150 | the substring test holds iff the substring occurs at some position |
| Text.EmptyIsContained | property_monitor.py:150 | the empty string is in every string |
| Parsing.EmptyStreetKeepsAll | property_monitor.py:144-167 | with an empty target street, a card is kept iff it has an address element and reading its link does not raise |
| Parsing.CardListingOtherDay | property_monitor.py:141-167 | a card is kept on one day iff it is kept on another, and its listing differs only in its found date |
| Parsing.ExtractedOtherDay | property_monitor.py:141-169 | every listing a page yields today has a listing with the same address and price among those the same page yielded on another day |
| Sequences.KeptAppend | property_monitor.py:141-167 | the kept results of concatenated per-card results are those of each part, in order |
| Sequences.KeptLength | property_monitor.py:141-169 | there are never more kept results than results |
| Sequences.KeptMembership | property_monitor.py:141-169 | a value is kept iff some per-card result is that value |
| Sequences.FlattenAppend | property_monitor.py:89-113 | flattening concatenated per-site blocks gives each part's flattening, in order |
| Sequences.FlattenMembership | property_monitor.py:89-113 | a value is in the flattened result iff it is in some block |
| Sequences.FlattenEmpty | property_monitor.py:89-113 | all-empty blocks flatten to nothing |

## Left out

- Fetching with `requests` (the per-site URL strings, headers and timeout) is not modelled. Each fetch is an `Outcome` parameter: a response with its status code and page, or a raised exception.
- BeautifulSoup and the CSS selectors are not modelled. A page is the sequence of cards the card selector matched. Each card holds an optional text for its address, price and size elements, and an optional anchor with an optional `href`.
- The model does not say which exceptions the parser or the HTML library may raise. A whole page that raises is the `Raised` outcome. Within a card, the one error modelled is the `KeyError` from an anchor without `href`, which drops that card.
- Loading and saving `previous_listings.json` is not modelled: not the file I/O, not the JSON encoding, not the fallback to `{}` when loading fails. The snapshot is a typed map passed in and returned. The save at property_monitor.py:121 is outside the per-site `try`, so in the source a failing save escapes `run`: no notification is attempted and nothing is returned. The model's `Run` always returns.
- Malformed previous records are not modelled; the snapshot type rules them out. In the source, the test at property_monitor.py:105 reads a previous record's `address` first, and reads its `price` only when the addresses are equal. Records after the first match are never read, because of the `break` at line 107. So a record without `address` raises `KeyError` whenever the search reaches it. A record without `price` raises only when its address equals the current listing's. A raise there goes to the site's exception handler (lines 117-118). The site is still saved, because it was put in `all_current_listings` at line 98 first. Entries already appended to the result stay there, and the site's remaining listings go unreported.
- `datetime.now()` is the parameter `today`, so every listing of a run has the same date.
- The email body, the MIME message, SMTP and the swallowed send error are not modelled. Only the guard that skips the email is, and a `Notice` stands for the email that would be sent.
- Text.Lower: the Unicode semantics of `str.lower()` are not modelled. Only 'A'..'Z' are folded.
- Text.Strip: the whitespace set is Python's `str.isspace` restricted to ASCII.
- Logging and the `__main__` block are not modelled. The previous snapshot that the constructor loads is the field `PropertyMonitor.previousListings`, given as an argument; only the loading itself is left out (see above). `PropertyMonitor` is a datatype because nothing updates its fields after construction.
- Monitor.Run: the inner loops of `run` are separate methods, `IsNewListing` and `AppendNewListings`, and `Run` calls them. Each is proved against the same specification that the inline loop has.
