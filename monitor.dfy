/**
 * One run of the property monitor: every site is fetched and parsed in turn,
 * its listings are compared with those the previous run saved for it, the
 * listings not seen before are collected, the snapshot of this run is built
 * for the next one, and a notice is prepared when there is something new and
 * a recipient to send it to.
 *
 * The network is a parameter: one `Outcome` per site, in site order. The
 * snapshot file is a map passed in (as loaded) and returned (to be saved).
 */
module Monitor {
  import opened Wrappers
  import opened Text
  import opened Sequences
  import opened Parsing

  /** A monitored site: its name (the snapshot key) and the base URL its links are relative to. */
  datatype Site = Site(name: string, baseUrl: string)

  /** The six monitored sites, in the order they are checked. */
  const Sites: seq<Site> := [
    Site("Boliga", "https://www.boliga.dk"),
    Site("Home", "https://home.dk"),
    Site("Nybolig", "https://www.nybolig.dk"),
    Site("EDC", "https://www.edc.dk"),
    Site("Danbolig", "https://www.danbolig.dk"),
    Site("Boligsiden", "https://www.boligsiden.dk")
  ]

  /** What fetching a site's page came to: a response with its status code and the cards
      found in its body, or an exception raised while fetching or parsing. */
  datatype Outcome = Response(status: int, cards: seq<Card>) | Raised

  /** The listings one site produced in this run, or None when the site failed. */
  datatype Scan = Scan(site: string, listings: Option<seq<Listing>>)

  /** An entry of the result: the site it was found on and the listing itself. */
  datatype NewListing = NewListing(site: string, details: Listing)

  /** Site name to that site's listings, as persisted between runs. */
  type Snapshot = map<string, seq<Listing>>

  /** The email the run asks to send: its recipient and the new listings it reports. */
  datatype Notice = Notice(recipient: string, items: seq<NewListing>)

  /** The monitor's configuration, fixed once it is built. */
  datatype PropertyMonitor = PropertyMonitor(
    targetStreet: string,
    postalCode: string,
    emailTo: Option<string>,
    previousListings: Snapshot,
    sites: seq<Site>)

  predicate DistinctNames(sites: seq<Site>) {
    forall i, j :: 0 <= i < j < |sites| ==> sites[i].name != sites[j].name
  }

  /** Builds a monitor: the street is lower-cased once, the previous snapshot is the one
      loaded from disk, and the six sites are checked in their fixed order. */
  function NewPropertyMonitor(targetStreet: string, postalCode: string, emailTo: Option<string>, loaded: Snapshot)
    : (m: PropertyMonitor)
    ensures m.targetStreet == Lower(targetStreet) && Lower(m.targetStreet) == m.targetStreet
    ensures m.postalCode == postalCode && m.emailTo == emailTo && m.previousListings == loaded
    ensures m.sites == Sites && |m.sites| == 6 && DistinctNames(m.sites)
  {
    LowerIdempotent(targetStreet);
    PropertyMonitor(Lower(targetStreet), postalCode, emailTo, loaded, Sites)
  }

  // ---------------------------------------------------------------------------
  // The specification of one run
  // ---------------------------------------------------------------------------

  /** Two listings are the same listing when address and price agree; nothing else counts. */
  predicate SameKey(a: Listing, b: Listing) {
    a.address == b.address && a.price == b.price
  }

  /** A listing is new when no previous listing has its address and its price. */
  predicate IsNew(l: Listing, previous: seq<Listing>) {
    forall p :: p in previous ==> !SameKey(l, p)
  }

  /** A site's listings in a snapshot; a site the snapshot does not know has none. */
  function Previous(snapshot: Snapshot, site: string): seq<Listing> {
    if site in snapshot then snapshot[site] else []
  }

  /** The current listings that are new with respect to `previous`, in their order,
      every copy of a repeated listing included. */
  function NewIn(previous: seq<Listing>, current: seq<Listing>): seq<Listing> {
    if current == [] then []
    else
      var l := current[|current| - 1];
      NewIn(previous, current[..|current| - 1]) + (if IsNew(l, previous) then [l] else [])
  }

  /** Each listing tagged with the site it came from. */
  function Tagged(site: string, ls: seq<Listing>): (r: seq<NewListing>)
    ensures |r| == |ls|
    ensures forall i :: 0 <= i < |ls| ==> r[i] == NewListing(site, ls[i])
  {
    seq(|ls|, i requires 0 <= i < |ls| => NewListing(site, ls[i]))
  }

  /** An entry is in a tagged list exactly when it names the site and carries one of the listings. */
  lemma TaggedMembership(site: string, ls: seq<Listing>, e: NewListing)
    ensures e in Tagged(site, ls) <==> e.site == site && e.details in ls
  {
    if e.site == site && e.details in ls {
      var k :| 0 <= k < |ls| && ls[k] == e.details;
      assert Tagged(site, ls)[k] == e;
    }
  }

  /** The result of checking one site: its listings when the response has status 200,
      nothing when the status is another or the fetch raised. */
  function ScanSite(targetStreet: string, site: Site, outcome: Outcome, today: string): (s: Scan)
    ensures s.site == site.name
    ensures s.listings.Some? <==> outcome.Response? && outcome.status == 200
    ensures s.listings.Some? ==> s.listings.value == Extracted(outcome.cards, targetStreet, site.baseUrl, today)
  {
    match outcome
    case Response(status, cards) =>
      if status == 200 then Scan(site.name, Some(Extracted(cards, targetStreet, site.baseUrl, today)))
      else Scan(site.name, None)
    case Raised => Scan(site.name, None)
  }

  /** The scans of all sites, in site order. */
  function Scans(m: PropertyMonitor, outcomes: seq<Outcome>, today: string): (r: seq<Scan>)
    requires |outcomes| == |m.sites|
    ensures |r| == |m.sites|
    ensures forall i :: 0 <= i < |r| ==> r[i] == ScanSite(m.targetStreet, m.sites[i], outcomes[i], today)
  {
    seq(|m.sites|, i requires 0 <= i < |m.sites| => ScanSite(m.targetStreet, m.sites[i], outcomes[i], today))
  }

  /** What one scan adds to the result: its new listings tagged with its site; nothing for a failed site. */
  function SiteNew(previous: Snapshot, scan: Scan): seq<NewListing> {
    match scan.listings
    case Some(current) => Tagged(scan.site, NewIn(Previous(previous, scan.site), current))
    case None => []
  }

  /** Each scan's contribution, site by site. */
  function Blocks(previous: Snapshot, scans: seq<Scan>): (r: seq<seq<NewListing>>)
    ensures |r| == |scans|
    ensures forall i :: 0 <= i < |scans| ==> r[i] == SiteNew(previous, scans[i])
  {
    seq(|scans|, i requires 0 <= i < |scans| => SiteNew(previous, scans[i]))
  }

  /** The new listings of a run: site by site, in site order. */
  function Diff(previous: Snapshot, scans: seq<Scan>): seq<NewListing> {
    Flatten(Blocks(previous, scans))
  }

  /** The snapshot a run saves: each succeeding site under its name with exactly its
      listings; the previous snapshot plays no part. */
  function CurrentSnapshot(scans: seq<Scan>): Snapshot {
    if scans == [] then map[]
    else
      var rest := CurrentSnapshot(scans[..|scans| - 1]);
      var last := scans[|scans| - 1];
      if last.listings.Some? then rest[last.site := last.listings.value] else rest
  }

  /** A notification goes out only to a configured, non-empty address (`not self.email_to` in
      `send_notification` is true for None and for the empty string). */
  predicate HasRecipient(emailTo: Option<string>) {
    emailTo.Some? && emailTo.value != ""
  }

  /** The guard at the head of the notification step: no recipient, no email. */
  function SendNotification(emailTo: Option<string>, items: seq<NewListing>): (n: Option<Notice>)
    ensures n.Some? <==> HasRecipient(emailTo)
    ensures n.Some? ==> n.value.recipient == emailTo.value && n.value.items == items
  {
    if !HasRecipient(emailTo) then None else Some(Notice(emailTo.value, items))
  }

  // ---------------------------------------------------------------------------
  // The run
  // ---------------------------------------------------------------------------

  lemma BlocksAppend(previous: Snapshot, a: seq<Scan>, b: seq<Scan>)
    ensures Blocks(previous, a + b) == Blocks(previous, a) + Blocks(previous, b)
  {
  }

  /** The result of a run is the results of its sites laid end to end, in site order. */
  lemma DiffAppend(previous: Snapshot, a: seq<Scan>, b: seq<Scan>)
    ensures Diff(previous, a + b) == Diff(previous, a) + Diff(previous, b)
  {
    BlocksAppend(previous, a, b);
    FlattenAppend(Blocks(previous, a), Blocks(previous, b));
  }

  lemma DiffStep(previous: Snapshot, scans: seq<Scan>, i: nat)
    requires i < |scans|
    ensures Diff(previous, scans[..i + 1]) == Diff(previous, scans[..i]) + SiteNew(previous, scans[i])
  {
    assert scans[..i + 1] == scans[..i] + [scans[i]];
    DiffAppend(previous, scans[..i], [scans[i]]);
    var one := Blocks(previous, [scans[i]]);
    assert one == [SiteNew(previous, scans[i])];
    assert one[..0] == [];
    assert Flatten(one) == Flatten<NewListing>([]) + SiteNew(previous, scans[i]);
  }

  lemma SnapshotStep(scans: seq<Scan>, i: nat)
    requires i < |scans|
    ensures CurrentSnapshot(scans[..i + 1]) ==
      if scans[i].listings.Some? then CurrentSnapshot(scans[..i])[scans[i].site := scans[i].listings.value]
      else CurrentSnapshot(scans[..i])
  {
    assert scans[..i + 1][..i] == scans[..i];
    assert scans[..i + 1][i] == scans[i];
  }

  lemma TaggedAppend(site: string, a: seq<Listing>, b: seq<Listing>)
    ensures Tagged(site, a + b) == Tagged(site, a) + Tagged(site, b)
  {
  }

  lemma NewInStep(previous: seq<Listing>, current: seq<Listing>, j: nat)
    requires j < |current|
    ensures NewIn(previous, current[..j + 1])
         == NewIn(previous, current[..j]) + (if IsNew(current[j], previous) then [current[j]] else [])
  {
    assert current[..j + 1][..j] == current[..j];
  }

  /** The flag-and-break search of one listing against a site's previous listings:
      it stops at the first previous listing with the same address and price. */
  method IsNewListing(listing: Listing, previous: seq<Listing>) returns (isNew: bool)
    ensures isNew == IsNew(listing, previous)
  {
    isNew := true;
    var k := 0;
    while k < |previous|
      invariant 0 <= k <= |previous|
      invariant isNew
      invariant forall q :: 0 <= q < k ==> !SameKey(listing, previous[q])
    {
      if listing.address == previous[k].address && listing.price == previous[k].price {
        assert previous[k] in previous;
        isNew := false;
        break;
      }
      k := k + 1;
    }
  }

  /** The loop over one site's current listings: each listing found new against the
      site's previous listings is appended, tagged with the site, in listing order. */
  method AppendNewListings(newListings: seq<NewListing>, site: string, listings: seq<Listing>, previous: seq<Listing>)
    returns (result: seq<NewListing>)
    ensures result == newListings + Tagged(site, NewIn(previous, listings))
  {
    result := newListings;
    for j := 0 to |listings|
      invariant result == newListings + Tagged(site, NewIn(previous, listings[..j]))
    {
      NewInStep(previous, listings, j);
      TaggedAppend(site, NewIn(previous, listings[..j]), if IsNew(listings[j], previous) then [listings[j]] else []);
      var listing := listings[j];
      var isNew := IsNewListing(listing, previous);
      if isNew {
        result := result + [NewListing(site, listing)];
      }
    }
    assert listings[..|listings|] == listings;
  }

  /**
   * One run: each site in order is checked; a site whose response has status 200
   * is parsed, stored in the new snapshot, and each of its listings is compared
   * with every listing saved for that site last time, stopping at the first with
   * the same address and price; a listing without such a match is reported. A
   * failing site is skipped. A notice is produced when something is new.
   */
  method Run(m: PropertyMonitor, outcomes: seq<Outcome>, today: string)
    returns (newListings: seq<NewListing>, saved: Snapshot, notice: Option<Notice>)
    requires |outcomes| == |m.sites|
    ensures newListings == Diff(m.previousListings, Scans(m, outcomes, today))
    ensures saved == CurrentSnapshot(Scans(m, outcomes, today))
    ensures notice.Some? <==> newListings != [] && HasRecipient(m.emailTo)
    ensures notice.Some? ==> notice.value == Notice(m.emailTo.value, newListings)
  {
    ghost var scans := Scans(m, outcomes, today);
    var allCurrentListings: Snapshot := map[];
    newListings := [];
    for i := 0 to |m.sites|
      invariant allCurrentListings == CurrentSnapshot(scans[..i])
      invariant newListings == Diff(m.previousListings, scans[..i])
    {
      DiffStep(m.previousListings, scans, i);
      SnapshotStep(scans, i);
      var site := m.sites[i];
      match outcomes[i]
      case Raised =>
        // the error is logged and the site skipped
        assert scans[i].listings.None?;
      case Response(status, cards) =>
        if status == 200 {
          var listings := ExtractListings(cards, m.targetStreet, site.baseUrl, today);
          assert scans[i] == Scan(site.name, Some(listings));
          allCurrentListings := allCurrentListings[site.name := listings];
          var previous := if site.name in m.previousListings then m.previousListings[site.name] else [];
          newListings := AppendNewListings(newListings, site.name, listings, previous);
        } else {
          assert scans[i].listings.None?;
        }
    }
    assert scans[..|m.sites|] == scans;
    saved := allCurrentListings;
    notice := None;
    if newListings != [] {
      notice := SendNotification(m.emailTo, newListings);
    }
  }

  // ---------------------------------------------------------------------------
  // The novelty test
  // ---------------------------------------------------------------------------

  /** The (address, price) pairs of a list of listings. */
  function Keys(ls: seq<Listing>): set<(string, string)> {
    set p | p in ls :: (p.address, p.price)
  }

  /** A listing is new exactly when its (address, price) pair is not among the previous
      listings' pairs: their size, link and date play no part. */
  lemma IsNewByKey(l: Listing, previous: seq<Listing>)
    ensures IsNew(l, previous) <==> (l.address, l.price) !in Keys(previous)
  {
    if (l.address, l.price) in Keys(previous) {
      var p :| p in previous && (p.address, p.price) == (l.address, l.price);
      assert SameKey(l, p);
    }
  }

  /** Two listings with the same address and price are new or old together, whatever
      their size, link and date. */
  lemma IsNewIgnoresDetails(l1: Listing, l2: Listing, previous: seq<Listing>)
    requires l1.address == l2.address && l1.price == l2.price
    ensures IsNew(l1, previous) == IsNew(l2, previous)
  {
  }

  // ---------------------------------------------------------------------------
  // The diff of one site
  // ---------------------------------------------------------------------------

  /** The new listings of a concatenation are those of each part, in order. */
  lemma {:induction false} NewInAppend(previous: seq<Listing>, a: seq<Listing>, b: seq<Listing>)
    ensures NewIn(previous, a + b) == NewIn(previous, a) + NewIn(previous, b)
    decreases |b|
  {
    if b == [] {
      assert a + b == a;
    } else {
      var b' := b[..|b| - 1];
      assert (a + b)[..|a + b| - 1] == a + b';
      assert (a + b)[|a + b| - 1] == b[|b| - 1];
      NewInAppend(previous, a, b');
    }
  }

  /** Every copy of a new listing is reported, and no copy of an old one: current
      listings are not de-duplicated against each other. */
  lemma {:induction false} NewInCount(previous: seq<Listing>, current: seq<Listing>, l: Listing)
    ensures multiset(NewIn(previous, current))[l] == if IsNew(l, previous) then multiset(current)[l] else 0
  {
    if current != [] {
      var n := |current| - 1;
      var last := current[n];
      var tail := if IsNew(last, previous) then [last] else [];
      NewInCount(previous, current[..n], l);
      assert current == current[..n] + [last];
      assert multiset(current) == multiset(current[..n]) + multiset{last};
      assert multiset(NewIn(previous, current)) == multiset(NewIn(previous, current[..n])) + multiset(tail);
    }
  }

  /** A listing is reported exactly when it is current and new. */
  lemma NewInMembership(previous: seq<Listing>, current: seq<Listing>, l: Listing)
    ensures l in NewIn(previous, current) <==> l in current && IsNew(l, previous)
  {
    NewInCount(previous, current, l);
  }

  /** At most as many new listings as current ones. */
  lemma {:induction false} NewInLength(previous: seq<Listing>, current: seq<Listing>)
    ensures |NewIn(previous, current)| <= |current|
  {
    if current != [] {
      NewInLength(previous, current[..|current| - 1]);
    }
  }

  /** Against an empty previous list every current listing is new, in order. */
  lemma {:induction false} NothingPreviousAllNew(current: seq<Listing>)
    ensures NewIn([], current) == current
  {
    if current != [] {
      var n := |current| - 1;
      NothingPreviousAllNew(current[..n]);
      assert current == current[..n] + [current[n]];
    }
  }

  /** A site the previous snapshot has no entry for has all its current listings reported. */
  lemma UnknownSiteAllNew(snapshot: Snapshot, site: string, current: seq<Listing>)
    requires site !in snapshot
    ensures NewIn(Previous(snapshot, site), current) == current
  {
    NothingPreviousAllNew(current);
  }

  /** When every current listing is matched in the previous list, nothing is new. */
  lemma {:induction false} AllMatchedNothingNew(previous: seq<Listing>, current: seq<Listing>)
    requires forall l :: l in current ==> !IsNew(l, previous)
    ensures NewIn(previous, current) == []
  {
    if current != [] {
      var n := |current| - 1;
      assert forall l :: l in current[..n] ==> l in current;
      AllMatchedNothingNew(previous, current[..n]);
    }
  }

  /** A list compared with itself has nothing new. */
  lemma SameListNothingNew(current: seq<Listing>)
    ensures NewIn(current, current) == []
  {
    forall l | l in current
      ensures !IsNew(l, current)
    {
      assert SameKey(l, l);
    }
    AllMatchedNothingNew(current, current);
  }

  // ---------------------------------------------------------------------------
  // The diff of a run
  // ---------------------------------------------------------------------------

  /** Ordered by site first: the new listings of site `i` sit, as one block, after those of
      every earlier site and before those of every later one. */
  lemma DiffSiteOrder(previous: Snapshot, scans: seq<Scan>, i: nat)
    requires i < |scans|
    ensures Diff(previous, scans) == Diff(previous, scans[..i]) + SiteNew(previous, scans[i]) + Diff(previous, scans[i + 1..])
  {
    assert scans == scans[..i + 1] + scans[i + 1..];
    DiffAppend(previous, scans[..i + 1], scans[i + 1..]);
    DiffStep(previous, scans, i);
  }

  /** An entry is reported for a site exactly when that site succeeded, the entry's listing
      is one of its current listings, and the listing is new against its previous ones. */
  lemma SiteNewMembership(previous: Snapshot, scan: Scan, e: NewListing)
    ensures e in SiteNew(previous, scan) <==>
      && e.site == scan.site
      && scan.listings.Some?
      && e.details in scan.listings.value
      && IsNew(e.details, Previous(previous, scan.site))
  {
    if scan.listings.Some? {
      var reported := NewIn(Previous(previous, scan.site), scan.listings.value);
      NewInMembership(Previous(previous, scan.site), scan.listings.value, e.details);
      TaggedMembership(scan.site, reported, e);
    }
  }

  /** Site `i` of `scans` reports listing `e`. */
  ghost predicate Reports(previous: Snapshot, scans: seq<Scan>, i: int, e: NewListing) {
    && 0 <= i < |scans|
    && e.site == scans[i].site
    && scans[i].listings.Some?
    && e.details in scans[i].listings.value
    && IsNew(e.details, Previous(previous, scans[i].site))
  }

  /** Every entry of the result names a site that succeeded and carries, unchanged, one of
      that site's current listings that is new against its previous ones; and every such
      listing is in the result. */
  lemma DiffMembership(previous: Snapshot, scans: seq<Scan>, e: NewListing)
    ensures e in Diff(previous, scans) <==> exists i :: Reports(previous, scans, i, e)
  {
    var blocks := Blocks(previous, scans);
    FlattenMembership(blocks, e);
    forall i | 0 <= i < |scans|
      ensures e in blocks[i] <==> Reports(previous, scans, i, e)
    {
      SiteNewMembership(previous, scans[i], e);
    }
  }

  /** The number of current listings of the sites that succeeded. */
  function ScannedCount(scans: seq<Scan>): nat {
    if scans == [] then 0
    else
      var last := scans[|scans| - 1];
      ScannedCount(scans[..|scans| - 1]) + (if last.listings.Some? then |last.listings.value| else 0)
  }

  /** A run never reports more listings than its sites currently show. */
  lemma {:induction false} DiffLength(previous: Snapshot, scans: seq<Scan>)
    ensures |Diff(previous, scans)| <= ScannedCount(scans)
  {
    if scans != [] {
      var n := |scans| - 1;
      var last := scans[n];
      DiffLength(previous, scans[..n]);
      DiffStep(previous, scans, n);
      assert scans[..n + 1] == scans;
      if last.listings.Some? {
        NewInLength(Previous(previous, last.site), last.listings.value);
      }
    }
  }

  /** A site absent from the previous snapshot has every current listing reported, in order. */
  lemma UnknownSiteReportsAll(previous: Snapshot, scan: Scan)
    requires scan.listings.Some? && scan.site !in previous
    ensures SiteNew(previous, scan) == Tagged(scan.site, scan.listings.value)
  {
    UnknownSiteAllNew(previous, scan.site, scan.listings.value);
  }

  /** When every succeeding site's current listings are all matched in its previous ones,
      the run reports nothing. */
  lemma AllSitesMatchedNothingNew(previous: Snapshot, scans: seq<Scan>)
    requires forall i :: 0 <= i < |scans| && scans[i].listings.Some? ==>
      forall l :: l in scans[i].listings.value ==> !IsNew(l, Previous(previous, scans[i].site))
    ensures Diff(previous, scans) == []
  {
    var blocks := Blocks(previous, scans);
    forall i | 0 <= i < |scans|
      ensures blocks[i] == []
    {
      if scans[i].listings.Some? {
        AllMatchedNothingNew(Previous(previous, scans[i].site), scans[i].listings.value);
      }
    }
    FlattenEmpty(blocks);
  }

  // ---------------------------------------------------------------------------
  // The saved snapshot
  // ---------------------------------------------------------------------------

  predicate DistinctSites(scans: seq<Scan>) {
    forall i, j :: 0 <= i < j < |scans| ==> scans[i].site != scans[j].site
  }

  /** The saved snapshot has a key exactly for the sites that succeeded. */
  lemma {:induction false} SnapshotKeys(scans: seq<Scan>, site: string)
    ensures site in CurrentSnapshot(scans) <==>
      exists i :: 0 <= i < |scans| && scans[i].site == site && scans[i].listings.Some?
  {
    if scans != [] {
      var n := |scans| - 1;
      SnapshotKeys(scans[..n], site);
      assert forall i :: 0 <= i < n ==> scans[..n][i] == scans[i];
    }
  }

  /** With distinct site names, a succeeding site is saved with exactly its listings. */
  lemma {:induction false} SnapshotEntry(scans: seq<Scan>, i: nat)
    requires DistinctSites(scans) && i < |scans| && scans[i].listings.Some?
    ensures scans[i].site in CurrentSnapshot(scans)
    ensures CurrentSnapshot(scans)[scans[i].site] == scans[i].listings.value
  {
    var n := |scans| - 1;
    if i < n {
      assert DistinctSites(scans[..n]) by {
        assert forall a :: 0 <= a < n ==> scans[..n][a] == scans[a];
      }
      assert scans[..n][i] == scans[i];
      SnapshotEntry(scans[..n], i);
      assert scans[n].site != scans[i].site;
    }
  }

  /** With distinct site names, a failing site has no key in the saved snapshot and no
      entry in the result. */
  lemma FailedSiteLeftOut(previous: Snapshot, scans: seq<Scan>, i: nat)
    requires DistinctSites(scans) && i < |scans| && scans[i].listings.None?
    ensures scans[i].site !in CurrentSnapshot(scans)
    ensures forall e :: e in Diff(previous, scans) ==> e.site != scans[i].site
  {
    SnapshotKeys(scans, scans[i].site);
    forall e | e in Diff(previous, scans)
      ensures e.site != scans[i].site
    {
      DiffMembership(previous, scans, e);
    }
  }

  /** Comparing a run with the snapshot it saved reports nothing: with the same responses,
      a second run finds no new listings. */
  lemma RerunFindsNothing(scans: seq<Scan>)
    requires DistinctSites(scans)
    ensures Diff(CurrentSnapshot(scans), scans) == []
  {
    var saved := CurrentSnapshot(scans);
    forall i | 0 <= i < |scans| && scans[i].listings.Some?
      ensures forall l :: l in scans[i].listings.value ==> !IsNew(l, Previous(saved, scans[i].site))
    {
      SnapshotEntry(scans, i);
      forall l | l in scans[i].listings.value
        ensures !IsNew(l, Previous(saved, scans[i].site))
      {
        assert SameKey(l, l);
      }
    }
    AllSitesMatchedNothingNew(saved, scans);
  }

  // ---------------------------------------------------------------------------
  // The same properties, stated for a monitor and the responses of its sites
  // ---------------------------------------------------------------------------

  lemma ScansDistinct(m: PropertyMonitor, outcomes: seq<Outcome>, today: string)
    requires |outcomes| == |m.sites| && DistinctNames(m.sites)
    ensures DistinctSites(Scans(m, outcomes, today))
  {
  }

  /** A site whose response is not a 200, or whose fetch raised, adds nothing to the result
      and has no key in the saved snapshot. */
  lemma FailingSiteIgnored(m: PropertyMonitor, outcomes: seq<Outcome>, today: string, i: nat)
    requires |outcomes| == |m.sites| && DistinctNames(m.sites) && i < |m.sites|
    requires outcomes[i].Raised? || outcomes[i].status != 200
    ensures m.sites[i].name !in CurrentSnapshot(Scans(m, outcomes, today))
    ensures forall e :: e in Diff(m.previousListings, Scans(m, outcomes, today)) ==> e.site != m.sites[i].name
  {
    ScansDistinct(m, outcomes, today);
    FailedSiteLeftOut(m.previousListings, Scans(m, outcomes, today), i);
  }

  /** A site whose response is a 200 is saved with exactly the listings parsed from its page. */
  lemma SucceedingSiteSaved(m: PropertyMonitor, outcomes: seq<Outcome>, today: string, i: nat)
    requires |outcomes| == |m.sites| && DistinctNames(m.sites) && i < |m.sites|
    requires outcomes[i].Response? && outcomes[i].status == 200
    ensures var saved := CurrentSnapshot(Scans(m, outcomes, today));
      && m.sites[i].name in saved
      && saved[m.sites[i].name] == Extracted(outcomes[i].cards, m.targetStreet, m.sites[i].baseUrl, today)
  {
    ScansDistinct(m, outcomes, today);
    SnapshotEntry(Scans(m, outcomes, today), i);
  }

  /** When the previous snapshot is what this run saves, the run reports nothing, so
      no notice is produced. */
  lemma UnchangedPagesReportNothing(m: PropertyMonitor, outcomes: seq<Outcome>, today: string)
    requires |outcomes| == |m.sites| && DistinctNames(m.sites)
    requires m.previousListings == CurrentSnapshot(Scans(m, outcomes, today))
    ensures Diff(m.previousListings, Scans(m, outcomes, today)) == []
  {
    ScansDistinct(m, outcomes, today);
    RerunFindsNothing(Scans(m, outcomes, today));
  }

  /** The same pages scanned on a later day report nothing either: the listings parsed then
      differ from the saved ones only in their found date, which is not compared. */
  lemma SamePagesLaterDay(m: PropertyMonitor, outcomes: seq<Outcome>, savedOn: string, today: string)
    requires |outcomes| == |m.sites| && DistinctNames(m.sites)
    ensures Diff(CurrentSnapshot(Scans(m, outcomes, savedOn)), Scans(m, outcomes, today)) == []
  {
    var saved := CurrentSnapshot(Scans(m, outcomes, savedOn));
    var scans := Scans(m, outcomes, today);
    forall i | 0 <= i < |scans| && scans[i].listings.Some?
      ensures forall l :: l in scans[i].listings.value ==> !IsNew(l, Previous(saved, scans[i].site))
    {
      SucceedingSiteSaved(m, outcomes, savedOn, i);
      forall l | l in scans[i].listings.value
        ensures !IsNew(l, Previous(saved, scans[i].site))
      {
        ExtractedOtherDay(outcomes[i].cards, m.targetStreet, m.sites[i].baseUrl, savedOn, today, l);
        var p :| p in Extracted(outcomes[i].cards, m.targetStreet, m.sites[i].baseUrl, savedOn)
          && p.address == l.address && p.price == l.price;
        assert SameKey(l, p);
      }
    }
    AllSitesMatchedNothingNew(saved, scans);
  }

  /** The snapshot is overwritten wholesale: a site that failed in the run that saved it is
      not in it, so its next successful run reports every one of its listings again. */
  lemma FailedSiteReportedAgain(m: PropertyMonitor, failed: seq<Outcome>, savedOn: string, later: seq<Outcome>, today: string, i: nat)
    requires |failed| == |m.sites| && |later| == |m.sites| && DistinctNames(m.sites) && i < |m.sites|
    requires failed[i].Raised? || failed[i].status != 200
    requires later[i].Response? && later[i].status == 200
    ensures SiteNew(CurrentSnapshot(Scans(m, failed, savedOn)), Scans(m, later, today)[i])
         == Tagged(m.sites[i].name, Extracted(later[i].cards, m.targetStreet, m.sites[i].baseUrl, today))
  {
    FailingSiteIgnored(m, failed, savedOn, i);
    UnknownSiteReportsAll(CurrentSnapshot(Scans(m, failed, savedOn)), Scans(m, later, today)[i]);
  }
}
