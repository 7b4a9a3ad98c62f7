/**
 scripts/release_api_retry.py `release_rows`: a paged listing of releases that may change between pages.
 */
module ReleaseListing {
  import opened Outcomes
  import opened Sorting
  import V = Versions

  /** An element of a page; a row whose `id` is not positive or whose tag is empty has no stable identity. */
  datatype Item = NotAnObject | Row(id: int, tag: string, body: Body)

  /** The fields the later checks read, and the rest of the row. */
  datatype Body = Body(draft: bool, prerelease: bool, immutable: bool, hasAssets: bool, others: string)

  datatype ListError = RequestFailed | InvalidRow | NoIdentity | ListingChanged | TooManyPages

  const MAX_PAGES := 10
  const PAGE_SIZE := 100

  predicate Identified(item: Item) {
    item.Row? && item.id > 0 && item.tag != ""
  }

  /** First occurrences. */
  function Unique(items: seq<Item>): (rows: seq<Item>)
    ensures Distinct(rows)
    ensures forall r :: r in rows <==> r in items
  {
    if items == [] then []
    else
      var n := |items| - 1;
      var before := Unique(items[..n]);
      assert forall r :: r in items <==> r in items[..n] || r == items[n];
      if items[n] in before then before else before + [items[n]]
  }

  /** Every row has an identity, and rows that share an id or a tag are the same. */
  ghost predicate Consistent(items: seq<Item>) {
    && (forall r | r in items :: Identified(r))
    && forall r, s | r in items && s in items && Identified(r) && Identified(s) ::
         (r.id == s.id || r.tag == s.tag) ==> r == s
  }

  /** The items of the first `n` pages. */
  function Gathered(pages: nat -> Option<seq<Item>>, n: nat): seq<Item> {
    if n == 0 then [] else Gathered(pages, n - 1) + if pages(n - 1).Some? then pages(n - 1).value else []
  }

  ghost predicate FullBefore(pages: nat -> Option<seq<Item>>, n: nat) {
    forall p: nat | p < n :: pages(p).Some? && |pages(p).value| >= 100
  }

  /** Page `n` is the first that is not full. */
  ghost predicate EndsWith(pages: nat -> Option<seq<Item>>, n: nat) {
    && FullBefore(pages, n)
    && pages(n).Some? && |pages(n).value| < 100
  }

  // ----- the loop's state

  ghost predicate Collected(seen: seq<Item>, rows: seq<Item>, byId: map<int, Item>, byTag: map<string, Item>) {
    && Consistent(seen) && rows == Unique(seen)
    && (forall id | id in byId :: byId[id] in seen && byId[id].Row? && byId[id].id == id)
    && (forall tag | tag in byTag :: byTag[tag] in seen && byTag[tag].Row? && byTag[tag].tag == tag)
    && forall r | r in seen :: r.Row? && r.id in byId && byId[r.id] == r && r.tag in byTag && byTag[r.tag] == r
  }

  lemma UniqueMore(seen: seq<Item>, item: Item)
    ensures Unique(seen + [item]) == if item in seen then Unique(seen) else Unique(seen) + [item]
  {
    assert (seen + [item])[..|seen|] == seen;
  }

  lemma SeenAgain(seen: seq<Item>, rows: seq<Item>, byId: map<int, Item>, byTag: map<string, Item>, item: Item)
    requires Collected(seen, rows, byId, byTag) && Identified(item)
    requires item.id in byId && byId[item.id] == item && item.tag in byTag && byTag[item.tag] == item
    ensures Collected(seen + [item], rows, byId, byTag)
  {
    UniqueMore(seen, item);
    hide Unique;
    assert forall r :: r in seen + [item] <==> r in seen || r == item;
  }

  lemma SeenFirst(seen: seq<Item>, rows: seq<Item>, byId: map<int, Item>, byTag: map<string, Item>, item: Item)
    requires Collected(seen, rows, byId, byTag) && Identified(item) && item.id !in byId && item.tag !in byTag
    ensures Collected(seen + [item], rows + [item], byId[item.id := item], byTag[item.tag := item])
  {
    UniqueMore(seen, item);
    hide Unique;
    assert forall r :: r in seen + [item] <==> r in seen || r == item;
  }

  lemma SeenDifferent(seen: seq<Item>, rows: seq<Item>, byId: map<int, Item>, byTag: map<string, Item>, item: Item)
    requires Collected(seen, rows, byId, byTag)
    requires !Identified(item)
             || (item.id in byId && byId[item.id] != item) || (item.tag in byTag && byTag[item.tag] != item)
             || (item.id in byId <==> item.tag !in byTag)
    ensures !Consistent(seen + [item])
  {
    hide Unique;
    assert forall r :: r in seen + [item] <==> r in seen || r == item;
    if Identified(item) {
      if item.id in byId {
        assert byId[item.id] in seen + [item];
      }
      if item.tag in byTag {
        assert byTag[item.tag] in seen + [item];
      }
    }
  }

  lemma PartInconsistent(part: seq<Item>, items: seq<Item>)
    requires !Consistent(part) && forall r | r in part :: r in items
    ensures !Consistent(items)
  {
  }

  lemma {:induction false} GatheredGrows(pages: nat -> Option<seq<Item>>, m: nat, n: nat)
    requires m <= n
    ensures forall r | r in Gathered(pages, m) :: r in Gathered(pages, n)
  {
    if m < n {
      GatheredGrows(pages, m, n - 1);
    }
  }

  /** The page count does not depend on who counts. */
  lemma OnlyOneEnd(pages: nat -> Option<seq<Item>>, m: nat, n: nat)
    requires EndsWith(pages, m) && EndsWith(pages, n)
    ensures m == n
  {
  }

  /** The whole listing that a successful run reads. */
  ghost predicate Listing(pages: nat -> Option<seq<Item>>, n: nat) {
    n < 10 && EndsWith(pages, n) && Consistent(Gathered(pages, n + 1))
  }

  /** The one page count with which the listing is whole. */
  ghost predicate TheListing(pages: nat -> Option<seq<Item>>, n: nat) {
    Listing(pages, n) && forall m: nat | Listing(pages, m) :: m == n
  }

  /** With item `k` the items read are inconsistent. */
  ghost predicate BreaksAt(seen: seq<Item>, items: seq<Item>, k: nat) {
    k < |items| && !Consistent(seen + items[..k] + [items[k]])
  }

  lemma BrokenAt(seen: seq<Item>, items: seq<Item>, k: nat)
    requires k < |items| && !Consistent(seen + items[..k] + [items[k]])
    ensures BreaksAt(seen, items, k)
  {
  }

  /** One page: the rows it adds, or the first item at which the listing turns out inconsistent. */
  method ReadPage(items: seq<Item>, rows0: seq<Item>, byId0: map<int, Item>, byTag0: map<string, Item>,
                  ghost seen: seq<Item>)
    returns (error: Option<ListError>, rows: seq<Item>, byId: map<int, Item>, byTag: map<string, Item>)
    requires Collected(seen, rows0, byId0, byTag0)
    ensures error.None? ==> Collected(seen + items, rows, byId, byTag)
    ensures error.Some? ==> exists k: nat :: BreaksAt(seen, items, k)
  {
    hide *;
    rows, byId, byTag := rows0, byId0, byTag0;
    assert seen + items[..0] == seen;
    for i := 0 to |items|
      invariant Collected(seen + items[..i], rows, byId, byTag)
    {
      var item := items[i];
      assert seen + items[..i + 1] == seen + items[..i] + [item];
      IdentifiedIs(item);
      if !item.Row? {
        SeenDifferent(seen + items[..i], rows, byId, byTag, item);
        BrokenAt(seen, items, i);
        return Some(InvalidRow), rows, byId, byTag;
      }
      if item.id <= 0 || item.tag == "" {
        SeenDifferent(seen + items[..i], rows, byId, byTag, item);
        BrokenAt(seen, items, i);
        return Some(NoIdentity), rows, byId, byTag;
      }
      if item.id in byId || item.tag in byTag {
        if item.id in byId && byId[item.id] == item && item.tag in byTag && byTag[item.tag] == item {
          SeenAgain(seen + items[..i], rows, byId, byTag, item);
          continue;
        }
        SeenDifferent(seen + items[..i], rows, byId, byTag, item);
        BrokenAt(seen, items, i);
        return Some(ListingChanged), rows, byId, byTag;
      }
      SeenFirst(seen + items[..i], rows, byId, byTag, item);
      byId := byId[item.id := item];
      byTag := byTag[item.tag := item];
      rows := rows + [item];
    }
    assert items[..|items|] == items;
    error := None;
  }

  lemma IdentifiedIs(item: Item)
    ensures Identified(item) <==> item.Row? && item.id > 0 && item.tag != ""
  {
  }

  /** scripts/release_api_retry.py `release_rows`. */
  method ReleaseRows(pages: nat -> Option<seq<Item>>) returns (r: Result<seq<Item>, ListError>)
    ensures r.Ok? <==> exists n: nat :: TheListing(pages, n)
    ensures forall n: nat | Listing(pages, n) :: TheListing(pages, n) && r == Ok(Unique(Gathered(pages, n + 1)))
  {
    var rows: seq<Item> := [];
    var byId: map<int, Item>, byTag: map<string, Item> := map[], map[];
    StartListing(pages);
    assert MAX_PAGES == 10;
    hide *;
    for page := 0 to MAX_PAGES
      invariant Collected(Gathered(pages, page), rows, byId, byTag) && FullBefore(pages, page)
    {
      var releases := pages(page);
      if releases.None? {
        NoPage(pages, page);
        return Err(RequestFailed);
      }
      var error;
      ghost var seen := Gathered(pages, page);
      error, rows, byId, byTag := ReadPage(releases.value, rows, byId, byTag, seen);
      if error.Some? {
        ghost var k: nat :| BreaksAt(seen, releases.value, k);
        StopsListing(pages, page, k);
        return Err(error.value);
      }
      PageRead(pages, page);
      if |releases.value| < PAGE_SIZE {
        CollectedMeans(Gathered(pages, page + 1), rows, byId, byTag);
        IsListing(pages, page);
        OnlyListing(pages, page);
        return Ok(rows);
      }
    }
    NoEnd(pages);
    return Err(TooManyPages);
  }

  lemma StartListing(pages: nat -> Option<seq<Item>>)
    ensures Collected(Gathered(pages, 0), [], map[], map[]) && FullBefore(pages, 0)
  {
  }

  lemma NoPage(pages: nat -> Option<seq<Item>>, page: nat)
    requires FullBefore(pages, page) && pages(page).None?
    ensures forall n: nat :: !Listing(pages, n)
  {
  }

  lemma PageRead(pages: nat -> Option<seq<Item>>, page: nat)
    requires FullBefore(pages, page) && pages(page).Some?
    ensures Gathered(pages, page + 1) == Gathered(pages, page) + pages(page).value
    ensures |pages(page).value| >= PAGE_SIZE ==> FullBefore(pages, page + 1)
    ensures |pages(page).value| < PAGE_SIZE ==> EndsWith(pages, page)
  {
  }

  lemma IsListing(pages: nat -> Option<seq<Item>>, page: nat)
    requires page < MAX_PAGES && EndsWith(pages, page) && Consistent(Gathered(pages, page + 1))
    ensures Listing(pages, page)
  {
  }

  lemma OnlyListing(pages: nat -> Option<seq<Item>>, page: nat)
    requires Listing(pages, page)
    ensures TheListing(pages, page)
    ensures forall n: nat | Listing(pages, n) :: n == page
  {
    hide EndsWith, Gathered, Consistent;
    forall n: nat | Listing(pages, n) ensures n == page {
      OnlyOneEnd(pages, n, page);
    }
  }

  lemma NoEnd(pages: nat -> Option<seq<Item>>)
    requires FullBefore(pages, MAX_PAGES)
    ensures forall n: nat :: !Listing(pages, n)
  {
  }

  lemma CollectedMeans(seen: seq<Item>, rows: seq<Item>, byId: map<int, Item>, byTag: map<string, Item>)
    requires Collected(seen, rows, byId, byTag)
    ensures Consistent(seen) && rows == Unique(seen)
  {
  }

  /** If the items read so far are inconsistent, so is every listing. */
  lemma StopsListing(pages: nat -> Option<seq<Item>>, page: nat, k: nat)
    requires FullBefore(pages, page) && pages(page).Some? && BreaksAt(Gathered(pages, page), pages(page).value, k)
    ensures forall n: nat :: !Listing(pages, n)
  {
    hide *;
    forall n: nat ensures !Listing(pages, n) {
      StopsAt(pages, page, k, n);
    }
  }

  lemma StopsAt(pages: nat -> Option<seq<Item>>, page: nat, k: nat, n: nat)
    requires FullBefore(pages, page) && pages(page).Some? && BreaksAt(Gathered(pages, page), pages(page).value, k)
    ensures !Listing(pages, n)
  {
    hide *;
    if Listing(pages, n) {
      ListingMeans(pages, page, n);
      BreaksMeans(Gathered(pages, page), pages(page).value, k);
      PageRead(pages, page);
      PartOfPage(Gathered(pages, page), pages(page).value, k);
      GatheredGrows(pages, page + 1, n + 1);
      PartInconsistent(Gathered(pages, page) + pages(page).value[..k] + [pages(page).value[k]], Gathered(pages, n + 1));
    }
  }

  lemma ListingMeans(pages: nat -> Option<seq<Item>>, page: nat, n: nat)
    requires FullBefore(pages, page) && Listing(pages, n)
    ensures page <= n && Consistent(Gathered(pages, n + 1))
  {
    hide Consistent, Gathered;
  }

  lemma BreaksMeans(seen: seq<Item>, items: seq<Item>, k: nat)
    requires BreaksAt(seen, items, k)
    ensures k < |items| && !Consistent(seen + items[..k] + [items[k]])
  {
    hide Consistent;
  }

  lemma PartOfPage(seen: seq<Item>, items: seq<Item>, k: nat)
    requires k < |items|
    ensures forall r | r in seen + items[..k] + [items[k]] :: r in seen + items
  {
  }

  // ----- releases published while the pages are read

  /** Page `n` of a listing. */
  function Window(listing: seq<Item>, n: nat): seq<Item> {
    var low, high := PAGE_SIZE * n, PAGE_SIZE * (n + 1);
    if low >= |listing| then [] else listing[low..if high <= |listing| then high else |listing|]
  }

  /** New releases appear in front of `base`, the listing when the first page was read. */
  ghost predicate OnlyAdditions(pages: nat -> Option<seq<Item>>, added: nat -> seq<Item>, base: seq<Item>) {
    && added(0) == []
    && (forall p: nat, q: nat | p <= q :: |added(p)| <= |added(q)|)
    && forall p: nat :: pages(p) == Some(Window(added(p) + base, p))
  }

  lemma WindowHas(listing: seq<Item>, n: nat, i: nat)
    requires PAGE_SIZE * n <= i < |listing| && i < PAGE_SIZE * (n + 1)
    ensures listing[i] in Window(listing, n)
  {
    assert Window(listing, n)[i - PAGE_SIZE * n] == listing[i];
  }

  /** After page `p`, every row of `base` up to the end of that page has been read. */
  lemma {:induction false} ReadSoFar(pages: nat -> Option<seq<Item>>, added: nat -> seq<Item>, base: seq<Item>, p: nat,
                                     m: nat)
    requires OnlyAdditions(pages, added, base) && m < |base| && |added(p)| + m < PAGE_SIZE * (p + 1)
    ensures base[m] in Gathered(pages, p + 1)
    decreases p
  {
    PageAt(pages, added, base, p);
    hide OnlyAdditions, Gathered, Window;
    var i := |added(p)| + m;
    assert (added(p) + base)[i] == base[m];
    if i >= PAGE_SIZE * p {
      WindowHas(added(p) + base, p, i);
    } else {
      assert p > 0 && |added(p - 1)| + m < PAGE_SIZE * p;
      ReadSoFar(pages, added, base, p - 1, m);
    }
  }

  lemma PageAt(pages: nat -> Option<seq<Item>>, added: nat -> seq<Item>, base: seq<Item>, p: nat)
    requires OnlyAdditions(pages, added, base)
    ensures Gathered(pages, p + 1) == Gathered(pages, p) + Window(added(p) + base, p)
    ensures p > 0 ==> |added(p - 1)| <= |added(p)|
  {
  }

  /** Releases published while the pages are read never hide one that was there at the start. */
  lemma NothingMissed(pages: nat -> Option<seq<Item>>, added: nat -> seq<Item>, base: seq<Item>, n: nat, r: Item)
    ensures OnlyAdditions(pages, added, base) && EndsWith(pages, n) && r in base ==> r in Unique(Gathered(pages, n + 1))
  {
    if OnlyAdditions(pages, added, base) && EndsWith(pages, n) && r in base {
      var m :| 0 <= m < |base| && base[m] == r;
      var listing := added(n) + base;
      assert |Window(listing, n)| < PAGE_SIZE;
      assert |listing| < PAGE_SIZE * (n + 1);
      ReadSoFar(pages, added, base, n, m);
    }
  }

  lemma {:induction false} ReadUnchanged(pages: nat -> Option<seq<Item>>, listing: seq<Item>, n: nat)
    requires forall p: nat :: pages(p) == Some(Window(listing, p))
    ensures Gathered(pages, n) == if 100 * n <= |listing| then listing[..100 * n] else listing
  {
    if n > 0 {
      ReadUnchanged(pages, listing, n - 1);
      var low := 100 * (n - 1);
      if low < |listing| {
        var high := if low + 100 <= |listing| then low + 100 else |listing|;
        assert listing[..low] + listing[low..high] == listing[..high];
        assert high == |listing| ==> listing[..high] == listing;
      }
    }
  }

  /** A listing that does not change has pages of a hundred, and what is read of it is all of it. */
  lemma UnchangedListing(pages: nat -> Option<seq<Item>>, listing: seq<Item>)
    ensures (forall p: nat :: pages(p) == Some(Window(listing, p))) ==>
              EndsWith(pages, |listing| / 100) && Gathered(pages, |listing| / 100 + 1) == listing
  {
    if forall p: nat :: pages(p) == Some(Window(listing, p)) {
      ReadUnchanged(pages, listing, |listing| / 100 + 1);
    }
  }

  lemma PartConsistent(part: seq<Item>, all: seq<Item>)
    requires Consistent(all) && forall r | r in part :: r in all
    ensures Consistent(part)
  {
  }

  /** What is listed during the first `n` pages. */
  ghost predicate AllIn(added: nat -> seq<Item>, base: seq<Item>, n: nat, all: seq<Item>) {
    forall p: nat, x | p < n && x in added(p) + base :: x in all
  }

  lemma {:induction false} FromListing(pages: nat -> Option<seq<Item>>, added: nat -> seq<Item>, base: seq<Item>,
                                       n: nat, all: seq<Item>, r: Item)
    requires OnlyAdditions(pages, added, base) && AllIn(added, base, n, all)
    requires r in Gathered(pages, n)
    ensures r in all
  {
    if r in Gathered(pages, n - 1) {
      FromListing(pages, added, base, n - 1, all, r);
    } else {
      assert r in Window(added(n - 1) + base, n - 1);
      assert r in added(n - 1) + base;
    }
  }

  /** And they do not make the listing fail, as long as ids and tags stay unique and the pages suffice. */
  lemma AdditionsAreConsistent(pages: nat -> Option<seq<Item>>, added: nat -> seq<Item>, base: seq<Item>, n: nat,
                               all: seq<Item>)
    ensures OnlyAdditions(pages, added, base) && EndsWith(pages, n) && n < MAX_PAGES
            && Consistent(all) && AllIn(added, base, n + 1, all) ==>
              Listing(pages, n)
  {
    hide Gathered, Window, OnlyAdditions, EndsWith, Consistent, AllIn, Listing;
    if OnlyAdditions(pages, added, base) && EndsWith(pages, n) && n < MAX_PAGES && Consistent(all) &&
        AllIn(added, base, n + 1, all) {
      forall r | r in Gathered(pages, n + 1) ensures r in all {
        FromListing(pages, added, base, n + 1, all, r);
      }
      PartConsistent(Gathered(pages, n + 1), all);
      IsListing(pages, n);
    }
  }

  // ----- the newest immutable stable release

  datatype LatestError =
    | NotCanonical | NoAssets | Conflicting | NoneStable | NotLatest | NoTag | WrongCommit | NotOnMain

  predicate IsStable(item: Item) {
    item.Row? && V.Parse(item.tag).Some? && !item.body.draft && !item.body.prerelease && item.body.immutable
  }

  /** Stable rows carry assets and no two different ones share a tag. */
  ghost predicate Orderly(rows: seq<Item>) {
    && (forall r | r in rows && IsStable(r) :: r.body.hasAssets)
    && forall r, s | r in rows && s in rows && IsStable(r) && IsStable(s) && r.tag == s.tag :: r == s
  }

  /** The rows read so far are orderly and the table holds the stable ones by tag. */
  ghost predicate Tabled(rows: seq<Item>, stable: map<string, Item>) {
    && Orderly(rows)
    && (forall r | r in rows && IsStable(r) :: r.tag in stable && stable[r.tag] == r)
    && forall tag | tag in stable :: stable[tag] in rows && IsStable(stable[tag]) && stable[tag].tag == tag
  }

  lemma TableMore(rows: seq<Item>, stable: map<string, Item>, r: Item)
    requires Tabled(rows, stable)
    ensures !IsStable(r) ==> Tabled(rows + [r], stable)
    ensures IsStable(r) && r.body.hasAssets && (r.tag in stable ==> stable[r.tag] == r) ==>
              Tabled(rows + [r], stable[r.tag := r])
    ensures IsStable(r) && (!r.body.hasAssets || (r.tag in stable && stable[r.tag] != r)) ==> !Orderly(rows + [r])
  {
    hide IsStable;
    assert forall s :: s in rows + [r] <==> s in rows || s == r;
    if r.Row? && r.tag in stable {
      assert stable[r.tag] in rows + [r];
    }
  }

  lemma DisorderStays(rows: seq<Item>, n: nat)
    requires n <= |rows|
    ensures !Orderly(rows[..n]) ==> !Orderly(rows)
  {
    hide IsStable;
    assert forall r | r in rows[..n] :: r in rows;
  }

  /** The tag is that of a stable row and no stable row has a newer version. */
  ghost predicate IsLatest(rows: seq<Item>, tag: string) {
    && (exists r :: r in rows && IsStable(r) && r.tag == tag)
    && forall r | r in rows && IsStable(r) :: V.Parse(tag).Some? && V.AtMost(V.Parse(r.tag).value, V.Parse(tag).value)
  }

  /**
   scripts/release_api_retry.py `require_latest_immutable_release`, given what the later requests answer:
   the commit the tag resolves to, and whether it is on main.
   */
  method RequireLatestImmutable(rows: seq<Item>, tag: string, tagCommit: Option<string>, expected: string, onMain: bool)
    returns (error: Option<LatestError>)
    ensures error.None? <==>
            V.Parse(tag).Some? && Orderly(rows) && IsLatest(rows, tag) && tagCommit == Some(expected) && onMain
  {
    if V.Parse(tag).None? {
      return Some(NotCanonical);
    }
    var stable: map<string, Item> := map[];
    assert rows[..0] == [];
    assert Tabled([], stable);
    hide V.Parse, V.Below;
    for i := 0 to |rows|
      invariant Tabled(rows[..i], stable)
    {
      var release := rows[i];
      assert rows[..i + 1] == rows[..i] + [release];
      TableMore(rows[..i], stable, release);
      DisorderStays(rows, i + 1);
      hide Orderly, Tabled;
      if !IsStable(release) {
        continue;
      }
      if !release.body.hasAssets {
        return Some(NoAssets);
      }
      if release.tag in stable && stable[release.tag] != release {
        return Some(Conflicting);
      }
      stable := stable[release.tag := release];
    }
    assert rows[..|rows|] == rows;
    if stable == map[] {
      NothingStable(rows, stable, tag);
      return Some(NoneStable);
    }
    var latest := Latest(rows, stable);
    OnlyLatest(rows, latest, tag);
    if tag != latest {
      return Some(NotLatest);
    }
    if tagCommit.None? {
      return Some(NoTag);
    }
    if tagCommit.value != expected {
      return Some(WrongCommit);
    }
    return if onMain then None else Some(NotOnMain);
  }

  lemma NothingStable(rows: seq<Item>, stable: map<string, Item>, tag: string)
    requires Tabled(rows, stable) && stable == map[]
    ensures !IsLatest(rows, tag)
  {
    hide IsStable;
  }

  /** `max(stable, key=_version_key)`. */
  method Latest(rows: seq<Item>, stable: map<string, Item>) returns (latest: string)
    requires Tabled(rows, stable) && stable != map[]
    ensures IsLatest(rows, latest)
  {
    var tags := SortedSet(stable.Keys);
    TagsParse(rows, stable);
    NotNoTags(stable);
    FirstBest(tags);
    hide *;
    latest := tags[0];
    for i := 1 to |tags|
      invariant Best(tags, i, latest)
    {
      BestStep(tags, i, latest);
      if Newer(tags[i], latest) {
        latest := tags[i];
      }
    }
    BestMeans(tags, |tags|, latest);
    LatestFound(rows, stable, tags, latest);
  }

  /** The latest of the first `n` tags, all of which are versions. */
  ghost predicate Best(tags: seq<string>, n: nat, latest: string) {
    && 0 < n <= |tags| && (forall j | 0 <= j < |tags| :: V.Parse(tags[j]).Some?)
    && latest in tags && V.Parse(latest).Some? && forall j | 0 <= j < n :: NotNewer(tags[j], latest)
  }

  lemma FirstBest(tags: seq<string>)
    requires tags != [] && forall tag | tag in tags :: V.Parse(tag).Some?
    ensures Best(tags, 1, tags[0])
  {
    hide V.Parse;
    assert forall j | 0 <= j < |tags| :: tags[j] in tags;
  }

  lemma BestStep(tags: seq<string>, n: nat, latest: string)
    requires n < |tags| && Best(tags, n, latest)
    ensures V.Parse(tags[n]).Some? && V.Parse(latest).Some?
    ensures Best(tags, n + 1, if Newer(tags[n], latest) then tags[n] else latest)
  {
    hide V.Parse;
    assert tags[n] in tags;
    if Newer(tags[n], latest) {
      forall j | 0 <= j < n ensures NotNewer(tags[j], tags[n]) {
        NewerStill(tags[j], latest, tags[n]);
      }
      NoNewer(tags[n]);
    } else {
      NotNewerThen(tags[n], latest);
    }
  }

  lemma BestMeans(tags: seq<string>, n: nat, latest: string)
    requires Best(tags, n, latest)
    ensures latest in tags && forall j | 0 <= j < n :: NotNewer(tags[j], latest)
  {
    hide NotNewer, V.Parse;
  }

  predicate Newer(a: string, b: string)
    requires V.Parse(a).Some? && V.Parse(b).Some?
  {
    V.Below(V.Parse(b).value, V.Parse(a).value)
  }

  predicate NotNewer(a: string, b: string) {
    V.Parse(a).Some? && V.Parse(b).Some? && V.AtMost(V.Parse(a).value, V.Parse(b).value)
  }

  lemma NoNewer(a: string)
    requires V.Parse(a).Some?
    ensures NotNewer(a, a)
  {
    hide V.Parse;
  }

  lemma NotNewerThen(a: string, b: string)
    requires V.Parse(a).Some? && V.Parse(b).Some? && !Newer(a, b)
    ensures NotNewer(a, b)
  {
    hide V.Parse;
  }

  lemma NewerStill(a: string, b: string, c: string)
    requires NotNewer(a, b) && V.Parse(c).Some? && Newer(c, b)
    ensures NotNewer(a, c)
  {
    hide V.Parse;
  }

  lemma LatestFound(rows: seq<Item>, stable: map<string, Item>, tags: seq<string>, latest: string)
    requires Tabled(rows, stable) && latest in stable && forall tag :: tag in tags <==> tag in stable
    requires forall j | 0 <= j < |tags| :: NotNewer(tags[j], latest)
    ensures IsLatest(rows, latest)
  {
    hide V.Parse, V.AtMost;
    assert forall r | IsStable(r) :: r.Row?;
    hide IsStable;
    forall r | r in rows && IsStable(r) ensures NotNewer(r.tag, latest) {
      assert r.tag in tags;
      var j :| 0 <= j < |tags| && tags[j] == r.tag;
    }
    assert stable[latest] in rows && IsStable(stable[latest]) && stable[latest].tag == latest;
  }

  lemma NotNoTags(stable: map<string, Item>)
    requires stable != map[]
    ensures SortedSet(stable.Keys) != []
  {
    var tag :| tag in stable;
    assert tag in SortedSet(stable.Keys);
  }

  lemma TagsParse(rows: seq<Item>, stable: map<string, Item>)
    requires Tabled(rows, stable)
    ensures forall tag | tag in stable :: V.Parse(tag).Some?
  {
    assert forall tag | tag in stable :: IsStable(stable[tag]);
  }

  /** Only one tag is the latest. */
  lemma OnlyLatest(rows: seq<Item>, latest: string, tag: string)
    requires IsLatest(rows, latest)
    ensures IsLatest(rows, tag) <==> tag == latest
  {
    if IsLatest(rows, tag) {
      var r :| r in rows && IsStable(r) && r.tag == tag;
      var s :| s in rows && IsStable(s) && s.tag == latest;
      V.ParseThenText(tag);
      V.ParseThenText(latest);
      V.BelowIsOrder();
    }
  }

  // ----- the conditions on the rows themselves

  /** A published release that can no longer change, under a version tag. */
  predicate Published(r: Item) {
    r.Row? && V.Parse(r.tag).Some? && r.body == Body(false, false, true, r.body.hasAssets, r.body.others)
  }

  /** Of two published rows with one tag neither may differ, and each has assets. */
  lemma OrderlyIff(rows: seq<Item>)
    ensures Orderly(rows) <==>
              forall r, s | r in rows && s in rows && Published(r) && Published(s) ::
                r.body.hasAssets && (r.tag == s.tag ==> r == s)
  {
    assert forall r :: IsStable(r) <==> Published(r);
    hide IsStable, Published;
  }

  /** The latest is the tag of a published row whose version is above that of any published row with another tag. */
  lemma LatestIff(rows: seq<Item>, tag: string)
    ensures IsLatest(rows, tag) <==>
              && (exists r :: r in rows && Published(r) && r.tag == tag)
              && forall r | r in rows && Published(r) && r.tag != tag ::
                   V.Parse(tag).Some? && V.Below(V.Parse(r.tag).value, V.Parse(tag).value)
  {
    assert forall r :: IsStable(r) <==> Published(r);
    hide IsStable, Published;
    forall r | r in rows && IsStable(r) && V.Parse(tag).Some? && V.Parse(r.tag) == V.Parse(tag) ensures r.tag == tag {
      V.ParseThenText(r.tag);
      V.ParseThenText(tag);
    }
    assert forall r | IsStable(r) :: r.Row? && V.Parse(r.tag).Some? by {
      StableParses();
    }
    V.BelowIsOrder();
    hide V.Parse;
  }

  lemma StableParses()
    ensures forall r | IsStable(r) :: r.Row? && V.Parse(r.tag).Some?
  {
  }
}
