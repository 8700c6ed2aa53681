/** The listing handlers: creation with its 5-point award, the filtered and
    per-owner listings, lookup by id, and the owner-checked update and delete. */
module ListingController {
  import opened Common
  import opened Store

  /** The fields `createListing` and `updateListing` read from the request body.
      `points` is absent when the client leaves it out. */
  datatype ListingFields = ListingFields(
    title: string,
    description: string,
    category: string,
    condition: string,
    points: Option<int>)

  /** The `listing` object of the 201 reply. */
  datatype ListingSummary = ListingSummary(
    id: Id,
    title: string,
    description: string,
    category: string,
    condition: string,
    points: int,
    status: string)

  datatype Created = Created(message: string, listing: ListingSummary)

  /** `req.query`: each filter may be missing or empty. */
  datatype ListingQuery = ListingQuery(category: Option<string>, status: Option<string>, userId: Option<string>)

  /** One `AND` clause of the `getAllListings` query, with its bound parameter. */
  datatype Filter = ByCategory(category: string) | ByStatus(status: string) | ByOwner(userId: Id)

  const ListingNotFound: string := "Listing not found"
  const NotFoundOrDenied: string := "Listing not found or access denied"
  const UploadsPrefix: string := "/uploads/listings/"

  // ---------------------------------------------------------------------------
  // createListing
  // ---------------------------------------------------------------------------

  /** `points || 10`: an absent or zero amount becomes 10. */
  function DefaultPoints(points: Option<int>): (r: int)
    ensures r != 0
    ensures points.Some? && points.value != 0 ==> r == points.value
  {
    if points.Some? && points.value != 0 then points.value else 10
  }

  /** The stored `image_url` for the uploaded file's name, if a file came with the request. */
  function ImageUrl(filename: Option<string>): (r: Option<string>)
    ensures r.Some? <==> filename.Some?
    ensures r.Some? ==> r.value == UploadsPrefix + filename.value
  {
    if filename.Some? then Some(UploadsPrefix + filename.value) else None
  }

  /** The listing row `createListing` inserts. */
  function NewListing(listingId: Id, owner: Id, f: ListingFields, filename: Option<string>, clock: nat)
    : (l: Listing)
    ensures l.id == listingId && l.userId == owner && l.createdAt == clock
    ensures l.status == "pending" && l.status in ListingStatuses
    ensures l.points == DefaultPoints(f.points) && l.points != 0
    ensures l.imageUrl.Some? <==> filename.Some?
  {
    Listing(listingId, owner, f.title, f.description, ImageUrl(filename), f.category, f.condition,
            DefaultPoints(f.points), "pending", clock)
  }

  /** The history row recording the 5-point award. */
  function CreationAward(entryId: Id, owner: Id, title: string, clock: nat): (e: PointsEntry)
    ensures e.userId == owner && e.points == 5 && e.action == "listing_created" && e.createdAt == clock
  {
    PointsEntry(entryId, owner, 5, "listing_created", "Created new listing: " + title, clock)
  }

  /** The listing insert, the 5-point credit and the award row together keep
      the store invariant. */
  lemma CreationKeepsInvariant(users: seq<User>, listings: seq<Listing>, history: seq<PointsEntry>,
                               swaps: seq<Swap>, clock: nat, listingId: Id, caller: Id, f: ListingFields,
                               filename: Option<string>, entryId: Id)
    requires Invariant(users, listings, history, swaps, clock)
    requires FreshListingId(listings, listingId)
    ensures Invariant(Credit(users, caller, 5), listings + [NewListing(listingId, caller, f, filename, clock)],
                      history + [CreationAward(entryId, caller, f.title, clock + 1)], swaps, clock + 2)
  {
    ListingAndAwardKeepInvariant(users, listings, history, swaps, clock,
                                 NewListing(listingId, caller, f, filename, clock),
                                 CreationAward(entryId, caller, f.title, clock + 1));
  }

  /** `createListing`: three writes in sequence, not in a transaction: insert the
      listing as `pending`, credit the caller 5 points, append the matching history
      row. The caller's id comes from the authenticated request. */
  method CreateListing(db: Database, caller: Id, f: ListingFields, filename: Option<string>,
                       listingId: Id, entryId: Id)
    returns (r: Reply<Created>)
    requires db.Valid()
    requires FreshListingId(db.listings, listingId)
    modifies db
    ensures db.Valid()
    ensures db.swaps == old(db.swaps)
    ensures r.Ok? <==> UserExists(old(db.users), caller)
    ensures r.Fail? ==>
      && r == Fail(500, ServerError)
      && db.users == old(db.users) && db.listings == old(db.listings)
      && db.history == old(db.history) && db.clock == old(db.clock)
    ensures r.Ok? ==>
      && db.listings == old(db.listings) + [NewListing(listingId, caller, f, filename, old(db.clock))]
      && db.users == Credit(old(db.users), caller, 5)
      && db.history == old(db.history) + [CreationAward(entryId, caller, f.title, old(db.clock) + 1)]
      && db.clock == old(db.clock) + 2
      && r == Ok(201, Created("Listing created successfully",
                              ListingSummary(listingId, f.title, f.description, f.category, f.condition,
                                             DefaultPoints(f.points), "pending")))
  {
    // INSERT INTO listings: refused when the caller names no user
    // (listings.user_id references user_profiles.id).
    if First(db.users, HasId(caller)).None? {
      return Fail(500, ServerError);
    }
    var users, listings, history, swaps, clock := db.users, db.listings, db.history, db.swaps, db.clock;
    var listing := NewListing(listingId, caller, f, filename, clock);
    // UPDATE user_profiles SET points = points + 5, then INSERT INTO points_history.
    var entry := CreationAward(entryId, caller, f.title, clock + 1);
    CreationKeepsInvariant(users, listings, history, swaps, clock, listingId, caller, f, filename, entryId);
    db.Commit(Credit(users, caller, 5), listings + [listing], history + [entry], swaps, clock + 2);

    r := Ok(201, Created("Listing created successfully",
                         ListingSummary(listingId, f.title, f.description, f.category, f.condition,
                                        DefaultPoints(f.points), "pending")));
  }

  // ---------------------------------------------------------------------------
  // Reads
  // ---------------------------------------------------------------------------

  /** The `AND` clauses `getAllListings` appends, in the order category, status,
      user id, one for each filter that is present and not empty. */
  method BuildFilters(q: ListingQuery) returns (filters: seq<Filter>)
    ensures filters == Filters(q)
    ensures |filters| <= 3
    ensures forall l :: SatisfiesAll(l, filters) <==> MatchesQuery(q, l)
  {
    filters := [];
    if Truthy(q.category) {
      filters := filters + [ByCategory(q.category.value)];
    }
    if Truthy(q.status) {
      filters := filters + [ByStatus(q.status.value)];
    }
    if Truthy(q.userId) {
      filters := filters + [ByOwner(q.userId.value)];
    }
    FiltersMeaning(q);
  }

  /** The clauses, as a value. */
  function Filters(q: ListingQuery): seq<Filter> {
    (if Truthy(q.category) then [ByCategory(q.category.value)] else [])
    + (if Truthy(q.status) then [ByStatus(q.status.value)] else [])
    + (if Truthy(q.userId) then [ByOwner(q.userId.value)] else [])
  }

  predicate Satisfies(l: Listing, c: Filter) {
    match c
    case ByCategory(cat) => l.category == cat
    case ByStatus(st) => l.status == st
    case ByOwner(uid) => l.userId == uid
  }

  predicate SatisfiesAll(l: Listing, filters: seq<Filter>) {
    forall k :: 0 <= k < |filters| ==> Satisfies(l, filters[k])
  }

  /** The intended meaning of the query: each supplied filter must match. */
  predicate MatchesQuery(q: ListingQuery, l: Listing) {
    && (Truthy(q.category) ==> l.category == q.category.value)
    && (Truthy(q.status) ==> l.status == q.status.value)
    && (Truthy(q.userId) ==> l.userId == q.userId.value)
  }

  lemma FiltersMeaning(q: ListingQuery)
    ensures |Filters(q)| <= 3
    ensures forall l :: SatisfiesAll(l, Filters(q)) <==> MatchesQuery(q, l)
  {
    var fs := Filters(q);
    forall l ensures SatisfiesAll(l, fs) <==> MatchesQuery(q, l) {
      if Truthy(q.category) { assert fs[0] == ByCategory(q.category.value); }
      if Truthy(q.status) {
        var i := if Truthy(q.category) then 1 else 0;
        assert fs[i] == ByStatus(q.status.value);
      }
      if Truthy(q.userId) { assert fs[|fs| - 1] == ByOwner(q.userId.value); }
    }
  }

  /** `getAllListings`: the listings matching every supplied filter, newest first. */
  function GetAllListings(listings: seq<Listing>, q: ListingQuery): (r: seq<Listing>)
    ensures forall l :: l in r <==> l in listings && MatchesQuery(q, l)
  {
    NewestFirst(listings, (l: Listing) => MatchesQuery(q, l))
  }

  lemma AllListingsNewestFirst(listings: seq<Listing>, q: ListingQuery, clock: nat)
    requires Chronological(listings, ListingTime, clock)
    ensures Descending(GetAllListings(listings, q), ListingTime)
  {
    NewestFirstDescending(listings, (l: Listing) => MatchesQuery(q, l), ListingTime);
  }

  /** Without filters, every listing comes back, newest first. */
  lemma NoFiltersReturnsAll(listings: seq<Listing>, q: ListingQuery)
    requires !Truthy(q.category) && !Truthy(q.status) && !Truthy(q.userId)
    ensures GetAllListings(listings, q) == Reverse(listings)
  {
    SelectAll(listings, (l: Listing) => MatchesQuery(q, l));
  }

  /** `getUserListings`: the listings owned by `userId`, newest first. */
  function GetUserListings(listings: seq<Listing>, userId: Id): (r: seq<Listing>)
    ensures forall l :: l in r <==> l in listings && l.userId == userId
  {
    NewestFirst(listings, ListedBy(userId))
  }

  /** For a non-empty id, `getUserListings` agrees with `getAllListings` filtered
      on the owner alone. (An empty id is ignored by `getAllListings` but matched
      literally by `getUserListings`.) */
  lemma UserListingsAreFilteredListings(listings: seq<Listing>, userId: Id)
    requires userId != ""
    ensures GetUserListings(listings, userId) == GetAllListings(listings, ListingQuery(None, None, Some(userId)))
  {
    var q := ListingQuery(None, None, Some(userId));
    SelectCongruent(listings, (l: Listing) => l.userId == userId, (l: Listing) => MatchesQuery(q, l));
  }

  /** `getListingById`: the row with that id, or 404. */
  function GetListingById(listings: seq<Listing>, id: Id): (r: Reply<Listing>)
    ensures r.Ok? <==> exists k :: 0 <= k < |listings| && listings[k].id == id
    ensures r.Ok? ==> r.status == 200 && r.body in listings && r.body.id == id
    ensures r.Fail? ==> r == Fail(404, ListingNotFound)
  {
    match First(listings, (l: Listing) => l.id == id)
    case None => Fail(404, ListingNotFound)
    case Some(k) => Ok(200, listings[k])
  }

  // ---------------------------------------------------------------------------
  // Owner-checked writes
  // ---------------------------------------------------------------------------

  /** `SELECT * FROM listings WHERE id = ? AND user_id = ?` finds a row. */
  predicate OwnedListing(listings: seq<Listing>, id: Id, caller: Id) {
    exists k :: 0 <= k < |listings| && listings[k].id == id && listings[k].userId == caller
  }

  /** `UPDATE listings SET title, description, category, condition, points WHERE id = ?` */
  function Revise(listings: seq<Listing>, id: Id, title: string, description: string, category: string,
                  condition: string, points: int): (r: seq<Listing>)
    ensures |r| == |listings|
    ensures forall k :: 0 <= k < |listings| ==>
              r[k] == if listings[k].id == id
                      then listings[k].(title := title, description := description, category := category,
                                        condition := condition, points := points)
                      else listings[k]
  {
    seq(|listings|, k requires 0 <= k < |listings| =>
          if listings[k].id == id
          then listings[k].(title := title, description := description, category := category,
                            condition := condition, points := points)
          else listings[k])
  }

  /** `updateListing`: 404 unless the caller owns the listing; otherwise the five
      editable columns are overwritten, and owner, status, image and creation
      time are kept. */
  method UpdateListing(db: Database, caller: Id, id: Id, title: string, description: string,
                       category: string, condition: string, points: int)
    returns (r: Reply<string>)
    requires db.Valid()
    modifies db
    ensures db.Valid()
    ensures db.users == old(db.users) && db.history == old(db.history)
    ensures db.swaps == old(db.swaps) && db.clock == old(db.clock)
    ensures !OwnedListing(old(db.listings), id, caller) ==>
              r == Fail(404, NotFoundOrDenied) && db.listings == old(db.listings)
    ensures OwnedListing(old(db.listings), id, caller) ==>
              && r == Ok(200, "Listing updated successfully")
              && db.listings == Revise(old(db.listings), id, title, description, category, condition, points)
  {
    if First(db.listings, (l: Listing) => l.id == id && l.userId == caller).None? {
      return Fail(404, NotFoundOrDenied);
    }
    var listings := Revise(db.listings, id, title, description, category, condition, points);
    ListingEditKeepsInvariant(db.users, db.listings, listings, db.history, db.swaps, db.clock);
    db.Commit(db.users, listings, db.history, db.swaps, db.clock);
    r := Ok(200, "Listing updated successfully");
  }

  function NotId(id: Id): Listing -> bool {
    (l: Listing) => l.id != id
  }

  /** `deleteListing`: 404 unless the caller owns the listing; otherwise every
      row with that id is removed and the rest keep their order. */
  method DeleteListing(db: Database, caller: Id, id: Id) returns (r: Reply<string>)
    requires db.Valid()
    modifies db
    ensures db.Valid()
    ensures db.users == old(db.users) && db.history == old(db.history)
    ensures db.swaps == old(db.swaps) && db.clock == old(db.clock)
    ensures !OwnedListing(old(db.listings), id, caller) ==>
              r == Fail(404, NotFoundOrDenied) && db.listings == old(db.listings)
    ensures OwnedListing(old(db.listings), id, caller) ==>
              r == Ok(200, "Listing deleted successfully") && db.listings == Select(old(db.listings), NotId(id))
  {
    if First(db.listings, (l: Listing) => l.id == id && l.userId == caller).None? {
      return Fail(404, NotFoundOrDenied);
    }
    ListingDeleteKeepsInvariant(db.users, db.listings, db.history, db.swaps, db.clock, NotId(id));
    db.Commit(db.users, Select(db.listings, NotId(id)), db.history, db.swaps, db.clock);
    r := Ok(200, "Listing deleted successfully");
  }

  /** With unique ids, deleting removes exactly the one named row. */
  lemma DeleteRemovesExactlyOne(listings: seq<Listing>, id: Id, k: nat)
    requires UniqueListingIds(listings)
    requires k < |listings| && listings[k].id == id
    ensures Select(listings, NotId(id)) == listings[..k] + listings[k + 1..]
  {
    assert forall j :: 0 <= j < |listings| && j != k ==> listings[j].id != id by {
      forall j | 0 <= j < |listings| && j != k ensures listings[j].id != id {
        if j < k { assert listings[j].id != listings[k].id; } else { assert listings[k].id != listings[j].id; }
      }
    }
    RemoveOnlyMatch(listings, id, k);
  }

  /** Removing the rows with an id that only row `k` has leaves the others in order. */
  lemma {:induction false} RemoveOnlyMatch(listings: seq<Listing>, id: Id, k: nat)
    requires k < |listings| && listings[k].id == id
    requires forall j :: 0 <= j < |listings| && j != k ==> listings[j].id != id
    ensures Select(listings, NotId(id)) == listings[..k] + listings[k + 1..]
  {
    var tail := listings[1..];
    forall j | 0 <= j < |tail| && j != k - 1 ensures tail[j].id != id {
      assert tail[j] == listings[j + 1];
    }
    if k == 0 {
      SelectAll(tail, NotId(id));
      assert listings[..0] + listings[1..] == tail;
    } else {
      RemoveOnlyMatch(tail, id, k - 1);
      KeepHead(listings, id, k);
    }
  }

  /** A head row that stays, in front of the result for the tail. */
  lemma KeepHead(listings: seq<Listing>, id: Id, k: nat)
    requires 0 < k < |listings| && listings[0].id != id
    requires Select(listings[1..], NotId(id)) == listings[1..][..k - 1] + listings[1..][k..]
    ensures Select(listings, NotId(id)) == listings[..k] + listings[k + 1..]
  {
    HeadAndTail(listings, k);
  }

  lemma HeadAndTail<T>(s: seq<T>, k: nat)
    requires 0 < k < |s|
    ensures s[..k] == [s[0]] + s[1..][..k - 1]
    ensures s[k + 1..] == s[1..][k..]
  {
    assert s[..k] == [s[0]] + s[1..][..k - 1];
  }
}
