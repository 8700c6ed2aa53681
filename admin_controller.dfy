/** The admin handlers: role, ban-flag, listing-status and swap-status writes
    checked against fixed whitelists, the admin tables, and the dashboard counts.
    The routes are behind the admin gate; these handlers do no checks of their own
    beyond the whitelists, and a write to an id that matches no row still succeeds. */
module AdminController {
  import opened Common
  import opened Store
  import opened ProfileController

  const InvalidRole: string := "Invalid role. Must be \"user\" or \"admin\""
  const InvalidListingStatus: string := "Invalid status. Must be \"pending\", \"approved\", \"rejected\", or \"spam\""
  const InvalidSwapStatus: string := "Invalid status. Must be \"pending\", \"completed\", or \"cancelled\""

  /** A body field that must be one of `allowed`; an absent field never is. */
  predicate Allowed(field: Option<string>, allowed: seq<string>) {
    field.Some? && field.value in allowed
  }

  // ---------------------------------------------------------------------------
  // Row writes
  // ---------------------------------------------------------------------------

  /** `UPDATE user_profiles SET role = ? WHERE id = ?` */
  function SetRole(users: seq<User>, id: Id, role: string): (r: seq<User>)
    ensures |r| == |users|
    ensures forall k :: 0 <= k < |users| ==>
              r[k] == if users[k].id == id then users[k].(role := role) else users[k]
    ensures !UserExists(users, id) ==> r == users
  {
    seq(|users|, k requires 0 <= k < |users| => if users[k].id == id then users[k].(role := role) else users[k])
  }

  /** `UPDATE user_profiles SET is_banned = ? WHERE id = ?` */
  function SetBanned(users: seq<User>, id: Id, banned: bool): (r: seq<User>)
    ensures |r| == |users|
    ensures forall k :: 0 <= k < |users| ==>
              r[k] == if users[k].id == id then users[k].(isBanned := banned) else users[k]
    ensures !UserExists(users, id) ==> r == users
  {
    seq(|users|, k requires 0 <= k < |users| => if users[k].id == id then users[k].(isBanned := banned) else users[k])
  }

  /** `UPDATE listings SET status = ? WHERE id = ?`: the new status whatever the old one was. */
  function SetListingStatus(listings: seq<Listing>, id: Id, status: string): (r: seq<Listing>)
    ensures |r| == |listings|
    ensures forall k :: 0 <= k < |listings| ==>
              r[k] == if listings[k].id == id then listings[k].(status := status) else listings[k]
    ensures (forall k :: 0 <= k < |listings| ==> listings[k].id != id) ==> r == listings
  {
    seq(|listings|, k requires 0 <= k < |listings| =>
          if listings[k].id == id then listings[k].(status := status) else listings[k])
  }

  /** `UPDATE swap_history SET status = ? WHERE id = ?`: the new status whatever the old one was. */
  function SetSwapStatus(swaps: seq<Swap>, id: Id, status: string): (r: seq<Swap>)
    ensures |r| == |swaps|
    ensures forall k :: 0 <= k < |swaps| ==>
              r[k] == if swaps[k].id == id then swaps[k].(status := status) else swaps[k]
    ensures (forall k :: 0 <= k < |swaps| ==> swaps[k].id != id) ==> r == swaps
  {
    seq(|swaps|, k requires 0 <= k < |swaps| => if swaps[k].id == id then swaps[k].(status := status) else swaps[k])
  }

  /** `updateUserRole`: 400 unless the role is `user` or `admin`; otherwise the
      role of the matching row is set, and the reply is 200 even if none matches. */
  method UpdateUserRole(db: Database, userId: Id, role: Option<string>) returns (r: Reply<string>)
    requires db.Valid()
    modifies db
    ensures db.Valid()
    ensures db.listings == old(db.listings) && db.history == old(db.history)
    ensures db.swaps == old(db.swaps) && db.clock == old(db.clock)
    ensures !Allowed(role, Roles) ==> r == Fail(400, InvalidRole) && db.users == old(db.users)
    ensures Allowed(role, Roles) ==>
              r == Ok(200, "User role updated successfully") && db.users == SetRole(old(db.users), userId, role.value)
  {
    if !(role.Some? && role.value in Roles) {
      return Fail(400, InvalidRole);
    }
    var users := SetRole(db.users, userId, role.value);
    UserEditKeepsInvariant(db.users, users, db.listings, db.history, db.swaps, db.clock);
    db.Commit(users, db.listings, db.history, db.swaps, db.clock);
    r := Ok(200, "User role updated successfully");
  }

  /** `toggleUserStatus`: the ban flag becomes `status === 'banned'`; any other
      value, including none, clears it. Always 200. */
  method ToggleUserStatus(db: Database, userId: Id, status: Option<string>) returns (r: Reply<string>)
    requires db.Valid()
    modifies db
    ensures db.Valid()
    ensures db.listings == old(db.listings) && db.history == old(db.history)
    ensures db.swaps == old(db.swaps) && db.clock == old(db.clock)
    ensures db.users == SetBanned(old(db.users), userId, status == Some("banned"))
    ensures r == Ok(200, if status == Some("banned") then "User banned successfully" else "User unbanned successfully")
  {
    var isBanned := status == Some("banned");
    var users := SetBanned(db.users, userId, isBanned);
    UserEditKeepsInvariant(db.users, users, db.listings, db.history, db.swaps, db.clock);
    db.Commit(users, db.listings, db.history, db.swaps, db.clock);
    r := Ok(200, if isBanned then "User banned successfully" else "User unbanned successfully");
  }

  /** `updateListingStatus`: 400 unless the status is on the whitelist;
      otherwise any current status may be replaced by any allowed one. */
  method UpdateListingStatus(db: Database, listingId: Id, status: Option<string>) returns (r: Reply<string>)
    requires db.Valid()
    modifies db
    ensures db.Valid()
    ensures db.users == old(db.users) && db.history == old(db.history)
    ensures db.swaps == old(db.swaps) && db.clock == old(db.clock)
    ensures !Allowed(status, ListingStatuses) ==> r == Fail(400, InvalidListingStatus) && db.listings == old(db.listings)
    ensures Allowed(status, ListingStatuses) ==>
              && r == Ok(200, "Listing status updated successfully")
              && db.listings == SetListingStatus(old(db.listings), listingId, status.value)
  {
    if !(status.Some? && status.value in ListingStatuses) {
      return Fail(400, InvalidListingStatus);
    }
    var listings := SetListingStatus(db.listings, listingId, status.value);
    ListingEditKeepsInvariant(db.users, db.listings, listings, db.history, db.swaps, db.clock);
    db.Commit(db.users, listings, db.history, db.swaps, db.clock);
    r := Ok(200, "Listing status updated successfully");
  }

  /** `updateSwapStatus`: 400 unless the status is on the whitelist; otherwise
      any-to-any, and no balance or history row moves. */
  method UpdateSwapStatus(db: Database, swapId: Id, status: Option<string>) returns (r: Reply<string>)
    requires db.Valid()
    modifies db
    ensures db.Valid()
    ensures db.users == old(db.users) && db.history == old(db.history)
    ensures db.listings == old(db.listings) && db.clock == old(db.clock)
    ensures !Allowed(status, SwapStatuses) ==> r == Fail(400, InvalidSwapStatus) && db.swaps == old(db.swaps)
    ensures Allowed(status, SwapStatuses) ==>
              && r == Ok(200, "Swap status updated successfully")
              && db.swaps == SetSwapStatus(old(db.swaps), swapId, status.value)
  {
    if !(status.Some? && status.value in SwapStatuses) {
      return Fail(400, InvalidSwapStatus);
    }
    var swaps := SetSwapStatus(db.swaps, swapId, status.value);
    SwapEditKeepsInvariant(db.users, db.listings, db.history, db.swaps, swaps, db.clock);
    db.Commit(db.users, db.listings, db.history, swaps, db.clock);
    r := Ok(200, "Swap status updated successfully");
  }

  // ---------------------------------------------------------------------------
  // Reads
  // ---------------------------------------------------------------------------

  /** A row of the admin user table: the profile columns (no password, no ban
      flag) with the user's listing and swap counts. */
  datatype AdminUser = AdminUser(profile: Profile, totalListings: nat, totalSwaps: nat)

  /** `total_listings`: the rows the subquery selects, counted. */
  function ListingCount(listings: seq<Listing>, id: Id): (n: nat)
    ensures n == CountWhere(listings, ListedBy(id))
  {
    SelectCount(listings, ListedBy(id));
    |Select(listings, ListedBy(id))|
  }

  /** `total_swaps`: the swaps the user sent or received, counted. */
  function SwapCount(swaps: seq<Swap>, id: Id): (n: nat)
    ensures n == CountWhere(swaps, Involves(id))
  {
    SelectCount(swaps, Involves(id));
    |Select(swaps, Involves(id))|
  }

  /** One row of the admin user table. */
  function AdminRow(u: User, listings: seq<Listing>, swaps: seq<Swap>): (row: AdminUser)
    ensures row.profile == ProfileOf(u)
    ensures row.totalListings == CountWhere(listings, ListedBy(u.id))
    ensures row.totalSwaps == CountWhere(swaps, Involves(u.id))
  {
    AdminUser(ProfileOf(u), ListingCount(listings, u.id), SwapCount(swaps, u.id))
  }

  /** `getAllUsers`: every user, newest first, with their counts. */
  function GetAllUsers(users: seq<User>, listings: seq<Listing>, swaps: seq<Swap>): (r: seq<AdminUser>)
    ensures |r| == |users|
    ensures forall i :: 0 <= i < |r| ==> r[i] == AdminRow(users[|users| - 1 - i], listings, swaps)
  {
    seq(|users|, i requires 0 <= i < |users| => AdminRow(users[|users| - 1 - i], listings, swaps))
  }

  /** The admin user table comes out newest first. */
  lemma AllUsersNewestFirst(users: seq<User>, listings: seq<Listing>, swaps: seq<Swap>, clock: nat)
    requires Chronological(users, UserTime, clock)
    ensures forall i, j :: 0 <= i < j < |users| ==>
              GetAllUsers(users, listings, swaps)[i].profile.createdAt > GetAllUsers(users, listings, swaps)[j].profile.createdAt
  {
    var r := GetAllUsers(users, listings, swaps);
    forall i, j | 0 <= i < j < |users| ensures r[i].profile.createdAt > r[j].profile.createdAt {
      assert UserTime(users[|users| - 1 - j]) < UserTime(users[|users| - 1 - i]);
    }
  }

  /** `getAllListings` (admin): every listing, newest first. It returns what the
      public listing query returns with no filter. */
  function AdminListings(listings: seq<Listing>): (r: seq<Listing>)
    ensures |r| == |listings|
    ensures forall l :: l in r <==> l in listings
  {
    var all := (l: Listing) => true;
    SelectAll(listings, all);
    NewestFirst(listings, all)
  }

  /** `getAllSwaps`: every swap, newest first. */
  function AdminSwaps(swaps: seq<Swap>): (r: seq<Swap>)
    ensures |r| == |swaps|
    ensures forall s :: s in r <==> s in swaps
  {
    var all := (s: Swap) => true;
    SelectAll(swaps, all);
    NewestFirst(swaps, all)
  }

  lemma AdminTablesNewestFirst(listings: seq<Listing>, swaps: seq<Swap>, clock: nat)
    requires Chronological(listings, ListingTime, clock) && Chronological(swaps, SwapTime, clock)
    ensures Descending(AdminListings(listings), ListingTime)
    ensures Descending(AdminSwaps(swaps), SwapTime)
  {
    NewestFirstDescending(listings, (l: Listing) => true, ListingTime);
    NewestFirstDescending(swaps, (s: Swap) => true, SwapTime);
  }

  datatype Stats = Stats(totalUsers: nat, totalListings: nat, totalSwaps: nat, pendingListings: nat)

  function IsPending(l: Listing): bool { l.status == "pending" }

  /** `getDashboardStats` without the two counts that read the wall clock. */
  function DashboardStats(users: seq<User>, listings: seq<Listing>, swaps: seq<Swap>): (r: Stats)
    ensures r.totalUsers == |users| && r.totalListings == |listings| && r.totalSwaps == |swaps|
    ensures r.pendingListings == CountWhere(listings, IsPending)
  {
    SelectCount(listings, IsPending);
    Stats(|users|, |listings|, |swaps|, |Select(listings, IsPending)|)
  }

  /** Everything pending exactly when the pending count is the total, nothing
      pending exactly when it is zero. */
  lemma PendingCountExtremes(users: seq<User>, listings: seq<Listing>, swaps: seq<Swap>)
    ensures DashboardStats(users, listings, swaps).pendingListings == DashboardStats(users, listings, swaps).totalListings
            <==> forall k :: 0 <= k < |listings| ==> IsPending(listings[k])
    ensures DashboardStats(users, listings, swaps).pendingListings == 0
            <==> forall k :: 0 <= k < |listings| ==> !IsPending(listings[k])
  {
    CountWhereExtremes(listings, IsPending);
  }
}
