/** The four tables the backend controllers read and write (`user_profiles`,
    `listings`, `points_history`, `swap_history`), the points ledger over them,
    and the invariant every handler keeps: each user's `points` column is the
    sum of that user's `points_history` rows. */
module Store {
  import opened Common

  /** A uuid, as stored in the `id` columns. */
  type Id = string

  datatype User = User(
    id: Id,
    email: string,
    name: string,
    password: string,       // the bcrypt hash, never the clear text
    phone: Option<string>,
    bio: Option<string>,
    avatarUrl: Option<string>,
    role: string,
    referralCode: string,
    points: int,
    isBanned: bool,
    createdAt: nat)

  datatype Listing = Listing(
    id: Id,
    userId: Id,
    title: string,
    description: string,
    imageUrl: Option<string>,
    category: string,
    condition: string,
    points: int,
    status: string,
    createdAt: nat)

  datatype PointsEntry = PointsEntry(
    id: Id,
    userId: Id,
    points: int,
    action: string,
    description: string,
    createdAt: nat)

  datatype Swap = Swap(
    id: Id,
    senderId: Id,
    receiverId: Id,
    listingId: Id,
    status: string,
    createdAt: nat)

  /** What a handler sends back: a success status with a body, or an error
      status with the `error` text of the JSON body. */
  datatype Reply<T> = Ok(status: nat, body: T) | Fail(status: nat, error: string)

  const ServerError: string := "Internal server error"

  /** What the HTTP client makes of a server reply: a 2xx reply is a response
      carrying its status; any other is thrown as an error. */
  function Received<T>(reply: Reply<T>): (r: ApiResult<nat>)
    ensures r.Success? <==> 200 <= reply.status < 300
    ensures r.Success? ==> r.data == reply.status
  {
    if 200 <= reply.status < 300 then Success(reply.status)
    else Failure(if reply.Fail? then reply.error else "")
  }

  /** The same, as the response body the client reads: the body of a 2xx reply,
      or the thrown error with the reply's `error` text. */
  function Delivered<T>(reply: Reply<T>): (r: ApiResult<T>)
    ensures r.Success? <==> reply.Ok? && 200 <= reply.status < 300
    ensures r.Success? ==> r.data == reply.body
    ensures r.Failure? && reply.Fail? ==> r.error == reply.error
  {
    if reply.Ok? && 200 <= reply.status < 300 then Success(reply.body)
    else Failure(if reply.Fail? then reply.error else "")
  }

  /** The whitelists the admin handlers check against. */
  const Roles: seq<string> := ["user", "admin"]
  const ListingStatuses: seq<string> := ["pending", "approved", "rejected", "spam"]
  const SwapStatuses: seq<string> := ["pending", "completed", "cancelled"]

  function UserTime(u: User): int { u.createdAt }
  function ListingTime(l: Listing): int { l.createdAt }
  function EntryTime(e: PointsEntry): int { e.createdAt }
  function SwapTime(s: Swap): int { s.createdAt }

  predicate UserExists(users: seq<User>, id: Id) {
    exists k :: 0 <= k < |users| && users[k].id == id
  }

  /** `WHERE id = ?` on `user_profiles`. */
  function HasId(id: Id): User -> bool {
    (u: User) => u.id == id
  }

  /** `WHERE user_id = ?` on `listings`. */
  function ListedBy(id: Id): Listing -> bool {
    (l: Listing) => l.userId == id
  }

  // ---------------------------------------------------------------------------
  // The points ledger
  // ---------------------------------------------------------------------------

  /** The sum of the `points` of `user`'s rows in `history`. */
  function Ledger(history: seq<PointsEntry>, user: Id): (sum: int)
    ensures (forall k :: 0 <= k < |history| ==> history[k].userId != user) ==> sum == 0
  {
    if history == [] then 0
    else (if history[0].userId == user then history[0].points else 0) + Ledger(history[1..], user)
  }

  /** Appending a row changes only its owner's ledger, by exactly its points. */
  lemma {:induction false} LedgerAppend(history: seq<PointsEntry>, e: PointsEntry, user: Id)
    ensures Ledger(history + [e], user) == Ledger(history, user) + (if e.userId == user then e.points else 0)
  {
    if history == [] {
      assert [] + [e] == [e];
      assert [e][1..] == [];
    } else {
      assert (history + [e])[0] == history[0];
      assert (history + [e])[1..] == history[1..] + [e];
      LedgerAppend(history[1..], e, user);
    }
  }

  // ---------------------------------------------------------------------------
  // The invariant
  // ---------------------------------------------------------------------------

  predicate UniqueUserIds(users: seq<User>) {
    forall i, j :: 0 <= i < j < |users| ==> users[i].id != users[j].id
  }

  predicate UniqueEmails(users: seq<User>) {
    forall i, j :: 0 <= i < j < |users| ==> users[i].email != users[j].email
  }

  predicate UniqueListingIds(listings: seq<Listing>) {
    forall i, j :: 0 <= i < j < |listings| ==> listings[i].id != listings[j].id
  }

  /** Every user's `points` equals the sum of their `points_history` rows. */
  predicate LedgerConsistent(users: seq<User>, history: seq<PointsEntry>) {
    forall k :: 0 <= k < |users| ==> users[k].points == Ledger(history, users[k].id)
  }

  /** A table kept in insertion order, every row created before `clock`. */
  predicate Chronological<T>(s: seq<T>, time: T -> int, clock: nat) {
    Ascending(s, time) && forall k :: 0 <= k < |s| ==> time(s[k]) < clock
  }

  predicate Invariant(users: seq<User>, listings: seq<Listing>, history: seq<PointsEntry>,
                      swaps: seq<Swap>, clock: nat)
  {
    && UniqueUserIds(users)
    && UniqueEmails(users)
    && (forall k :: 0 <= k < |users| ==> users[k].role in Roles)
    && LedgerConsistent(users, history)
    && UniqueListingIds(listings)
    && (forall k :: 0 <= k < |listings| ==> listings[k].status in ListingStatuses)
    && (forall k :: 0 <= k < |swaps| ==> swaps[k].status in SwapStatuses)
    && Chronological(users, UserTime, clock)
    && Chronological(listings, ListingTime, clock)
    && Chronological(history, EntryTime, clock)
    && Chronological(swaps, SwapTime, clock)
  }

  /** A row appended with the current clock keeps a table chronological. */
  lemma AppendNow<T>(s: seq<T>, x: T, time: T -> int, clock: nat)
    requires Chronological(s, time, clock) && time(x) == clock
    ensures Chronological(s + [x], time, clock + 1)
  {
    var t := s + [x];
    forall i, j | 0 <= i < j < |t| ensures time(t[i]) < time(t[j]) {
      if j < |s| {
        assert t[i] == s[i] && t[j] == s[j];
      } else {
        assert t[i] == s[i];
      }
    }
  }

  /** Rewriting rows without touching their creation time keeps a table chronological. */
  lemma SameTimes<T>(s: seq<T>, t: seq<T>, time: T -> int, clock: nat)
    requires Chronological(s, time, clock)
    requires |t| == |s| && forall k :: 0 <= k < |s| ==> time(t[k]) == time(s[k])
    ensures Chronological(t, time, clock)
  {
  }

  /** Removing rows keeps a table chronological. */
  lemma SelectChronological<T(!new)>(s: seq<T>, p: T -> bool, time: T -> int, clock: nat)
    requires Chronological(s, time, clock)
    ensures Chronological(Select(s, p), time, clock)
  {
    SelectKeepsAscending(s, p, time);
  }

  // ---------------------------------------------------------------------------
  // The writes the handlers perform, and why each keeps the invariant
  // ---------------------------------------------------------------------------

  /** `UPDATE user_profiles SET points = points + p WHERE id = ?` */
  function Credit(users: seq<User>, id: Id, p: int): (r: seq<User>)
    ensures |r| == |users|
    ensures forall k :: 0 <= k < |users| ==>
              r[k] == if users[k].id == id then users[k].(points := users[k].points + p) else users[k]
  {
    seq(|users|, k requires 0 <= k < |users| =>
          if users[k].id == id then users[k].(points := users[k].points + p) else users[k])
  }

  /** Appending a history row and crediting its amount to its owner keeps every
      balance equal to its ledger. */
  lemma AwardKeepsInvariant(users: seq<User>, listings: seq<Listing>, history: seq<PointsEntry>,
                            swaps: seq<Swap>, clock: nat, e: PointsEntry)
    requires Invariant(users, listings, history, swaps, clock)
    requires e.createdAt == clock
    ensures Invariant(Credit(users, e.userId, e.points), listings, history + [e], swaps, clock + 1)
  {
    var users2 := Credit(users, e.userId, e.points);
    forall k | 0 <= k < |users2| ensures users2[k].points == Ledger(history + [e], users2[k].id) {
      LedgerAppend(history, e, users[k].id);
    }
    AppendNow(history, e, EntryTime, clock);
  }

  /** Rewrites of user rows that leave id, email, points and creation time alone
      and keep the role on the whitelist. */
  predicate UserEdit(users: seq<User>, users2: seq<User>) {
    && |users2| == |users|
    && forall k :: 0 <= k < |users| ==>
         && users2[k].id == users[k].id
         && users2[k].email == users[k].email
         && users2[k].points == users[k].points
         && users2[k].createdAt == users[k].createdAt
         && users2[k].role in Roles
  }

  lemma UserEditKeepsInvariant(users: seq<User>, users2: seq<User>, listings: seq<Listing>,
                               history: seq<PointsEntry>, swaps: seq<Swap>, clock: nat)
    requires Invariant(users, listings, history, swaps, clock)
    requires UserEdit(users, users2)
    ensures Invariant(users2, listings, history, swaps, clock)
  {
    SameTimes(users, users2, UserTime, clock);
  }

  /** Rewrites of listing rows that leave id and creation time alone and keep
      the status on the whitelist. */
  predicate ListingEdit(listings: seq<Listing>, listings2: seq<Listing>) {
    && |listings2| == |listings|
    && forall k :: 0 <= k < |listings| ==>
         && listings2[k].id == listings[k].id
         && listings2[k].createdAt == listings[k].createdAt
         && listings2[k].status in ListingStatuses
  }

  lemma ListingEditKeepsInvariant(users: seq<User>, listings: seq<Listing>, listings2: seq<Listing>,
                                  history: seq<PointsEntry>, swaps: seq<Swap>, clock: nat)
    requires Invariant(users, listings, history, swaps, clock)
    requires ListingEdit(listings, listings2)
    ensures Invariant(users, listings2, history, swaps, clock)
  {
    SameTimes(listings, listings2, ListingTime, clock);
  }

  /** Rewrites of swap rows that leave the creation time alone and keep the
      status on the whitelist. */
  predicate SwapEdit(swaps: seq<Swap>, swaps2: seq<Swap>) {
    && |swaps2| == |swaps|
    && forall k :: 0 <= k < |swaps| ==>
         swaps2[k].createdAt == swaps[k].createdAt && swaps2[k].status in SwapStatuses
  }

  lemma SwapEditKeepsInvariant(users: seq<User>, listings: seq<Listing>, history: seq<PointsEntry>,
                               swaps: seq<Swap>, swaps2: seq<Swap>, clock: nat)
    requires Invariant(users, listings, history, swaps, clock)
    requires SwapEdit(swaps, swaps2)
    ensures Invariant(users, listings, history, swaps2, clock)
  {
    SameTimes(swaps, swaps2, SwapTime, clock);
  }

  /** Inserting a listing with a fresh id, a whitelisted status and the current
      clock, and moving the clock on. */
  lemma ListingInsertKeepsInvariant(users: seq<User>, listings: seq<Listing>, history: seq<PointsEntry>,
                                    swaps: seq<Swap>, clock: nat, l: Listing)
    requires Invariant(users, listings, history, swaps, clock)
    requires forall k :: 0 <= k < |listings| ==> listings[k].id != l.id
    requires l.status in ListingStatuses && l.createdAt == clock
    ensures Invariant(users, listings + [l], history, swaps, clock + 1)
  {
    AppendNow(listings, l, ListingTime, clock);
  }

  /** `createListing`'s listing insert followed by its award. */
  lemma ListingAndAwardKeepInvariant(users: seq<User>, listings: seq<Listing>, history: seq<PointsEntry>,
                                     swaps: seq<Swap>, clock: nat, l: Listing, e: PointsEntry)
    requires Invariant(users, listings, history, swaps, clock)
    requires forall k :: 0 <= k < |listings| ==> listings[k].id != l.id
    requires l.status in ListingStatuses && l.createdAt == clock && e.createdAt == clock + 1
    ensures Invariant(Credit(users, e.userId, e.points), listings + [l], history + [e], swaps, clock + 2)
  {
    ListingInsertKeepsInvariant(users, listings, history, swaps, clock, l);
    AwardKeepsInvariant(users, listings + [l], history, swaps, clock + 1, e);
  }

  /** Deleting listings. */
  lemma ListingDeleteKeepsInvariant(users: seq<User>, listings: seq<Listing>, history: seq<PointsEntry>,
                                    swaps: seq<Swap>, clock: nat, p: Listing -> bool)
    requires Invariant(users, listings, history, swaps, clock)
    ensures Invariant(users, Select(listings, p), history, swaps, clock)
  {
    var kept := Select(listings, p);
    SelectChronological(listings, p, ListingTime, clock);
    forall i, j | 0 <= i < j < |kept| ensures kept[i].id != kept[j].id {
      SelectIsSubsequence(listings, p);
      SubseqIndices(kept, listings, i, j);
    }
    forall k | 0 <= k < |kept| ensures kept[k].status in ListingStatuses {
      assert kept[k] in listings;
    }
  }

  /** Inserting a user whose id and email are new, with role `user`, zero
      points and no history rows, at the current clock. */
  lemma UserInsertKeepsInvariant(users: seq<User>, listings: seq<Listing>, history: seq<PointsEntry>,
                                 swaps: seq<Swap>, clock: nat, u: User)
    requires Invariant(users, listings, history, swaps, clock)
    requires forall k :: 0 <= k < |users| ==> users[k].id != u.id && users[k].email != u.email
    requires forall k :: 0 <= k < |history| ==> history[k].userId != u.id
    requires u.role == "user" && u.points == 0 && u.createdAt == clock
    ensures Invariant(users + [u], listings, history, swaps, clock + 1)
  {
    AppendNow(users, u, UserTime, clock);
  }

  /** What the uuid oracle guarantees for a new user's id: no user row and no
      history row carries it yet. */
  predicate FreshUserId(users: seq<User>, history: seq<PointsEntry>, id: Id) {
    && (forall k :: 0 <= k < |users| ==> users[k].id != id)
    && (forall k :: 0 <= k < |history| ==> history[k].userId != id)
  }

  /** What the uuid oracle guarantees for a new listing's id. */
  predicate FreshListingId(listings: seq<Listing>, id: Id) {
    forall k :: 0 <= k < |listings| ==> listings[k].id != id
  }

  /** The system's persistent state. Handlers change it in place. */
  class Database {
    var users: seq<User>
    var listings: seq<Listing>
    var history: seq<PointsEntry>
    var swaps: seq<Swap>
    /** The value the next inserted row gets as `created_at`. */
    var clock: nat

    ghost predicate Valid()
      reads this
    {
      Invariant(users, listings, history, swaps, clock)
    }

    constructor ()
      ensures Valid()
      ensures users == [] && listings == [] && history == [] && swaps == []
    {
      users, listings, history, swaps := [], [], [], [];
      clock := 0;
    }

    /** `COMMIT`: publish the tables a transaction built on private copies. */
    method Commit(users': seq<User>, listings': seq<Listing>, history': seq<PointsEntry>,
                  swaps': seq<Swap>, clock': nat)
      requires Invariant(users', listings', history', swaps', clock')
      modifies this
      ensures Valid()
      ensures users == users' && listings == listings' && history == history'
      ensures swaps == swaps' && clock == clock'
    {
      users, listings, history, swaps, clock := users', listings', history', swaps', clock';
    }
  }
}
