/** The profile handlers: reading a profile, overwriting its editable fields,
    the swap and points histories, and the transactional points award. */
module ProfileController {
  import opened Common
  import opened Store

  /** The columns the profile queries select: everything but the password
      hash and the ban flag. */
  datatype Profile = Profile(
    id: Id,
    email: string,
    name: string,
    phone: Option<string>,
    bio: Option<string>,
    avatarUrl: Option<string>,
    points: int,
    role: string,
    referralCode: string,
    createdAt: nat)

  datatype ProfileUpdated = ProfileUpdated(message: string, user: Profile)

  datatype PointsAdded = PointsAdded(message: string, newTotal: int, pointsAdded: int)

  /** Which write of the points transaction the database refuses, if any. */
  datatype Fault = NoFault | InsertFails | UpdateFails

  const UserNotFound: string := "User not found"

  function ProfileOf(u: User): Profile {
    Profile(u.id, u.email, u.name, u.phone, u.bio, u.avatarUrl, u.points, u.role, u.referralCode, u.createdAt)
  }

  /** `getUserProfile`: the row with that id, or 404. */
  function GetUserProfile(users: seq<User>, id: Id): (r: Reply<Profile>)
    ensures r.Ok? <==> UserExists(users, id)
    ensures r.Ok? ==> r.status == 200 && exists k :: 0 <= k < |users| && users[k].id == id && r.body == ProfileOf(users[k])
    ensures r.Fail? ==> r == Fail(404, UserNotFound)
  {
    match First(users, HasId(id))
    case None => Fail(404, UserNotFound)
    case Some(k) => Ok(200, ProfileOf(users[k]))
  }

  /** With unique ids, the profile returned is that of the one row carrying the id. */
  lemma ProfileOfRow(users: seq<User>, id: Id, k: nat)
    requires UniqueUserIds(users)
    requires k < |users| && users[k].id == id
    ensures GetUserProfile(users, id) == Ok(200, ProfileOf(users[k]))
  {
    var j := First(users, HasId(id)).value;
    assert users[j].id == id;
  }

  /** After crediting a user's row, reading the profile back gives the old
      ledger plus the credit. */
  lemma CreditedProfile(users: seq<User>, history: seq<PointsEntry>, e: PointsEntry, k: nat)
    requires UniqueUserIds(users) && LedgerConsistent(users, history)
    requires k < |users| && users[k].id == e.userId
    ensures Credit(users, e.userId, e.points)[k].points == Ledger(history, e.userId) + e.points
    ensures GetUserProfile(Credit(users, e.userId, e.points), e.userId).body.points
            == Ledger(history, e.userId) + e.points
  {
    var users2 := Credit(users, e.userId, e.points);
    assert UniqueUserIds(users2) by {
      forall i, j | 0 <= i < j < |users2| ensures users2[i].id != users2[j].id {
        assert users2[i].id == users[i].id && users2[j].id == users[j].id;
      }
    }
    ProfileOfRow(users2, e.userId, k);
  }

  /** `getSwapHistory`: the swaps the user sent or received, newest first. */
  function GetSwapHistory(swaps: seq<Swap>, id: Id): (r: seq<Swap>)
    ensures forall s :: s in r <==> s in swaps && (s.senderId == id || s.receiverId == id)
  {
    NewestFirst(swaps, Involves(id))
  }

  /** `WHERE sender_id = ? OR receiver_id = ?` on `swap_history`. */
  function Involves(id: Id): Swap -> bool {
    (s: Swap) => s.senderId == id || s.receiverId == id
  }

  function OwnedBy(id: Id): PointsEntry -> bool {
    (e: PointsEntry) => e.userId == id
  }

  /** `getPointsHistory`: the user's rows, newest first. */
  function GetPointsHistory(history: seq<PointsEntry>, id: Id): (r: seq<PointsEntry>)
    ensures forall e :: e in r <==> e in history && e.userId == id
  {
    NewestFirst(history, OwnedBy(id))
  }

  lemma SwapHistoryNewestFirst(swaps: seq<Swap>, id: Id, clock: nat)
    requires Chronological(swaps, SwapTime, clock)
    ensures Descending(GetSwapHistory(swaps, id), SwapTime)
  {
    NewestFirstDescending(swaps, Involves(id), SwapTime);
  }

  lemma PointsHistoryNewestFirst(history: seq<PointsEntry>, id: Id, clock: nat)
    requires Chronological(history, EntryTime, clock)
    ensures Descending(GetPointsHistory(history, id), EntryTime)
  {
    NewestFirstDescending(history, OwnedBy(id), EntryTime);
  }

  /** The sum of the points of some rows. */
  function Total(rows: seq<PointsEntry>): int {
    if rows == [] then 0 else rows[0].points + Total(rows[1..])
  }

  lemma {:induction false} TotalAppend(a: seq<PointsEntry>, b: seq<PointsEntry>)
    ensures Total(a + b) == Total(a) + Total(b)
  {
    if a == [] {
      assert [] + b == b;
    } else {
      assert (a + b)[0] == a[0];
      assert (a + b)[1..] == a[1..] + b;
      TotalAppend(a[1..], b);
    }
  }

  lemma {:induction false} TotalReverse(rows: seq<PointsEntry>)
    ensures Total(Reverse(rows)) == Total(rows)
  {
    if rows != [] {
      TotalReverse(rows[1..]);
      TotalAppend(Reverse(rows[1..]), [rows[0]]);
      assert [rows[0]][1..] == [];
    }
  }

  lemma {:induction false} LedgerIsTotalOfOwnRows(history: seq<PointsEntry>, id: Id)
    ensures Ledger(history, id) == Total(Select(history, OwnedBy(id)))
  {
    if history != [] {
      LedgerIsTotalOfOwnRows(history[1..], id);
      if history[0].userId == id {
        assert Select(history, OwnedBy(id)) == [history[0]] + Select(history[1..], OwnedBy(id));
      }
    }
  }

  /** In every reachable state, the balance `getUserProfile` reports is the sum
      of the rows `getPointsHistory` returns for the same user. */
  lemma BalanceMatchesHistory(users: seq<User>, listings: seq<Listing>, history: seq<PointsEntry>,
                              swaps: seq<Swap>, clock: nat, id: Id)
    requires Invariant(users, listings, history, swaps, clock)
    requires UserExists(users, id)
    ensures GetUserProfile(users, id).Ok?
    ensures GetUserProfile(users, id).body.points == Total(GetPointsHistory(history, id))
  {
    LedgerIsTotalOfOwnRows(history, id);
    TotalReverse(Select(history, OwnedBy(id)));
  }

  /** `UPDATE user_profiles SET name = ?, phone = ?, bio = ? WHERE id = ?` */
  function SetProfile(users: seq<User>, id: Id, name: string, phone: Option<string>, bio: Option<string>)
    : (r: seq<User>)
    ensures |r| == |users|
    ensures forall k :: 0 <= k < |users| ==>
              r[k] == if users[k].id == id then users[k].(name := name, phone := phone, bio := bio) else users[k]
  {
    seq(|users|, k requires 0 <= k < |users| =>
          if users[k].id == id then users[k].(name := name, phone := phone, bio := bio) else users[k])
  }

  /** `updateUserProfile`: 404 for an unknown id; otherwise name, phone and bio
      are overwritten, nothing else changes, and the reply carries the row as
      `getUserProfile` now reports it. */
  method UpdateUserProfile(db: Database, id: Id, name: string, phone: Option<string>, bio: Option<string>)
    returns (r: Reply<ProfileUpdated>)
    requires db.Valid()
    modifies db
    ensures db.Valid()
    ensures db.listings == old(db.listings) && db.history == old(db.history)
    ensures db.swaps == old(db.swaps) && db.clock == old(db.clock)
    ensures !UserExists(old(db.users), id) ==> r == Fail(404, UserNotFound) && db.users == old(db.users)
    ensures UserExists(old(db.users), id) ==>
      && db.users == SetProfile(old(db.users), id, name, phone, bio)
      && r.Ok? && r.status == 200 && r.body.message == "Profile updated successfully"
      && r.body.user == GetUserProfile(db.users, id).body
  {
    var row := First(db.users, HasId(id));
    if row.None? {
      return Fail(404, UserNotFound);
    }
    var users := SetProfile(db.users, id, name, phone, bio);
    UserEditKeepsInvariant(db.users, users, db.listings, db.history, db.swaps, db.clock);
    db.Commit(users, db.listings, db.history, db.swaps, db.clock);
    var updated := GetUserProfile(db.users, id);
    assert db.users[row.value].id == id;
    r := Ok(200, ProfileUpdated("Profile updated successfully", updated.body));
  }

  /** `addPoints`: inside one transaction, append a history row and raise the
      user's balance by the same amount; if either write fails, roll back. The
      amount is not checked: it may be negative and take the balance below zero. */
  method AddPoints(db: Database, id: Id, points: int, action: string, description: string,
                   entryId: Id, fault: Fault)
    returns (r: Reply<PointsAdded>)
    requires db.Valid()
    modifies db
    ensures db.Valid()
    ensures db.listings == old(db.listings) && db.swaps == old(db.swaps)
    ensures r.Ok? <==> fault == NoFault && UserExists(old(db.users), id)
    ensures r.Fail? ==>
      && r == Fail(500, ServerError)
      && db.users == old(db.users) && db.history == old(db.history) && db.clock == old(db.clock)
    ensures r.Ok? ==>
      && db.history == old(db.history) + [PointsEntry(entryId, id, points, action, description, old(db.clock))]
      && db.clock == old(db.clock) + 1
      && db.users == Credit(old(db.users), id, points)
      && r.status == 200
      && r.body == PointsAdded("Points added successfully", old(Ledger(db.history, id)) + points, points)
      && r.body.newTotal == GetUserProfile(db.users, id).body.points
  {
    // The transaction works on private copies; only COMMIT publishes them.
    var users, history, clock := db.users, db.history, db.clock;

    // INSERT INTO points_history: refused when the id names no user
    // (points_history.user_id references user_profiles.id).
    var row := First(users, HasId(id));
    if fault == InsertFails || row.None? {
      return Fail(500, ServerError);  // ROLLBACK
    }
    var entry := PointsEntry(entryId, id, points, action, description, clock);

    // UPDATE user_profiles SET points = points + ? WHERE id = ?
    if fault == UpdateFails {
      return Fail(500, ServerError);  // ROLLBACK
    }
    var credited := Credit(users, id, points);

    // COMMIT, then SELECT points FROM user_profiles WHERE id = ?
    AwardKeepsInvariant(users, db.listings, history, db.swaps, clock, entry);
    CreditedProfile(users, history, entry, row.value);
    db.Commit(credited, db.listings, history + [entry], db.swaps, clock + 1);
    r := Ok(200, PointsAdded("Points added successfully", credited[row.value].points, points));
  }
}
