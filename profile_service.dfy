/** The client's profile service: the profile `createInitialProfile` builds for
    a newly signed-up account, the boolean `addPoints` reports, and the
    fallbacks of its reads. Each HTTP call is an oracle: the method or function
    receives what the call gave. */
module ProfileService {
  import opened Common
  import opened Store
  import opened ReferralCodes
  import ProfileController

  /** The optional details an account was signed up with. */
  datatype Metadata = Metadata(name: Option<string>, phone: Option<string>, bio: Option<string>,
                               avatarUrl: Option<string>)

  /** The signed-up account `createInitialProfile` receives. */
  datatype AccountUser = AccountUser(id: string, email: Option<string>, metadata: Option<Metadata>)

  /** The profile fields the client sends, and the server echoes back. */
  datatype UserProfile = UserProfile(id: string, email: string, name: string, phone: string, bio: string,
                                     avatarUrl: string, points: int, role: string, referralCode: string)

  const DefaultName: string := "User"

  /** `s.split(c)[0]`: the text before the first `c`, or all of `s` when there is none. */
  function BeforeFirst(s: string, c: char): (r: string)
    ensures |r| <= |s| && r == s[..|r|]
    ensures c !in r
    ensures |r| < |s| ==> s[|r|] == c
  {
    if s == [] || s[0] == c then [] else [s[0]] + BeforeFirst(s[1..], c)
  }

  /** `user.user_metadata?.<field>`: absent when the metadata itself is. */
  function MetaField(user: AccountUser, field: Metadata -> Option<string>): Option<string> {
    if user.metadata.Some? then field(user.metadata.value) else None
  }

  /** `v || ''` */
  function OrEmpty(v: Option<string>): (r: string)
    ensures Truthy(v) ==> r == v.value
    ensures !Truthy(v) ==> r == ""
  {
    if Truthy(v) then v.value else ""
  }

  /** The email's local part, `user.email?.split('@')[0]`. */
  function LocalPart(email: Option<string>): Option<string> {
    if email.Some? then Some(BeforeFirst(email.value, '@')) else None
  }

  /** `user_metadata?.name || email?.split('@')[0] || 'User'` */
  function InitialName(user: AccountUser): string {
    var given := MetaField(user, (m: Metadata) => m.name);
    if Truthy(given) then given.value
    else if Truthy(LocalPart(user.email)) then LocalPart(user.email).value
    else DefaultName
  }

  /** The profile `createInitialProfile` sends, given the eight draws its
      referral code is made from. */
  function InitialProfile(user: AccountUser, draws: seq<real>): (p: UserProfile)
    requires ValidDraws(draws)
    ensures p.id == user.id
    ensures p.points == 0 && p.role == "user"
    ensures p.referralCode == CodeFromDraws(draws)
    ensures |p.referralCode| == CodeLength && forall i :: 0 <= i < |p.referralCode| ==> p.referralCode[i] in Alphabet
  {
    UserProfile(user.id, OrEmpty(user.email), InitialName(user),
                OrEmpty(MetaField(user, (m: Metadata) => m.phone)),
                OrEmpty(MetaField(user, (m: Metadata) => m.bio)),
                OrEmpty(MetaField(user, (m: Metadata) => m.avatarUrl)),
                0, "user", CodeFromDraws(draws))
  }

  /** True when the email yields a local part: it is present, not empty and
      does not start with '@'. */
  predicate HasLocalPart(email: Option<string>) {
    email.Some? && email.value != [] && email.value[0] != '@'
  }

  /** The initial name is never empty, and it falls back in order: the given
      name when there is one; otherwise the email up to its first '@' when that
      is not empty; otherwise "User". */
  lemma InitialNameFallbacks(user: AccountUser, draws: seq<real>)
    requires ValidDraws(draws)
    ensures var name := InitialProfile(user, draws).name;
            var given := MetaField(user, (m: Metadata) => m.name);
            && name != ""
            && (Truthy(given) ==> name == given.value)
            && (!Truthy(given) && HasLocalPart(user.email) ==>
                  && name == user.email.value[..|name|]
                  && '@' !in name
                  && (|name| < |user.email.value| ==> user.email.value[|name|] == '@'))
            && (!Truthy(given) && !HasLocalPart(user.email) ==> name == DefaultName)
  {
    var given := MetaField(user, (m: Metadata) => m.name);
    if !Truthy(given) && user.email.Some? {
      var e := user.email.value;
      if HasLocalPart(user.email) {
        assert BeforeFirst(e, '@') == [e[0]] + BeforeFirst(e[1..], '@');
      } else {
        assert BeforeFirst(e, '@') == [];
      }
    }
  }

  /** The contact fields are copied when given and are '' otherwise; an absent
      email is '' too. */
  lemma InitialContactDefaults(user: AccountUser, draws: seq<real>)
    requires ValidDraws(draws)
    ensures var p := InitialProfile(user, draws);
            && (user.metadata.None? ==> p.phone == "" && p.bio == "" && p.avatarUrl == "")
            && (user.metadata.Some? && Truthy(user.metadata.value.phone) ==> p.phone == user.metadata.value.phone.value)
            && (user.metadata.Some? && Truthy(user.metadata.value.bio) ==> p.bio == user.metadata.value.bio.value)
            && (user.metadata.Some? && Truthy(user.metadata.value.avatarUrl) ==>
                  p.avatarUrl == user.metadata.value.avatarUrl.value)
            && (!Truthy(MetaField(user, (m: Metadata) => m.phone)) ==> p.phone == "")
            && (!Truthy(MetaField(user, (m: Metadata) => m.bio)) ==> p.bio == "")
            && (!Truthy(MetaField(user, (m: Metadata) => m.avatarUrl)) ==> p.avatarUrl == "")
            && (Truthy(user.email) <==> p.email != "")
            && (Truthy(user.email) ==> p.email == user.email.value)
  {
  }

  /** `createInitialProfile`: draws the referral code, builds the profile and
      upserts it; `upsert` is what the server answers for the profile sent. The
      upsert's failure gives null. */
  method CreateInitialProfile(user: AccountUser, draws: seq<real>, upsert: UserProfile -> ApiResult<UserProfile>)
    returns (sent: UserProfile, r: Option<UserProfile>)
    requires ValidDraws(draws)
    ensures sent == InitialProfile(user, draws)
    ensures r.Some? <==> upsert(sent).Success?
    ensures r.Some? ==> r.value == upsert(sent).data
  {
    var code := GenerateReferralCode(draws);
    sent := UserProfile(user.id, OrEmpty(user.email), InitialName(user),
                        OrEmpty(MetaField(user, (m: Metadata) => m.phone)),
                        OrEmpty(MetaField(user, (m: Metadata) => m.bio)),
                        OrEmpty(MetaField(user, (m: Metadata) => m.avatarUrl)),
                        0, "user", code);
    var response := upsert(sent);
    r := if response.Success? then Some(response.data) else None;
  }

  // ---------------------------------------------------------------------------
  // addPoints and the reads
  // ---------------------------------------------------------------------------

  /** `addPoints`: true exactly when the request went through with status 200. */
  function AddPoints(response: ApiResult<nat>): (ok: bool)
    ensures ok <==> response.Success? && response.data == 200
  {
    DataOr(if response.Success? then Success(response.data == 200) else Failure(response.error), false)
  }

  /** The client reports success for exactly the server's successful awards:
      every 200 reply of the server's `addPoints`, and none of its error
      replies. */
  lemma AddPointsReportsServerOutcome(reply: Reply<ProfileController.PointsAdded>)
    requires reply.Ok? ==> reply.status == 200
    requires reply.Fail? ==> reply.status >= 400
    ensures AddPoints(Received(reply)) <==> reply.Ok?
  {
  }

  /** `getUserProfile`: null when the request fails. */
  function ProfileOrNull(r: ApiResult<ProfileController.Profile>): (v: Option<ProfileController.Profile>)
    ensures v.Some? <==> r.Success?
    ensures v.Some? ==> v.value == r.data
  {
    DataOr(if r.Success? then Success(Some(r.data)) else Failure(r.error), None)
  }

  /** `getSwapHistory`, `getPointsHistory`: `[]` when the request fails. */
  function RowsOrEmpty<T>(r: ApiResult<seq<T>>): (v: seq<T>)
    ensures r.Failure? ==> v == []
    ensures r.Success? ==> v == r.data
  {
    DataOr(r, [])
  }

  /** `getUserProfile` against the server's handler: the profile of the row
      with that id, or null when there is none. */
  lemma ClientProfileRead(users: seq<User>, id: Id)
    requires UniqueUserIds(users)
    ensures ProfileOrNull(Delivered(ProfileController.GetUserProfile(users, id))).Some? <==> UserExists(users, id)
    ensures forall k :: 0 <= k < |users| && users[k].id == id ==>
              ProfileOrNull(Delivered(ProfileController.GetUserProfile(users, id)))
              == Some(ProfileController.ProfileOf(users[k]))
  {
    forall k | 0 <= k < |users| && users[k].id == id
      ensures ProfileOrNull(Delivered(ProfileController.GetUserProfile(users, id)))
              == Some(ProfileController.ProfileOf(users[k]))
    {
      ProfileController.ProfileOfRow(users, id, k);
    }
  }

  /** `getPointsHistory` against the server's handler: exactly the user's rows,
      newest first; `[]` when the server answers an error. */
  lemma ClientPointsHistoryRead(history: seq<PointsEntry>, id: Id, clock: nat)
    requires Chronological(history, EntryTime, clock)
    ensures var rows := RowsOrEmpty(Delivered(Ok(200, ProfileController.GetPointsHistory(history, id))));
            && (forall e :: e in rows <==> e in history && e.userId == id)
            && Descending(rows, EntryTime)
    ensures RowsOrEmpty(Delivered<seq<PointsEntry>>(Fail(500, ServerError))) == []
  {
    ProfileController.PointsHistoryNewestFirst(history, id, clock);
  }

  /** `getSwapHistory` against the server's handler: exactly the swaps the user
      sent or received, newest first; `[]` when the server answers an error. */
  lemma ClientSwapHistoryRead(swaps: seq<Swap>, id: Id, clock: nat)
    requires Chronological(swaps, SwapTime, clock)
    ensures var rows := RowsOrEmpty(Delivered(Ok(200, ProfileController.GetSwapHistory(swaps, id))));
            && (forall s :: s in rows <==> s in swaps && (s.senderId == id || s.receiverId == id))
            && Descending(rows, SwapTime)
    ensures RowsOrEmpty(Delivered<seq<Swap>>(Fail(500, ServerError))) == []
  {
    ProfileController.SwapHistoryNewestFirst(swaps, id, clock);
  }
}
