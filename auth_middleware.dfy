/** The request guards. `authMiddleware` takes the token from the
    `Authorization` header, verifies it and loads the caller's row;
    `adminMiddleware` lets only admins through. Token verification (the JWT
    signature and expiry check) is an oracle: a function from token text to the
    claims it carries, or nothing when it does not verify. */
module AuthMiddleware {
  import opened Common
  import opened Store

  /** What a token carries. */
  datatype Claims = Claims(id: Id, role: string)

  /** `req.user`: the columns the middleware selects. */
  datatype RequestUser = RequestUser(id: Id, email: string, name: string, role: string, points: int)

  /** Either the request goes on to the next handler with `req.user` set, or it
      is answered here. */
  datatype Outcome = Pass(user: RequestUser) | Deny(status: nat, error: string)

  const NoToken: string := "Access denied. No token provided."
  const InvalidToken: string := "Invalid token."
  const UnknownUser: string := "Invalid token. User not found."
  const AdminRequired: string := "Access denied. Admin role required."
  const BearerPrefix: string := "Bearer "

  function RequestUserOf(u: User): RequestUser {
    RequestUser(u.id, u.email, u.name, u.role, u.points)
  }

  /** `req.header('Authorization')?.replace('Bearer ', '')`: the first
      occurrence of "Bearer " is removed, wherever it is. */
  function ExtractToken(header: Option<string>): (t: Option<string>)
    ensures t.Some? <==> header.Some?
    ensures header.Some? && (forall j: nat :: !OccursAt(header.value, BearerPrefix, j)) ==> t == header
  {
    if header.Some? then Some(ReplaceFirst(header.value, BearerPrefix, "")) else None
  }

  /** `authMiddleware` */
  function Authenticate(header: Option<string>, verify: string -> Option<Claims>, users: seq<User>): (r: Outcome)
    ensures r.Pass? <==>
              && Truthy(ExtractToken(header))
              && verify(ExtractToken(header).value).Some?
              && UserExists(users, verify(ExtractToken(header).value).value.id)
    ensures r.Pass? ==>
              exists k :: 0 <= k < |users| && users[k].id == verify(ExtractToken(header).value).value.id
                          && r.user == RequestUserOf(users[k])
    ensures !Truthy(ExtractToken(header)) ==> r == Deny(401, NoToken)
    ensures Truthy(ExtractToken(header)) && verify(ExtractToken(header).value).None? ==> r == Deny(401, InvalidToken)
    ensures (Truthy(ExtractToken(header)) && verify(ExtractToken(header).value).Some?
             && !UserExists(users, verify(ExtractToken(header).value).value.id)) ==> r == Deny(401, UnknownUser)
  {
    var token := ExtractToken(header);
    if !Truthy(token) then Deny(401, NoToken)
    else match verify(token.value)
      case None => Deny(401, InvalidToken)
      case Some(claims) =>
        match First(users, HasId(claims.id))
        case None => Deny(401, UnknownUser)
        case Some(k) => Pass(RequestUserOf(users[k]))
  }

  /** `adminMiddleware`: passes exactly the admins, with `req.user` unchanged. */
  function AdminGate(user: RequestUser): (r: Outcome)
    ensures r.Pass? <==> user.role == "admin"
    ensures r.Pass? ==> r.user == user
    ensures r.Deny? ==> r == Deny(403, AdminRequired)
  {
    if user.role != "admin" then Deny(403, AdminRequired) else Pass(user)
  }

  /** A header of the form "Bearer " + token yields exactly that token, even
      when the token itself contains "Bearer ". */
  lemma BearerHeaderYieldsToken(token: string)
    ensures ExtractToken(Some(BearerPrefix + token)) == Some(token)
  {
    var h := BearerPrefix + token;
    assert h[0..|BearerPrefix|] == BearerPrefix;
    assert OccursAt(h, BearerPrefix, 0);
    assert ReplaceFirst(h, BearerPrefix, "") == h[..0] + "" + h[|BearerPrefix|..];
    assert h[..0] + "" + h[|BearerPrefix|..] == token;
  }

  /** The ban flag is never read: two user tables that differ only in who is
      banned authenticate every request the same way. */
  lemma BanIsIgnored(header: Option<string>, verify: string -> Option<Claims>, users: seq<User>, users2: seq<User>)
    requires |users2| == |users|
    requires forall k :: 0 <= k < |users| ==> users2[k] == users[k].(isBanned := users2[k].isBanned)
    ensures Authenticate(header, verify, users) == Authenticate(header, verify, users2)
  {
    var token := ExtractToken(header);
    if Truthy(token) && verify(token.value).Some? {
      var id := verify(token.value).value.id;
      FirstAgrees(users, users2, id);
    }
  }

  lemma FirstAgrees(users: seq<User>, users2: seq<User>, id: Id)
    requires |users2| == |users|
    requires forall k :: 0 <= k < |users| ==> users2[k] == users[k].(isBanned := users2[k].isBanned)
    ensures First(users, HasId(id)) == First(users2, HasId(id))
    ensures First(users, HasId(id)).Some? ==>
              RequestUserOf(users[First(users, HasId(id)).value]) == RequestUserOf(users2[First(users, HasId(id)).value])
  {
    assert forall k :: 0 <= k < |users| ==> (HasId(id)(users[k]) <==> HasId(id)(users2[k]));
  }

  /** Only the id in the token matters: the role it carries is never read, and
      the stored role is what `req.user` and the admin gate see. */
  lemma TokenRoleIsIgnored(header: Option<string>, verify: string -> Option<Claims>,
                           verify2: string -> Option<Claims>, users: seq<User>)
    requires forall t :: verify(t).Some? <==> verify2(t).Some?
    requires forall t :: verify(t).Some? ==> verify(t).value.id == verify2(t).value.id
    ensures Authenticate(header, verify, users) == Authenticate(header, verify2, users)
  {
  }
}
