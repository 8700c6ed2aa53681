/** The client's session store: `authService` keeps the token and the user
    record in the browser's localStorage and answers questions about them.
    Server calls are oracles: each method receives the outcome of its HTTP
    request. */
module AuthService {
  import opened Common

  /** The `user` object of the login and registration replies. */
  datatype SessionUser = SessionUser(id: string, email: string, name: string, role: string, points: int)

  datatype AuthResponse = AuthResponse(user: SessionUser, token: string)

  /** A localStorage value: the token as text, or the user record as its JSON. */
  datatype Stored = Text(text: string) | Json(user: SessionUser)

  const TokenKey: string := "authToken"
  const UserKey: string := "user"

  class Session {
    /** localStorage, which other parts of the page may also use. */
    var storage: map<string, Stored>

    constructor (initial: map<string, Stored>)
      ensures storage == initial
    {
      storage := initial;
    }

    /** `getCurrentUser`: the stored user record, or null. */
    function GetCurrentUser(): (u: Option<SessionUser>)
      reads this
      ensures u.Some? <==> UserKey in storage && storage[UserKey].Json?
      ensures u.Some? ==> u.value == storage[UserKey].user
    {
      if UserKey in storage && storage[UserKey].Json? then Some(storage[UserKey].user) else None
    }

    /** `isAuthenticated`: a non-empty string is stored under the token key. A
        user record's JSON text is never empty, so one stored there counts too. */
    function IsAuthenticated(): (b: bool)
      reads this
      ensures b <==> TokenKey in storage && (storage[TokenKey].Json? || storage[TokenKey].text != "")
    {
      TokenKey in storage && storage[TokenKey] != Text("")
    }

    /** `isAdmin`: a stored user whose role is `admin`. */
    function IsAdmin(): (b: bool)
      reads this
      ensures b <==> GetCurrentUser().Some? && GetCurrentUser().value.role == "admin"
    {
      var u := GetCurrentUser();
      u.Some? && u.value.role == "admin"
    }

    /** Store what a successful login or registration returned. */
    method StoreSession(response: AuthResponse)
      modifies this
      ensures storage == old(storage)[TokenKey := Text(response.token)][UserKey := Json(response.user)]
      ensures GetCurrentUser() == Some(response.user)
      ensures IsAuthenticated() <==> response.token != ""
      ensures IsAdmin() <==> response.user.role == "admin"
    {
      storage := storage[TokenKey := Text(response.token)];
      storage := storage[UserKey := Json(response.user)];
    }

    /** `login`: on success both keys are written and the body returned; a
        failed request leaves storage alone and the error propagates. */
    method Login(response: ApiResult<AuthResponse>) returns (r: ApiResult<AuthResponse>)
      modifies this
      ensures r == response
      ensures response.Failure? ==> storage == old(storage)
      ensures response.Success? ==>
                && storage == old(storage)[TokenKey := Text(response.data.token)][UserKey := Json(response.data.user)]
                && GetCurrentUser() == Some(response.data.user)
    {
      if response.Success? {
        StoreSession(response.data);
      }
      r := response;
    }

    /** `register`: the same storage effect as `login`. */
    method Register(response: ApiResult<AuthResponse>) returns (r: ApiResult<AuthResponse>)
      modifies this
      ensures r == response
      ensures response.Failure? ==> storage == old(storage)
      ensures response.Success? ==>
                && storage == old(storage)[TokenKey := Text(response.data.token)][UserKey := Json(response.data.user)]
                && GetCurrentUser() == Some(response.data.user)
    {
      if response.Success? {
        StoreSession(response.data);
      }
      r := response;
    }

    /** `logout`: both keys go, whether or not the server call threw (the
        removal is in a `finally`); no other key is touched. */
    method Logout(serverCall: ApiResult<()>)
      modifies this
      ensures storage == old(storage) - {TokenKey, UserKey}
      ensures !IsAuthenticated() && GetCurrentUser().None? && !IsAdmin()
    {
      storage := storage - {TokenKey};
      storage := storage - {UserKey};
    }

    /** `refreshToken`: on success only the token is replaced and returned; on
        failure null, with storage unchanged. */
    method RefreshToken(response: ApiResult<string>) returns (token: Option<string>)
      modifies this
      ensures response.Failure? ==> token.None? && storage == old(storage)
      ensures response.Success? ==>
                && token == Some(response.data)
                && storage == old(storage)[TokenKey := Text(response.data)]
                && GetCurrentUser() == old(GetCurrentUser())
    {
      if response.Failure? {
        return None;
      }
      storage := storage[TokenKey := Text(response.data)];
      token := Some(response.data);
    }
  }
}
