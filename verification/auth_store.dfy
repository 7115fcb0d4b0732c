/** The session store (`store/authStore.ts`): the token, the authenticated flag, and
    the user and admin queries derived from the token. Persistence to local storage is
    not part of this model. */
module AuthStore {
  import opened Common
  import opened Jwt

  /** `token` is `None` for `null`; the empty token is falsy like `null`. */
  datatype AuthState = AuthState(token: Option<string>, isAuthenticated: bool)

  const Initial := AuthState(None, false)

  predicate HasToken(s: AuthState) {
    s.token.Some? && s.token.value != ""
  }

  /** `login`: stores the token and marks the session authenticated. */
  function Login(s: AuthState, token: string): (r: AuthState)
    ensures r.token == Some(token) && r.isAuthenticated
    ensures token != "" ==> HasToken(r)
  {
    AuthState(Some(token), true)
  }

  /** `logout`: forgets the token and the authentication. */
  function Logout(s: AuthState): (r: AuthState)
    ensures r.token.None? && !r.isAuthenticated && !HasToken(r)
  {
    AuthState(None, false)
  }

  /** `getUser`: no user without a token; otherwise whatever the token yields. */
  function GetUser(s: AuthState, decode: string -> Option<Payload>, parseInt: string -> Option<int>): (u: Option<User>)
    ensures !HasToken(s) ==> u.None?
    ensures HasToken(s) ==> u == ExtractUser(s.token.value, decode, parseInt)
  {
    if HasToken(s) then ExtractUser(s.token.value, decode, parseInt) else None
  }

  /** `isAdmin`: the token's user has role `admin` or `ADMIN`; so an admin always has a
      session user with one of those roles. */
  predicate IsAdmin(s: AuthState, decode: string -> Option<Payload>, parseInt: string -> Option<int>)
    ensures IsAdmin(s, decode, parseInt) ==>
      var u := GetUser(s, decode, parseInt);
      u.Some? && u.value.role.Some? && u.value.role.value in {"admin", "ADMIN"}
  {
    HasToken(s) &&
    var u := ExtractUser(s.token.value, decode, parseInt);
    u.Some? && (u.value.role == Some("admin") || u.value.role == Some("ADMIN"))
  }

  /** Being admin means having a user whose role is one of the two admin spellings;
      a prefixed `Role.admin` counts once the prefix is stripped. */
  lemma AdminIffUserRole(s: AuthState, decode: string -> Option<Payload>, parseInt: string -> Option<int>)
    ensures IsAdmin(s, decode, parseInt) <==>
      var u := GetUser(s, decode, parseInt);
      u.Some? && u.value.role.Some? && u.value.role.value in {"admin", "ADMIN"}
  {
  }

  /** A logged-out store has neither user nor admin, and logging in after a logout
      gives the same state as logging in directly. */
  lemma LogoutForgets(s: AuthState, token: string, decode: string -> Option<Payload>, parseInt: string -> Option<int>)
    ensures GetUser(Logout(s), decode, parseInt).None? && !IsAdmin(Logout(s), decode, parseInt)
    ensures Login(Logout(s), token) == Login(s, token)
  {
  }

  /** After a login with a token whose decoded role is `Role.ADMIN`, the store reports
      an admin. */
  lemma PrefixedAdminIsAdmin(s: AuthState, token: string, decode: string -> Option<Payload>, parseInt: string -> Option<int>)
    requires token != ""
    requires DecodeJwt(token, decode).Some? && DecodeJwt(token, decode).value.role == Some("Role.ADMIN")
    ensures IsAdmin(Login(s, token), decode, parseInt)
  {
    NormaliseRolePrefixed("ADMIN");
    assert RolePrefix + "ADMIN" == "Role.ADMIN";
  }
}
