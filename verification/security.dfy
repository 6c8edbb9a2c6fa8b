/** `CustomUserDetails` and `CustomUserDetailsService`: the principal Spring
    Security sees for a stored user. A granted authority is the string value
    of one role. */
module Security {
  import opened Common
  import opened Domain
  import opened UserStore

  datatype GrantedAuthority = GrantedAuthority(authority: string)

  /** Immutable, as every field of the Java class is final: each getter
      returns the value fixed at construction. */
  datatype UserDetails = UserDetails(
    username: string,
    password: string,
    enabled: bool,
    accountNonExpired: bool,
    accountNonLocked: bool,
    credentialsNonExpired: bool,
    authorities: seq<GrantedAuthority>)

  /** The `CustomUserDetails(User)` constructor: the email is the username,
      the stored hash the password, every status flag is set, and there is one
      authority per role, in the order of the roles. */
  function NewCustomUserDetails(user: User): (d: UserDetails)
    ensures d.username == user.email
    ensures d.password == user.password
    ensures d.enabled && d.accountNonExpired && d.accountNonLocked && d.credentialsNonExpired
    ensures |d.authorities| == |user.roles|
    ensures forall i :: 0 <= i < |user.roles| ==> d.authorities[i].authority == user.roles[i].value
  {
    var authorities := seq(|user.roles|, i requires 0 <= i < |user.roles| => GrantedAuthority(user.roles[i].value));
    UserDetails(user.email, user.password, true, true, true, true, authorities)
  }

  /** Spring Security's `UsernameNotFoundException`. */
  datatype LookupError = UsernameNotFound(message: string)

  function UsernameNotFoundMessage(username: string): string {
    "User with username: " + username + " not found"
  }

  /** `loadUserByUsername`: the username is looked up as an email. */
  function LoadUserByUsername(s: Store, username: string): (r: Result<UserDetails, LookupError>)
    ensures r.Err? <==> username !in s.users
    ensures r.Err? ==> r.error == UsernameNotFound(UsernameNotFoundMessage(username))
    ensures r.Ok? ==>
              var user := s.users[username];
              && r.value.username == user.email
              && r.value.password == user.password
              && r.value.enabled && r.value.accountNonExpired && r.value.accountNonLocked
              && r.value.credentialsNonExpired
              && |r.value.authorities| == |user.roles|
              && forall i :: 0 <= i < |user.roles| ==> r.value.authorities[i].authority == user.roles[i].value
    ensures r.Ok? && Consistent(s) ==> r.value.username == username
  {
    match FindByEmail(s, username)
    case None => Err(UsernameNotFound(UsernameNotFoundMessage(username)))
    case Some(user) => Ok(NewCustomUserDetails(user))
  }
}
