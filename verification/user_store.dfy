/** The user table behind `UserRepository`: users keyed by their exact email
    (no case folding), and the id the next new user is given on `save`. */
module UserStore {
  import opened Common
  import opened Domain

  datatype Store = Store(users: map<string, User>, nextId: nat)

  /** Every user sits under its own email, and ids are distinct and below
      `nextId`. */
  ghost predicate Consistent(s: Store) {
    && (forall e :: e in s.users ==> s.users[e].email == e && s.users[e].id < s.nextId)
    && (forall e, f :: e in s.users && f in s.users && e != f ==> s.users[e].id != s.users[f].id)
  }

  /** `findByEmail`: an exact-match lookup. In a consistent store the user
      found carries the email asked for. */
  function FindByEmail(s: Store, email: string): (r: Option<User>)
    ensures r.Some? <==> email in s.users
    ensures r.Some? ==> r.value == s.users[email]
    ensures r.Some? && Consistent(s) ==> r.value.email == email
  {
    if email in s.users then Some(s.users[email]) else None
  }

  /** `save` of a user not yet persisted: the store assigns the next id and
      returns the saved user. Saving a new email keeps the store consistent
      and gives the user an id no stored user has. */
  function SaveNew(s: Store, u: User): (r: (Store, User))
    ensures r.1 == u.(id := s.nextId)
    ensures r.0.users.Keys == s.users.Keys + {u.email}
    ensures r.0.users[u.email] == r.1
    ensures forall e :: e in s.users && e != u.email ==> r.0.users[e] == s.users[e]
    ensures Consistent(s) && u.email !in s.users ==>
              Consistent(r.0) && forall e :: e in s.users ==> s.users[e].id != r.1.id
  {
    var saved := u.(id := s.nextId);
    (Store(s.users[u.email := saved], s.nextId + 1), saved)
  }
}
