/**
 Registration: an email may be registered once; the password is stored only
 in encoded form. The password encoder is a parameter, since its algorithm
 is not part of this model.
 */
module AuthService {
  import opened Errors
  import opened Domain

  /**
   Registers `email` with the encoding of `rawPassword`. Succeeds with no
   value (no token is issued); fails with `Duplicate` if the address is taken.
   */
  function Register(s: Store, email: string, rawPassword: string, encode: string -> string): (r: Reply<()>)
    requires Valid(s)
    ensures Valid(r.store)
    ensures email in s.users ==> r == Reply(Err(Duplicate(EmailExists)), s)
    ensures email !in s.users ==>
      && r.result == Ok(())
      && r.store.users.Keys == s.users.Keys + {email}
      && r.store.users[email].password == encode(rawPassword)
      && r.store.users[email].id !in UserIds(s.users)
      && (forall e :: e in s.users ==> r.store.users[e] == s.users[e])
      && r.store.todos == s.todos
  {
    if email in s.users then
      Reply(Err(Duplicate(EmailExists)), s)
    else
      var user := User(s.nextUserId, encode(rawPassword));
      var users := s.users[email := user];
      assert UserIds(s.users) <= UserIds(users) by {
        forall e | e in s.users
          ensures s.users[e].id in UserIds(users)
        {
          assert users[e] == s.users[e];
        }
      }
      Reply(Ok(()), s.(users := users, nextUserId := s.nextUserId + 1))
  }

  /**
   Registering the same address twice fails the second time with `Duplicate`,
   and the account stored by the first call is kept as it was.
   */
  lemma RegisterTwiceFails(s: Store, email: string, first: string, second: string, encode: string -> string)
    requires Valid(s)
    requires email !in s.users
    ensures var r1 := Register(s, email, first, encode);
            var r2 := Register(r1.store, email, second, encode);
            && r1.result == Ok(())
            && r2.result == Err(Duplicate(EmailExists))
            && r2.store == r1.store
            && r2.store.users[email].password == encode(first)
  {
  }

  /** After registration, no two addresses share a user id. */
  lemma RegisterKeepsIdsUnique(s: Store, email: string, rawPassword: string, encode: string -> string)
    requires Valid(s)
    ensures var users := Register(s, email, rawPassword, encode).store.users;
            forall e1, e2 :: e1 in users && e2 in users && e1 != e2 ==> users[e1].id != users[e2].id
  {
  }
}
