/** The in-memory user repository (UserRepositoryInMemory): a map from id to user,
    the set of registered e-mails kept in step with it, and the next id to hand out.
    HashMap iteration order is not modelled: getAllUsers is the set of stored users. */
module UserStore {
  import opened Common
  import opened Domain

  /** The e-mails of the stored users. */
  function EmailsOf(users: map<int, User>): (r: set<string>)
    ensures forall k :: k in users ==> users[k].email in r
    ensures forall e :: e in r ==> exists k :: k in users && users[k].email == e
  {
    set k | k in users :: users[k].email
  }

  /** No two stored users share an e-mail. */
  predicate EmailsUnique(users: map<int, User>) {
    forall k1, k2 :: k1 in users && k2 in users && k1 != k2 ==> users[k1].email != users[k2].email
  }

  /** Storing a user under a new id adds exactly its e-mail. */
  lemma {:induction false} EmailsOfInsert(users: map<int, User>, id: int, u: User)
    requires id !in users
    ensures EmailsOf(users[id := u]) == EmailsOf(users) + {u.email}
  {
    var after := users[id := u];
    forall e ensures e in EmailsOf(after) <==> e in EmailsOf(users) + {u.email} {
      if e in EmailsOf(after) && e != u.email {
        var k :| k in after && after[k].email == e;
        assert k != id && k in users;
      }
      if e in EmailsOf(users) {
        var k :| k in users && users[k].email == e;
        assert k in after && after[k] == users[k];
      }
      if e == u.email {
        assert after[id] == u;
      }
    }
  }

  /** Replacing a user whose e-mail no other user has swaps its old e-mail for the new one. */
  lemma {:induction false} EmailsOfReplace(users: map<int, User>, id: int, u: User)
    requires id in users && EmailsUnique(users)
    ensures EmailsOf(users[id := u]) == EmailsOf(users) - {users[id].email} + {u.email}
  {
    var after := users[id := u];
    forall e ensures e in EmailsOf(after) <==> e in EmailsOf(users) - {users[id].email} + {u.email} {
      if e in EmailsOf(after) && e != u.email {
        var k :| k in after && after[k].email == e;
        assert k != id && k in users && users[k].email == e;
      }
      if e in EmailsOf(users) && e != users[id].email {
        var k :| k in users && users[k].email == e;
        assert k != id && after[k] == users[k];
      }
      if e == u.email {
        assert after[id] == u;
      }
    }
  }

  /** Removing a user whose e-mail no other user has drops exactly that e-mail. */
  lemma {:induction false} EmailsOfRemove(users: map<int, User>, id: int)
    requires id in users && EmailsUnique(users)
    ensures EmailsOf(users - {id}) == EmailsOf(users) - {users[id].email}
  {
    var after := users - {id};
    forall e ensures e in EmailsOf(after) <==> e in EmailsOf(users) - {users[id].email} {
      if e in EmailsOf(after) {
        var k :| k in after && after[k].email == e;
        assert k != id && k in users && users[k].email == e;
      }
      if e in EmailsOf(users) && e != users[id].email {
        var k :| k in users && users[k].email == e;
        assert k != id && k in after;
      }
    }
  }

  /** getUserById: the user stored under the id, or NotFound. */
  function GetUserById(users: map<int, User>, id: int): (r: Result<User>)
    ensures r.Ok? <==> id in users
    ensures r.Ok? ==> r.value == users[id] && r.value in GetAllUsers(users)
    ensures r.Err? ==> r.error == NotFound
  {
    if id in users then Ok(users[id]) else Err(NotFound)
  }

  /** getAllUsers: the stored users. */
  function GetAllUsers(users: map<int, User>): (r: set<User>)
    ensures forall k :: k in users ==> users[k] in r
    ensures forall u :: u in r ==> exists k :: k in users && users[k] == u
  {
    set k | k in users :: users[k]
  }

  /** The repository's invariant: every user is stored under its own id below
      idMax; `emails` is exactly the set of the stored users' e-mails, and no two
      users share one. */
  predicate StoreInvariant(users: map<int, User>, emails: set<string>, idMax: int) {
    && idMax >= 1
    && (forall k :: k in users ==> users[k].id == k && 1 <= k < idMax)
    && emails == EmailsOf(users)
    && EmailsUnique(users)
  }

  /** createUser keeps the invariant: a user with an unregistered e-mail stored
      under idMax, the e-mail registered and idMax advanced. */
  lemma {:induction false} InsertKeepsInvariant(users: map<int, User>, emails: set<string>, idMax: int, u: User)
    requires StoreInvariant(users, emails, idMax)
    requires u.id == idMax && u.email !in emails
    ensures idMax !in users
    ensures StoreInvariant(users[idMax := u], emails + {u.email}, idMax + 1)
  {
    EmailsOfInsert(users, idMax, u);
    var after := users[idMax := u];
    forall k1, k2 | k1 in after && k2 in after && k1 != k2 ensures after[k1].email != after[k2].email {
      if k1 == idMax { assert users[k2].email in emails; }
      else if k2 == idMax { assert users[k1].email in emails; }
    }
  }

  /** updateUser keeps the invariant: the user keeps its id, and its new e-mail is
      its old one or not registered; the set swaps the old e-mail for the new one. */
  lemma {:induction false} ReplaceKeepsInvariant(users: map<int, User>, emails: set<string>, idMax: int,
                                                 id: int, u: User)
    requires StoreInvariant(users, emails, idMax)
    requires id in users && u.id == id
    requires u.email == users[id].email || u.email !in emails
    ensures StoreInvariant(users[id := u], emails - {users[id].email} + {u.email}, idMax)
  {
    EmailsOfReplace(users, id, u);
    var after := users[id := u];
    forall k1, k2 | k1 in after && k2 in after && k1 != k2 ensures after[k1].email != after[k2].email {
      if k1 == id { assert users[k2].email in emails; }
      else if k2 == id { assert users[k1].email in emails; }
      else { assert users[k1].email != users[k2].email; }
    }
  }

  /** deleteUser keeps the invariant: the user and its e-mail go together. */
  lemma {:induction false} RemoveKeepsInvariant(users: map<int, User>, emails: set<string>, idMax: int, id: int)
    requires StoreInvariant(users, emails, idMax) && id in users
    ensures StoreInvariant(users - {id}, emails - {users[id].email}, idMax)
  {
    EmailsOfRemove(users, id);
  }

  class UserRepositoryInMemory {
    var users: map<int, User>
    var emails: set<string>
    var idMax: int

    ghost predicate Valid()
      reads this
    {
      StoreInvariant(users, emails, idMax)
    }

    constructor ()
      ensures Valid() && users == map[] && emails == {} && idMax == 1
    {
      users := map[];
      emails := {};
      idMax := 1;
    }

    /** createUser: Conflict when the e-mail is registered (emailIsAvailable);
        otherwise the user gets id idMax, which then grows by one, and its e-mail
        is registered. */
    method CreateUser(name: string, email: string) returns (r: Result<User>)
      requires Valid()
      modifies this
      ensures Valid()
      ensures email in old(emails) ==>
                r == Err(Conflict) && users == old(users) && emails == old(emails) && idMax == old(idMax)
      ensures email !in old(emails) ==> (
        && r == Ok(User(old(idMax), name, email))
        && old(idMax) !in old(users)
        && users == old(users)[old(idMax) := r.value]
        && emails == old(emails) + {email}
        && idMax == old(idMax) + 1)
    {
      if email in emails {
        return Err(Conflict);
      }
      var user := User(idMax, name, email);
      InsertKeepsInvariant(users, emails, idMax, user);
      idMax := idMax + 1;
      users := users[user.id := user];
      emails := emails + {email};
      r := Ok(user);
    }

    /** updateUser as written: NotFound for an unknown id; a non-null e-mail must
        not be registered, not even by this very user, and then replaces the old
        one in the user and in `emails`; a non-null name replaces the old one. */
    method UpdateUser(id: int, name: Option<string>, email: Option<string>) returns (r: Result<User>)
      requires Valid()
      modifies this
      ensures Valid() && idMax == old(idMax)
      ensures r.Ok? <==> id in old(users) && (email.None? || email.value !in old(emails))
      ensures id !in old(users) ==> r == Err(NotFound)
      ensures id in old(users) && email.Some? && email.value in old(emails) ==> r == Err(Conflict)
      ensures r.Err? ==> users == old(users) && emails == old(emails)
      ensures r.Ok? ==> (
        var before := old(users)[id];
        && id in old(users)
        && (email.Some? ==> email.value !in old(emails))
        && r.value == User(id, if name.Some? then name.value else before.name,
                               if email.Some? then email.value else before.email)
        && users == old(users)[id := r.value]
        && emails == old(emails) - {before.email} + {r.value.email})
    {
      if id !in users {
        return Err(NotFound);
      }
      var before := users[id];
      if email.Some? && email.value in emails {
        return Err(Conflict);
      }
      var user := User(id, if name.Some? then name.value else before.name,
                           if email.Some? then email.value else before.email);
      ReplaceKeepsInvariant(users, emails, idMax, id, user);
      if email.Some? {
        emails := emails - {before.email} + {user.email};
      } else {
        assert emails - {before.email} + {user.email} == emails;
      }
      users := users[id := user];
      r := Ok(user);
    }

    /** updateUser as evidently intended: the user's own current e-mail counts as
        available to that user, so resubmitting it succeeds and changes nothing. */
    method UpdateUserKeepingOwnEmail(id: int, name: Option<string>, email: Option<string>)
      returns (r: Result<User>)
      requires Valid()
      modifies this
      ensures Valid() && idMax == old(idMax)
      ensures r.Ok? <==> (id in old(users) &&
                          !(email.Some? && email.value != old(users)[id].email && email.value in old(emails)))
      ensures id !in old(users) ==> r == Err(NotFound)
      ensures id in old(users) ==> (
        r == Err(Conflict) <==> email.Some? && email.value != old(users)[id].email && email.value in old(emails))
      ensures id in old(users) && email == Some(old(users)[id].email) && name.None? ==>
                r == Ok(old(users)[id]) && users == old(users) && emails == old(emails)
      ensures r.Err? ==> users == old(users) && emails == old(emails)
      ensures r.Ok? ==> (
        var before := old(users)[id];
        && id in old(users)
        && r.value == User(id, if name.Some? then name.value else before.name,
                               if email.Some? then email.value else before.email)
        && users == old(users)[id := r.value]
        && emails == old(emails) - {before.email} + {r.value.email})
    {
      if id !in users {
        return Err(NotFound);
      }
      var before := users[id];
      if email.Some? && email.value != before.email && email.value in emails {
        return Err(Conflict);
      }
      var user := User(id, if name.Some? then name.value else before.name,
                           if email.Some? then email.value else before.email);
      if user == before {
        assert users[id := user] == users;
        assert emails - {before.email} + {user.email} == emails;
      }
      ReplaceKeepsInvariant(users, emails, idMax, id, user);
      users := users[id := user];
      emails := emails - {before.email} + {user.email};
      r := Ok(user);
    }

    /** deleteUser: removes the user and its e-mail when present, and always
        answers true. */
    method DeleteUser(id: int) returns (r: bool)
      requires Valid()
      modifies this
      ensures Valid() && r && idMax == old(idMax)
      ensures users == old(users) - {id}
      ensures id in old(users) ==> emails == old(emails) - {old(users)[id].email}
      ensures id !in old(users) ==> emails == old(emails)
    {
      if id in users {
        RemoveKeepsInvariant(users, emails, idMax, id);
        emails := emails - {users[id].email};
        users := users - {id};
      }
      r := true;
    }
  }

  /** A user who resubmits their own e-mail is refused with Conflict by updateUser
      as written, and accepted, unchanged, by the corrected update. */
  method OwnEmailResubmitted() returns (asWritten: Result<User>, corrected: Result<User>)
    ensures asWritten == Err(Conflict)
    ensures corrected == Ok(User(1, "Ann", "ann@mail.ru"))
  {
    var repo := new UserRepositoryInMemory();
    var created := repo.CreateUser("Ann", "ann@mail.ru");
    asWritten := repo.UpdateUser(1, None, Some("ann@mail.ru"));
    corrected := repo.UpdateUserKeepingOwnEmail(1, None, Some("ann@mail.ru"));
  }
}
