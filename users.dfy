/** The database-backed user service (UserServiceImpl): the partial update and
    the two lookups over the user table, a sequence in table order. The mapper
    between users and their DTOs copies the three fields. */
module Users {
  import opened Common
  import opened Domain
  import opened Sequences

  datatype UserDto = UserDto(id: int, name: string, email: string)

  /** UserMapper.toUserDto; its inverse toUser gives the user back. */
  function ToDto(u: User): (r: UserDto)
    ensures ToUser(r) == u
  {
    UserDto(u.id, u.name, u.email)
  }

  /** UserMapper.toUser. */
  function ToUser(d: UserDto): User {
    User(d.id, d.name, d.email)
  }

  /** getByIdUser: the DTO of the stored user with this id, or NotFound. */
  function GetByIdUser(users: seq<User>, id: int): (r: Result<UserDto>)
    ensures r.Ok? <==> exists u :: u in users && u.id == id
    ensures r.Ok? ==> ToUser(r.value) in users && r.value.id == id
    ensures r.Err? ==> r.error == NotFound
  {
    match IndexOf(users, UserIdOf, id)
    case None =>
      assert forall u :: u in users ==> u.id != id by {
        forall u | u in users ensures u.id != id {
          var i :| 0 <= i < |users| && users[i] == u;
          assert UserIdOf(users[i]) != id;
        }
      }
      Err(NotFound)
    case Some(k) => Ok(ToDto(users[k]))
  }

  /** getAllUser: one DTO per stored user, in table order. */
  function GetAllUser(users: seq<User>): (r: seq<UserDto>)
    ensures |r| == |users|
    ensures forall i :: 0 <= i < |r| ==> ToUser(r[i]) == users[i]
  {
    if users == [] then [] else [ToDto(users[0])] + GetAllUser(users[1..])
  }

  /** The user table. */
  class UserService {
    var users: seq<User>

    ghost predicate Valid()
      reads this
    {
      UniqueKeys(users, UserIdOf)
    }

    constructor (users: seq<User>)
      requires UniqueKeys(users, UserIdOf)
      ensures Valid() && this.users == users
    {
      this.users := users;
    }

    /** updateUser: NotFound for an unknown id; otherwise a non-null e-mail and a
        non-null name replace the stored ones, the id is kept, and a later
        getByIdUser returns the updated user. */
    method UpdateUser(id: int, name: Option<string>, email: Option<string>) returns (r: Result<UserDto>)
      requires Valid()
      modifies this
      ensures Valid()
      ensures GetByIdUser(old(users), id).Err? <==> r.Err?
      ensures r.Err? ==> r == Err(NotFound) && users == old(users)
      ensures r.Ok? ==> (
        var k := IndexOf(old(users), UserIdOf, id).value;
        var before := old(users)[k];
        && IndexOf(old(users), UserIdOf, id).Some?
        && r.value == UserDto(id, if name.Some? then name.value else before.name,
                                  if email.Some? then email.value else before.email)
        && users == old(users)[k := ToUser(r.value)]
        && GetByIdUser(users, id) == r)
    {
      var k := IndexOf(users, UserIdOf, id);
      if k.None? {
        return Err(NotFound);
      }
      var user := users[k.value];
      if email.Some? {
        user := user.(email := email.value);
      }
      if name.Some? {
        user := user.(name := name.value);
      }
      users := users[k.value := user];
      forall i, j | 0 <= i < j < |users| ensures users[i].id != users[j].id {
        assert old(users)[i].id != old(users)[j].id;
      }
      IndexOfUnique(users, UserIdOf, k.value);
      r := Ok(ToDto(user));
    }
  }
}
