/**
 * AuthorityUserRepository, the data-access collaborator of the service.
 * Its SQL is not part of this model: each read query is an opaque answer
 * (a field of Queries), and the writes the service issues are recorded, in
 * order, in a call log. The user-role join table is the one piece of
 * written state whose meaning the service relies on, so its effect is
 * modelled as well.
 */
module Repository {
  import opened Wrappers

  /** A menu row as the menu queries return it (column name to value). */
  datatype MenuRow = MenuRow(
    id: int,
    url: string,
    menuName: string,
    parentId: Option<int>,
    remark: string,
    urlPre: string)

  /** The row of findUserIdAndNickNameAndRemarkByUsername. */
  datatype Profile = Profile(id: int, nickname: string, remark: string)

  /**
   * The answers of the repository's read queries against one state of the
   * database. An Option answer is None where the query finds no row and
   * Java would receive null.
   */
  datatype Queries = Queries(
    findAllMenuUrl: seq<string>,
    // UserService.java:128 declares this answer as List<String>, while its
    // caller in SelfFilterInvocationSecurityMetadataSource.java:39 stores it
    // in a String; the model follows the caller: one role name per URL.
    findRoleNameByMenuUrl: string -> string,
    findUserIdAndNickNameAndRemarkByUsername: string -> Option<Profile>,
    findUrlsByUsername: string -> seq<string>,
    findRootMenuInfo: seq<MenuRow>,
    findMenuInfoByParentId: int -> seq<MenuRow>,
    findRootMenuInfoByUsername: string -> seq<MenuRow>,
    findRootMenuIdOfPartialPermission: string -> seq<int>,
    findMenuInfoByMenuId: int -> Option<MenuRow>,
    findChildrenMenuInfoByUsernameAndParentId: (string, int) -> seq<MenuRow>,
    findCountByUsername: string -> int,
    isNotExistenceOfUpdateUsername: (int, string) -> int)

  /** One write issued to the repository, with its arguments. */
  datatype Call =
    | DeleteRolesByUserId(userId: int)
    | AddRoleForUser(userId: int, roleId: int, createTime: string)
    | DeleteUserInfoByUserId(userId: int)
    | DeleteUserCollectionByUserId(userId: int)
    | UpdateUserInfoByUserIdExcludeValidTimeAndPassword(
        userId: int, nickname: string, username: string, email: string,
        phone: string, updateTime: string, remark: string)
    | UpdateUserInfoByUserIdExcludeValidTime(
        userId: int, nickname: string, username: string, password: string,
        email: string, phone: string, updateTime: string, remark: string)
    | UpdateUserInfoByUserIdExcludePassword(
        userId: int, nickname: string, username: string, email: string,
        phone: string, validTime: string, updateTime: string, remark: string)

  /** A row of the user-role join table: (user id, role id). */
  type UserRole = (int, int)

  /** What one write does to the user-role table. */
  function Apply(roles: set<UserRole>, c: Call): set<UserRole> {
    match c
    case DeleteRolesByUserId(u) => set p | p in roles && p.0 != u
    case AddRoleForUser(u, r, _) => roles + {(u, r)}
    case _ => roles
  }

  /** The user-role table after the writes of calls, in order. */
  function Replay(roles: set<UserRole>, calls: seq<Call>): set<UserRole>
    decreases |calls|
  {
    if calls == [] then roles
    else Apply(Replay(roles, calls[..|calls| - 1]), calls[|calls| - 1])
  }

  lemma {:induction false} ReplayAppend(roles: set<UserRole>, a: seq<Call>, b: seq<Call>)
    ensures Replay(roles, a + b) == Replay(Replay(roles, a), b)
    decreases |b|
  {
    if b == [] {
      assert a + b == a;
    } else {
      ReplayAppend(roles, a, b[..|b| - 1]);
      assert (a + b)[..|a + b| - 1] == a + b[..|b| - 1];
    }
  }

  /** The repository as the service sees it: the writes so far and the join table. */
  class AuthorityUserRepository {
    ghost const initialRoles: set<UserRole>
    var userRoles: set<UserRole>
    var log: seq<Call>

    /** The join table is always the initial one with the logged writes applied. */
    ghost predicate Valid()
      reads this
    {
      userRoles == Replay(initialRoles, log)
    }

    constructor (roles: set<UserRole>)
      ensures Valid() && userRoles == roles && log == []
    {
      initialRoles := roles;
      userRoles := roles;
      log := [];
    }

    /** Issue one write: it is logged and takes effect on the join table. */
    method Execute(c: Call)
      requires Valid()
      modifies this
      ensures Valid()
      ensures log == old(log) + [c]
      ensures userRoles == Apply(old(userRoles), c)
    {
      log := log + [c];
      userRoles := Apply(userRoles, c);
      assert log[..|log| - 1] == old(log);
    }
  }
}
