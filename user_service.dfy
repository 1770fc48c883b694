/**
 * UserService: the menu tree shown after login (findMenuInfoByUsername),
 * and the dispatch of the user administration calls to the repository.
 */
module UserService {
  import opened Wrappers
  import opened JavaLang
  import opened Repository

  // =====================================================================
  // Menu tree of a user

  /** One root entry of menuList: the root's columns and its children. */
  datatype MenuEntry = MenuEntry(
    id: int,
    url: string,
    menuName: string,
    parentId: Option<int>,
    remark: string,
    urlPre: string,
    children: seq<MenuRow>)

  /** The map findMenuInfoByUsername returns. */
  datatype UserInfo = UserInfo(
    nickname: string,
    userId: int,
    username: string,
    remark: string,
    menuList: seq<MenuEntry>)

  /**
   * Where Java would dereference a null row: an unknown user name, or a
   * partially granted root id without a menu row.
   */
  datatype ServiceError = UserNotFound(username: string) | MenuNotFound(menuId: int)

  /** The response object whose `total` findMenuInfoByUsername sets. */
  class UrlResponse {
    var total: int

    constructor (total: int)
      ensures this.total == total
    {
      this.total := total;
    }
  }

  /** The entry built under the given id from a menu row and a list of children. */
  function Entry(id: int, row: MenuRow, children: seq<MenuRow>): MenuEntry {
    MenuEntry(id, row.url, row.menuName, row.parentId, row.remark, row.urlPre, children)
  }

  /** Each root in order, under its own id, with every child stored under it. */
  function EntriesWithAllChildren(q: Queries, roots: seq<MenuRow>): (r: seq<MenuEntry>)
    ensures |r| == |roots|
    decreases |roots|
  {
    if roots == [] then []
    else
      var root := roots[|roots| - 1];
      EntriesWithAllChildren(q, roots[..|roots| - 1])
        + [Entry(root.id, root, q.findMenuInfoByParentId(root.id))]
  }

  /**
   * Each partially granted root id in order, with the children the user is
   * granted under it; fails at the first id that has no menu row.
   */
  function EntriesWithUserChildren(q: Queries, username: string, ids: seq<int>)
    : Result<seq<MenuEntry>, ServiceError>
    decreases |ids|
  {
    if ids == [] then Ok([])
    else
      match EntriesWithUserChildren(q, username, ids[..|ids| - 1])
      case Err(e) => Err(e)
      case Ok(entries) =>
        var menuId := ids[|ids| - 1];
        match q.findMenuInfoByMenuId(menuId)
        case None => Err(MenuNotFound(menuId))
        case Some(row) =>
          Ok(entries + [Entry(menuId, row, q.findChildrenMenuInfoByUsernameAndParentId(username, menuId))])
  }

  // The user is of highest authority when the blanket pattern "/**" is among the URLs granted to it.
  predicate IsHighestAuthority(q: Queries, username: string): (r: bool)
    ensures r <==> exists i :: 0 <= i < |q.findUrlsByUsername(username)| && q.findUrlsByUsername(username)[i] == "/**"
  {
    "/**" in q.findUrlsByUsername(username)
  }

  /** menuList of findMenuInfoByUsername. */
  function MenuList(q: Queries, username: string): Result<seq<MenuEntry>, ServiceError> {
    if IsHighestAuthority(q, username) then
      Ok(EntriesWithAllChildren(q, q.findRootMenuInfo))
    else
      match EntriesWithUserChildren(q, username, q.findRootMenuIdOfPartialPermission(username))
      case Err(e) => Err(e)
      case Ok(partial) =>
        Ok(EntriesWithAllChildren(q, q.findRootMenuInfoByUsername(username)) + partial)
  }

  /** The result of findMenuInfoByUsername. */
  function MenuInfo(q: Queries, username: string): Result<UserInfo, ServiceError> {
    match q.findUserIdAndNickNameAndRemarkByUsername(username)
    case None => Err(UserNotFound(username))
    case Some(profile) =>
      match MenuList(q, username)
      case Err(e) => Err(e)
      case Ok(list) => Ok(UserInfo(profile.nickname, profile.id, username, profile.remark, list))
  }

  /** The first forEach: append each root with all its children. */
  method AppendEntriesWithAllChildren(q: Queries, roots: seq<MenuRow>, list: seq<MenuEntry>)
    returns (r: seq<MenuEntry>)
    ensures r == list + EntriesWithAllChildren(q, roots)
  {
    r := list;
    for i := 0 to |roots|
      invariant r == list + EntriesWithAllChildren(q, roots[..i])
    {
      var rootMenuInfo := roots[i];
      var id := rootMenuInfo.id;
      var children := q.findMenuInfoByParentId(id);
      r := r + [Entry(id, rootMenuInfo, children)];
      assert roots[..i + 1][..i] == roots[..i];
    }
    assert roots[..|roots|] == roots;
  }

  /** The second forEach: append each partially granted root with the user's children. */
  method AppendEntriesWithUserChildren(q: Queries, username: string, ids: seq<int>, list: seq<MenuEntry>)
    returns (r: Result<seq<MenuEntry>, ServiceError>)
    ensures r == (match EntriesWithUserChildren(q, username, ids)
                  case Err(e) => Err(e)
                  case Ok(entries) => Ok(list + entries))
  {
    var acc := list;
    for i := 0 to |ids|
      invariant EntriesWithUserChildren(q, username, ids[..i]).Ok?
      invariant acc == list + EntriesWithUserChildren(q, username, ids[..i]).value
    {
      var menuId := ids[i];
      assert ids[..i + 1][..i] == ids[..i];
      var rootMenuInfo := q.findMenuInfoByMenuId(menuId);
      if rootMenuInfo.None? {
        EntriesWithUserChildrenFails(q, username, ids, i + 1);
        return Err(MenuNotFound(menuId));
      }
      var children := q.findChildrenMenuInfoByUsernameAndParentId(username, menuId);
      acc := acc + [Entry(menuId, rootMenuInfo.value, children)];
    }
    assert ids[..|ids|] == ids;
    return Ok(acc);
  }

  /** Once a prefix has failed, every longer prefix fails with the same error. */
  lemma {:induction false} EntriesWithUserChildrenFails(q: Queries, username: string, ids: seq<int>, n: nat)
    requires n <= |ids|
    requires EntriesWithUserChildren(q, username, ids[..n]).Err?
    ensures EntriesWithUserChildren(q, username, ids) == EntriesWithUserChildren(q, username, ids[..n])
    decreases |ids| - n
  {
    if n < |ids| {
      assert ids[..n + 1][..n] == ids[..n];
      EntriesWithUserChildrenFails(q, username, ids, n + 1);
    } else {
      assert ids[..n] == ids;
    }
  }

  /**
   * findMenuInfoByUsername: look the user up, then build the full tree for a
   * highest-authority user or the granted and partially granted roots for
   * anyone else; `total` becomes the number of root entries when there are any.
   */
  method FindMenuInfoByUsername(q: Queries, username: string, response: UrlResponse)
    returns (r: Result<UserInfo, ServiceError>)
    modifies response
    ensures r == MenuInfo(q, username)
    ensures response.total
         == if r.Ok? && r.value.menuList != [] then |r.value.menuList| else old(response.total)
  {
    var profile := q.findUserIdAndNickNameAndRemarkByUsername(username);
    if profile.None? {
      return Err(UserNotFound(username));
    }
    var menuInfoList: seq<MenuEntry> := [];
    var rootUrlByUsername := q.findUrlsByUsername(username);
    var isHighestAuthority := "/**" in rootUrlByUsername;
    if isHighestAuthority {
      var rootMenuInfoList := q.findRootMenuInfo;
      menuInfoList := AppendEntriesWithAllChildren(q, rootMenuInfoList, menuInfoList);
      assert menuInfoList == EntriesWithAllChildren(q, rootMenuInfoList);
    } else {
      var rootMenuInfoByUsername := q.findRootMenuInfoByUsername(username);
      if rootMenuInfoByUsername != [] {
        menuInfoList := AppendEntriesWithAllChildren(q, rootMenuInfoByUsername, menuInfoList);
      }
      assert menuInfoList == EntriesWithAllChildren(q, rootMenuInfoByUsername);
      var rootMenuIdOfPartialPermission := q.findRootMenuIdOfPartialPermission(username);
      assert rootMenuIdOfPartialPermission == [] ==>
        EntriesWithUserChildren(q, username, rootMenuIdOfPartialPermission) == Ok([]);
      ghost var granted := menuInfoList;
      if rootMenuIdOfPartialPermission != [] {
        var appended := AppendEntriesWithUserChildren(q, username, rootMenuIdOfPartialPermission, menuInfoList);
        if appended.Err? {
          return Err(appended.error);
        }
        menuInfoList := appended.value;
      }
      assert EntriesWithUserChildren(q, username, rootMenuIdOfPartialPermission).Ok?;
      assert menuInfoList == granted + EntriesWithUserChildren(q, username, rootMenuIdOfPartialPermission).value;
    }
    assert MenuList(q, username) == Ok(menuInfoList);
    var p := profile.value;
    r := Ok(UserInfo(p.nickname, p.id, username, p.remark, menuInfoList));
    if menuInfoList != [] {
      response.total := |menuInfoList|;
    }
  }

  /** Entry i of the all-children list is root i with the children stored under its id. */
  lemma {:induction false} EntriesWithAllChildrenAt(q: Queries, roots: seq<MenuRow>, i: int)
    requires 0 <= i < |roots|
    ensures EntriesWithAllChildren(q, roots)[i]
         == Entry(roots[i].id, roots[i], q.findMenuInfoByParentId(roots[i].id))
    decreases |roots|
  {
    if i < |roots| - 1 {
      EntriesWithAllChildrenAt(q, roots[..|roots| - 1], i);
    }
  }

  /**
   * The partial list succeeds exactly when every id has a menu row; then
   * entry k is built under ids[k] from that row with the user's children.
   */
  lemma {:induction false} EntriesWithUserChildrenSpec(q: Queries, username: string, ids: seq<int>)
    ensures EntriesWithUserChildren(q, username, ids).Ok?
        <==> forall k :: 0 <= k < |ids| ==> q.findMenuInfoByMenuId(ids[k]).Some?
    ensures EntriesWithUserChildren(q, username, ids).Ok? ==>
              var entries := EntriesWithUserChildren(q, username, ids).value;
              && |entries| == |ids|
              && forall k :: 0 <= k < |ids| ==>
                   entries[k] == Entry(ids[k], q.findMenuInfoByMenuId(ids[k]).value,
                                       q.findChildrenMenuInfoByUsernameAndParentId(username, ids[k]))
    decreases |ids|
  {
    if ids != [] {
      var init := ids[..|ids| - 1];
      EntriesWithUserChildrenSpec(q, username, init);
      assert forall k :: 0 <= k < |init| ==> init[k] == ids[k];
    }
  }

  /**
   * Highest authority: one entry per root of findRootMenuInfo, in order,
   * each with every child stored under it.
   */
  lemma HighestAuthorityMenu(q: Queries, username: string)
    requires IsHighestAuthority(q, username)
    ensures MenuList(q, username).Ok?
    ensures |MenuList(q, username).value| == |q.findRootMenuInfo|
    ensures forall i :: 0 <= i < |q.findRootMenuInfo| ==>
              MenuList(q, username).value[i]
              == Entry(q.findRootMenuInfo[i].id, q.findRootMenuInfo[i],
                       q.findMenuInfoByParentId(q.findRootMenuInfo[i].id))
  {
    forall i | 0 <= i < |q.findRootMenuInfo|
      ensures MenuList(q, username).value[i]
           == Entry(q.findRootMenuInfo[i].id, q.findRootMenuInfo[i],
                    q.findMenuInfoByParentId(q.findRootMenuInfo[i].id))
    {
      EntriesWithAllChildrenAt(q, q.findRootMenuInfo, i);
    }
  }

  /** The all-children list reads only findMenuInfoByParentId. */
  lemma {:induction false} EntriesWithAllChildrenFrame(q1: Queries, q2: Queries, roots: seq<MenuRow>)
    requires forall id :: q1.findMenuInfoByParentId(id) == q2.findMenuInfoByParentId(id)
    ensures EntriesWithAllChildren(q1, roots) == EntriesWithAllChildren(q2, roots)
    decreases |roots|
  {
    if roots != [] {
      EntriesWithAllChildrenFrame(q1, q2, roots[..|roots| - 1]);
    }
  }

  /**
   * For a highest-authority user the menu list consults no user-specific
   * menu query: stores that agree on the user's URLs, the roots and the
   * children give the same list whatever their per-user grants are.
   */
  lemma HighestAuthorityIgnoresGrants(q1: Queries, q2: Queries, username: string)
    requires IsHighestAuthority(q1, username)
    requires q1.findUrlsByUsername(username) == q2.findUrlsByUsername(username)
    requires q1.findRootMenuInfo == q2.findRootMenuInfo
    requires forall id :: q1.findMenuInfoByParentId(id) == q2.findMenuInfoByParentId(id)
    ensures MenuList(q1, username) == MenuList(q2, username)
  {
    EntriesWithAllChildrenFrame(q1, q2, q1.findRootMenuInfo);
  }

  /**
   * Anyone else: the granted roots with all their children, then the
   * partially granted roots with the user's children; the length is the sum
   * of the two query lengths.
   */
  lemma PartialAuthorityMenu(q: Queries, username: string)
    requires !IsHighestAuthority(q, username)
    requires forall id :: id in q.findRootMenuIdOfPartialPermission(username) ==> q.findMenuInfoByMenuId(id).Some?
    ensures MenuList(q, username).Ok?
    ensures var list := MenuList(q, username).value;
            var granted := q.findRootMenuInfoByUsername(username);
            var partial := q.findRootMenuIdOfPartialPermission(username);
            && |list| == |granted| + |partial|
            && (forall i :: 0 <= i < |granted| ==>
                  list[i] == Entry(granted[i].id, granted[i], q.findMenuInfoByParentId(granted[i].id)))
            && (forall k :: 0 <= k < |partial| ==>
                  list[|granted| + k]
                  == Entry(partial[k], q.findMenuInfoByMenuId(partial[k]).value,
                           q.findChildrenMenuInfoByUsernameAndParentId(username, partial[k])))
  {
    var granted := q.findRootMenuInfoByUsername(username);
    var partial := q.findRootMenuIdOfPartialPermission(username);
    forall k | 0 <= k < |partial| ensures q.findMenuInfoByMenuId(partial[k]).Some? {
      var id := partial[k];
      assert id in partial;
      assert q.findMenuInfoByMenuId(id).Some?;
    }
    EntriesWithUserChildrenSpec(q, username, partial);
    forall i | 0 <= i < |granted|
      ensures EntriesWithAllChildren(q, granted)[i]
           == Entry(granted[i].id, granted[i], q.findMenuInfoByParentId(granted[i].id))
    {
      EntriesWithAllChildrenAt(q, granted, i);
    }
  }

  /**
   * A root that is both granted and partially granted appears twice: once
   * with all its children, once with the user's.
   */
  lemma DuplicateRootsKept(q: Queries, username: string, i: int, k: int)
    requires !IsHighestAuthority(q, username)
    requires forall id :: id in q.findRootMenuIdOfPartialPermission(username) ==> q.findMenuInfoByMenuId(id).Some?
    requires 0 <= i < |q.findRootMenuInfoByUsername(username)|
    requires 0 <= k < |q.findRootMenuIdOfPartialPermission(username)|
    requires q.findRootMenuInfoByUsername(username)[i].id == q.findRootMenuIdOfPartialPermission(username)[k]
    ensures MenuList(q, username).Ok?
    ensures var list := MenuList(q, username).value;
            var j := |q.findRootMenuInfoByUsername(username)| + k;
            j < |list| && i != j && list[i].id == list[j].id
  {
    PartialAuthorityMenu(q, username);
  }

  /**
   * findMenuInfoByUsername fails exactly for an unknown user, or for a
   * partially granted root id without a row; otherwise the map carries the
   * user's profile and the menu list.
   */
  lemma MenuInfoOutcome(q: Queries, username: string)
    ensures q.findUserIdAndNickNameAndRemarkByUsername(username).None?
        ==> MenuInfo(q, username) == Err(UserNotFound(username))
    ensures MenuInfo(q, username).Err?
        <==> || q.findUserIdAndNickNameAndRemarkByUsername(username).None?
             || (&& !IsHighestAuthority(q, username)
                 && exists k :: 0 <= k < |q.findRootMenuIdOfPartialPermission(username)|
                      && q.findMenuInfoByMenuId(q.findRootMenuIdOfPartialPermission(username)[k]).None?)
    ensures MenuInfo(q, username).Ok? ==>
              var profile := q.findUserIdAndNickNameAndRemarkByUsername(username).value;
              var info := MenuInfo(q, username).value;
              && info.nickname == profile.nickname
              && info.userId == profile.id
              && info.username == username
              && info.remark == profile.remark
              && MenuList(q, username) == Ok(info.menuList)
  {
    EntriesWithUserChildrenSpec(q, username, q.findRootMenuIdOfPartialPermission(username));
  }

  // =====================================================================
  // User administration

  /** ObjectUtils.isEmpty on a String. */
  predicate IsEmpty(s: string) {
    |s| == 0
  }

  /** Every piece is a literal Integer.parseInt accepts. */
  predicate AllIntLiterals(pieces: seq<string>) {
    forall i :: 0 <= i < |pieces| ==> IsIntLiteral(pieces[i])
  }

  /** Integer.parseInt of every piece, in order. */
  function ParseAll(pieces: seq<string>): (r: seq<int>)
    requires AllIntLiterals(pieces)
    ensures |r| == |pieces|
  {
    seq(|pieces|, i requires 0 <= i < |pieces| => ParseInt(pieces[i]))
  }

  /** Every comma-separated piece of s is a literal Integer.parseInt accepts. */
  predicate IsIdList(s: string) {
    AllIntLiterals(Split(s, ','))
  }

  /** The ids of a comma-separated list, in order. */
  function ParseIdList(s: string): seq<int>
    requires IsIdList(s)
  {
    ParseAll(Split(s, ','))
  }

  /** The decimal form of each id, as a client writes it. */
  function IdStrings(ids: seq<int>): (r: seq<string>)
    ensures |r| == |ids|
  {
    seq(|ids|, i requires 0 <= i < |ids| => IntToString(ids[i]))
  }

  /** A decimal number holds no comma and is never empty. */
  lemma IntToStringShape(n: int)
    ensures ',' !in IntToString(n) && IntToString(n) != []
  {
    var ds := Digits(if n < 0 then -n else n);
    assert forall i :: 0 <= i < |ds| ==> ds[i] != ',';
    if n < 0 {
      assert forall i :: 0 <= i < |IntToString(n)| ==> IntToString(n)[i] != ',' by {
        assert IntToString(n) == "-" + ds;
      }
    }
  }

  /**
   * The comma-joined decimal form of a non-empty list of int ids is a valid
   * id list and parses back to exactly those ids, in order.
   */
  lemma IdListRoundTrip(ids: seq<int>)
    requires |ids| > 0 && forall i :: 0 <= i < |ids| ==> InInt(ids[i])
    ensures IsIdList(Join(IdStrings(ids), ','))
    ensures ParseIdList(Join(IdStrings(ids), ',')) == ids
  {
    var ps := IdStrings(ids);
    forall i | 0 <= i < |ps| ensures ',' !in ps[i] && ps[i] != [] {
      IntToStringShape(ids[i]);
    }
    SplitJoin(ps, ',');
    forall i | 0 <= i < |ps| ensures IsIntLiteral(ps[i]) && ParseInt(ps[i]) == ids[i] {
      ParseIntToString(ids[i]);
    }
  }

  /** One addRoleForUser per role id, in order. */
  function AddRoleCalls(userId: int, roleIds: seq<int>, createTime: string): (r: seq<Call>)
    ensures |r| == |roleIds|
    decreases |roleIds|
  {
    if roleIds == [] then []
    else
      AddRoleCalls(userId, roleIds[..|roleIds| - 1], createTime)
        + [AddRoleForUser(userId, roleIds[|roleIds| - 1], createTime)]
  }

  lemma AddRoleCallsPrefix(userId: int, roleIds: seq<int>, i: int, createTime: string)
    requires 0 <= i < |roleIds|
    ensures AddRoleCalls(userId, roleIds[..i + 1], createTime)
         == AddRoleCalls(userId, roleIds[..i], createTime) + [AddRoleForUser(userId, roleIds[i], createTime)]
  {
    assert roleIds[..i + 1][..i] == roleIds[..i];
  }

  /** The writes of addRolesForUser: delete the user's roles, then insert the new ones. */
  function AssignRolesCalls(userId: int, roleIds: seq<int>, createTime: string): seq<Call> {
    [DeleteRolesByUserId(userId)] + AddRoleCalls(userId, roleIds, createTime)
  }

  /** The k-th insert is for the k-th role id. */
  lemma {:induction false} AddRoleCallsAt(userId: int, roleIds: seq<int>, createTime: string, k: int)
    requires 0 <= k < |roleIds|
    ensures AddRoleCalls(userId, roleIds, createTime)[k] == AddRoleForUser(userId, roleIds[k], createTime)
    decreases |roleIds|
  {
    var init := roleIds[..|roleIds| - 1];
    if k < |init| {
      AddRoleCallsAt(userId, init, createTime, k);
    }
  }

  /** The deletion comes first and is the only one; the inserts follow in the order of the list. */
  lemma AssignRolesOrder(userId: int, roleIds: seq<int>, createTime: string)
    ensures var calls := AssignRolesCalls(userId, roleIds, createTime);
            && |calls| == |roleIds| + 1
            && calls[0] == DeleteRolesByUserId(userId)
            && forall k :: 0 <= k < |roleIds| ==> calls[k + 1] == AddRoleForUser(userId, roleIds[k], createTime)
  {
    forall k | 0 <= k < |roleIds|
      ensures AssignRolesCalls(userId, roleIds, createTime)[k + 1] == AddRoleForUser(userId, roleIds[k], createTime)
    {
      AddRoleCallsAt(userId, roleIds, createTime, k);
    }
  }

  lemma {:induction false} ReplayAddRoleCalls(roles: set<UserRole>, userId: int, roleIds: seq<int>, createTime: string)
    ensures Replay(roles, AddRoleCalls(userId, roleIds, createTime))
         == roles + set r | r in roleIds :: (userId, r)
    decreases |roleIds|
  {
    if roleIds != [] {
      var init := roleIds[..|roleIds| - 1];
      var calls := AddRoleCalls(userId, roleIds, createTime);
      ReplayAddRoleCalls(roles, userId, init, createTime);
      assert calls[..|calls| - 1] == AddRoleCalls(userId, init, createTime);
      assert roleIds == init + [roleIds[|roleIds| - 1]];
      assert (set r | r in roleIds :: (userId, r))
          == (set r | r in init :: (userId, r)) + {(userId, roleIds[|roleIds| - 1])};
    }
  }

  /** The user-role table with userId's roles replaced by roleIds. */
  function AssignedRoles(roles: set<UserRole>, userId: int, roleIds: seq<int>): set<UserRole> {
    (set p | p in roles && p.0 != userId) + (set r | r in roleIds :: (userId, r))
  }

  /**
   * Afterwards the user holds exactly the listed roles, and every other
   * user's roles are as they were.
   */
  lemma AssignRolesResult(roles: set<UserRole>, userId: int, roleIds: seq<int>, createTime: string)
    ensures Replay(roles, AssignRolesCalls(userId, roleIds, createTime)) == AssignedRoles(roles, userId, roleIds)
    ensures forall r :: (userId, r) in Replay(roles, AssignRolesCalls(userId, roleIds, createTime)) <==> r in roleIds
    ensures forall p: UserRole :: p.0 != userId ==>
              (p in Replay(roles, AssignRolesCalls(userId, roleIds, createTime)) <==> p in roles)
  {
    ReplayAppend(roles, [DeleteRolesByUserId(userId)], AddRoleCalls(userId, roleIds, createTime));
    ReplayAddRoleCalls((set p | p in roles && p.0 != userId), userId, roleIds, createTime);
    assert Replay(roles, [DeleteRolesByUserId(userId)]) == set p | p in roles && p.0 != userId;
  }

  /**
   * Assigning the same list again changes nothing, and the user's new roles
   * do not depend on the roles it held before.
   */
  lemma AssignedRolesIdempotent(roles: set<UserRole>, roles2: set<UserRole>, userId: int, roleIds: seq<int>)
    ensures AssignedRoles(AssignedRoles(roles, userId, roleIds), userId, roleIds) == AssignedRoles(roles, userId, roleIds)
    ensures (forall p: UserRole :: p.0 != userId ==> (p in roles <==> p in roles2))
        ==> AssignedRoles(roles, userId, roleIds) == AssignedRoles(roles2, userId, roleIds)
  {
  }

  /** The writes logged since `before`, replayed, give the table `rolesBefore` turned into. */
  lemma ReplaySince(repoInitial: set<UserRole>, before: seq<Call>, calls: seq<Call>, rolesBefore: set<UserRole>)
    requires rolesBefore == Replay(repoInitial, before)
    ensures Replay(repoInitial, before + calls) == Replay(rolesBefore, calls)
  {
    ReplayAppend(repoInitial, before, calls);
  }

  /** The loop of addRolesForUser: one addRoleForUser per piece, in order. */
  method AddRoleForEach(repo: AuthorityUserRepository, userId: int, roleIdsArray: seq<string>, nowTime: string)
    requires repo.Valid() && AllIntLiterals(roleIdsArray)
    modifies repo
    ensures repo.Valid()
    ensures repo.log == old(repo.log) + AddRoleCalls(userId, ParseAll(roleIdsArray), nowTime)
  {
    ghost var before := repo.log;
    ghost var ids := ParseAll(roleIdsArray);
    for i := 0 to |roleIdsArray|
      invariant repo.Valid()
      invariant repo.log == before + AddRoleCalls(userId, ids[..i], nowTime)
    {
      var roleId := ParseInt(roleIdsArray[i]);
      AddRoleCallsPrefix(userId, ids, i, nowTime);
      repo.Execute(AddRoleForUser(userId, roleId, nowTime));
    }
    assert ids[..|roleIdsArray|] == ids;
  }

  lemma AssignRolesSince(repoInitial: set<UserRole>, before: seq<Call>, rolesBefore: set<UserRole>,
                         userId: int, roleIds: seq<int>, createTime: string)
    requires rolesBefore == Replay(repoInitial, before)
    ensures Replay(repoInitial, before + AssignRolesCalls(userId, roleIds, createTime))
         == AssignedRoles(rolesBefore, userId, roleIds)
  {
    ReplaySince(repoInitial, before, AssignRolesCalls(userId, roleIds, createTime), rolesBefore);
    AssignRolesResult(rolesBefore, userId, roleIds, createTime);
  }

  /** addRolesForUser. `nowTime` is the formatted clock reading used as the creation time. */
  method AddRolesForUser(repo: AuthorityUserRepository, userId: string, roleIds: string, nowTime: string)
    requires repo.Valid()
    requires IsIntLiteral(userId) && IsIdList(roleIds)
    modifies repo
    ensures repo.Valid()
    ensures repo.log == old(repo.log) + AssignRolesCalls(ParseInt(userId), ParseIdList(roleIds), nowTime)
    ensures repo.userRoles == AssignedRoles(old(repo.userRoles), ParseInt(userId), ParseIdList(roleIds))
  {
    var uId := ParseInt(userId);
    ghost var before := repo.log;
    ghost var rolesBefore := repo.userRoles;
    repo.Execute(DeleteRolesByUserId(uId));
    var roleIdsArray := Split(roleIds, ',');
    ghost var ids := ParseIdList(roleIds);
    AddRoleForEach(repo, uId, roleIdsArray, nowTime);
    assert repo.log == before + AssignRolesCalls(uId, ids, nowTime);
    AssignRolesSince(repo.initialRoles, before, rolesBefore, uId, ids, nowTime);
  }

  /** For each user id in order: its roles, then its user row, then its collections. */
  function DeleteUserCalls(userIds: seq<int>): (r: seq<Call>)
    ensures |r| == 3 * |userIds|
    decreases |userIds|
  {
    if userIds == [] then []
    else
      var u := userIds[|userIds| - 1];
      DeleteUserCalls(userIds[..|userIds| - 1])
        + [DeleteRolesByUserId(u), DeleteUserInfoByUserId(u), DeleteUserCollectionByUserId(u)]
  }

  /** The k-th user id's three deletions sit at positions 3k to 3k+2. */
  lemma {:induction false} DeleteUserCallsAt(userIds: seq<int>, k: int)
    requires 0 <= k < |userIds|
    ensures DeleteUserCalls(userIds)[3 * k .. 3 * k + 3]
         == [DeleteRolesByUserId(userIds[k]), DeleteUserInfoByUserId(userIds[k]),
             DeleteUserCollectionByUserId(userIds[k])]
    decreases |userIds|
  {
    var init := userIds[..|userIds| - 1];
    var u := userIds[|userIds| - 1];
    var tail := [DeleteRolesByUserId(u), DeleteUserInfoByUserId(u), DeleteUserCollectionByUserId(u)];
    assert DeleteUserCalls(userIds) == DeleteUserCalls(init) + tail;
    if k < |init| {
      DeleteUserCallsAt(init, k);
      assert DeleteUserCalls(userIds)[3 * k .. 3 * k + 3] == DeleteUserCalls(init)[3 * k .. 3 * k + 3];
    } else {
      assert DeleteUserCalls(userIds)[3 * k .. 3 * k + 3] == tail;
    }
  }

  /** After deleteUserInfo no listed user holds a role; other users' roles are untouched. */
  lemma {:induction false} DeleteUsersRoles(roles: set<UserRole>, userIds: seq<int>)
    ensures Replay(roles, DeleteUserCalls(userIds)) == set p | p in roles && p.0 !in userIds
    decreases |userIds|
  {
    if userIds != [] {
      var init := userIds[..|userIds| - 1];
      var u := userIds[|userIds| - 1];
      DeleteUsersRoles(roles, init);
      var tail := [DeleteRolesByUserId(u), DeleteUserInfoByUserId(u), DeleteUserCollectionByUserId(u)];
      ReplayAppend(roles, DeleteUserCalls(init), tail);
      var mid := Replay(roles, DeleteUserCalls(init));
      assert tail[..2] == [DeleteRolesByUserId(u), DeleteUserInfoByUserId(u)];
      assert tail[..2][..1] == [DeleteRolesByUserId(u)];
      assert [DeleteRolesByUserId(u)][..0] == [];
      assert Replay(mid, [DeleteRolesByUserId(u)]) == set p | p in mid && p.0 != u;
      assert Replay(mid, tail[..2]) == Replay(mid, [DeleteRolesByUserId(u)]);
      assert Replay(mid, tail) == Replay(mid, tail[..2]);
      assert forall v :: v in userIds <==> v in init || v == u by {
        assert userIds == init + [u];
      }
    }
  }

  lemma DeleteUserCallsPrefix(userIds: seq<int>, i: int)
    requires 0 <= i < |userIds|
    ensures DeleteUserCalls(userIds[..i + 1])
         == DeleteUserCalls(userIds[..i])
            + [DeleteRolesByUserId(userIds[i]), DeleteUserInfoByUserId(userIds[i]),
               DeleteUserCollectionByUserId(userIds[i])]
  {
    assert userIds[..i + 1][..i] == userIds[..i];
  }

  /** The loop of deleteUserInfo: the three deletions for each piece, in order. */
  method DeleteEach(repo: AuthorityUserRepository, ids: seq<string>)
    requires repo.Valid() && AllIntLiterals(ids)
    modifies repo
    ensures repo.Valid()
    ensures repo.log == old(repo.log) + DeleteUserCalls(ParseAll(ids))
  {
    ghost var before := repo.log;
    ghost var userIds := ParseAll(ids);
    for i := 0 to |ids|
      invariant repo.Valid()
      invariant repo.log == before + DeleteUserCalls(userIds[..i])
    {
      var uId := ParseInt(ids[i]);
      ghost var logBefore := repo.log;
      repo.Execute(DeleteRolesByUserId(uId));
      repo.Execute(DeleteUserInfoByUserId(uId));
      repo.Execute(DeleteUserCollectionByUserId(uId));
      assert repo.log == logBefore
        + [DeleteRolesByUserId(uId), DeleteUserInfoByUserId(uId), DeleteUserCollectionByUserId(uId)];
      DeleteUserCallsPrefix(userIds, i);
    }
    assert userIds[..|ids|] == userIds;
  }

  /** The deletions logged since `before`, replayed, remove exactly the listed users' roles. */
  lemma DeleteUsersSince(repoInitial: set<UserRole>, before: seq<Call>, rolesBefore: set<UserRole>,
                         userIds: seq<int>)
    requires rolesBefore == Replay(repoInitial, before)
    ensures Replay(repoInitial, before + DeleteUserCalls(userIds))
         == set p | p in rolesBefore && p.0 !in userIds
  {
    ReplaySince(repoInitial, before, DeleteUserCalls(userIds), rolesBefore);
    DeleteUsersRoles(rolesBefore, userIds);
  }

  /** deleteUserInfo: the ids are a comma-separated list. */
  method DeleteUserInfo(repo: AuthorityUserRepository, id: string)
    requires repo.Valid()
    requires IsIdList(id)
    modifies repo
    ensures repo.Valid()
    ensures repo.log == old(repo.log) + DeleteUserCalls(ParseIdList(id))
    ensures repo.userRoles == set p | p in old(repo.userRoles) && p.0 !in ParseIdList(id)
  {
    ghost var before := repo.log;
    ghost var rolesBefore := repo.userRoles;
    var ids := Split(id, ',');
    DeleteEach(repo, ids);
    DeleteUsersSince(repo.initialRoles, before, rolesBefore, ParseIdList(id));
  }

  /**
   * The writes of updateUserInfo. BCrypt salts every encoding at random, so
   * the two encodings of the password are given as firstHash and secondHash.
   */
  function UpdateUserInfoCalls(
    userId: int, nickname: string, username: string, password: string, email: string,
    phone: string, validTime: string, remark: string, nowTime: string,
    firstHash: string, secondHash: string): seq<Call>
  {
    var first :=
      if IsEmpty(validTime) then
        if IsEmpty(password) then
          UpdateUserInfoByUserIdExcludeValidTimeAndPassword(userId, nickname, username, email, phone, nowTime, remark)
        else
          UpdateUserInfoByUserIdExcludeValidTime(userId, nickname, username, firstHash, email, phone, nowTime, remark)
      else
        UpdateUserInfoByUserIdExcludePassword(userId, nickname, username, email, phone, validTime, nowTime, remark);
    var second :=
      if IsEmpty(validTime) && !IsEmpty(password) then
        [UpdateUserInfoByUserIdExcludeValidTime(userId, nickname, username, secondHash, email, phone, nowTime, remark)]
      else if !IsEmpty(validTime) && IsEmpty(password) then
        [UpdateUserInfoByUserIdExcludePassword(userId, nickname, username, email, phone, validTime, nowTime, remark)]
      else [];
    [first] + second
  }

  /**
   * A password is written exactly when validTime is empty and password is
   * not, and then twice, with the two encodings; a non-empty validTime means
   * no write touches the password, even a non-empty one.
   */
  lemma UpdatePasswordWrites(
    userId: int, nickname: string, username: string, password: string, email: string,
    phone: string, validTime: string, remark: string, nowTime: string,
    firstHash: string, secondHash: string)
    ensures var calls := UpdateUserInfoCalls(userId, nickname, username, password, email, phone,
                                             validTime, remark, nowTime, firstHash, secondHash);
            && ((exists i :: 0 <= i < |calls| && calls[i].UpdateUserInfoByUserIdExcludeValidTime?)
                <==> IsEmpty(validTime) && !IsEmpty(password))
            && (IsEmpty(validTime) && !IsEmpty(password) ==>
                  && |calls| == 2
                  && calls[0].UpdateUserInfoByUserIdExcludeValidTime? && calls[0].password == firstHash
                  && calls[1].UpdateUserInfoByUserIdExcludeValidTime? && calls[1].password == secondHash)
            && (!IsEmpty(validTime) ==>
                  forall i :: 0 <= i < |calls| ==>
                    calls[i].UpdateUserInfoByUserIdExcludePassword? && calls[i].validTime == validTime)
  {
  }

  /** Two writes when exactly one of validTime and password is empty, one write otherwise. */
  lemma UpdateWriteCount(
    userId: int, nickname: string, username: string, password: string, email: string,
    phone: string, validTime: string, remark: string, nowTime: string,
    firstHash: string, secondHash: string)
    ensures |UpdateUserInfoCalls(userId, nickname, username, password, email, phone,
                                 validTime, remark, nowTime, firstHash, secondHash)|
         == if IsEmpty(validTime) != IsEmpty(password) then 2 else 1
  {
  }

  /** updateUserInfo. `nowTime` is the formatted clock reading. */
  method UpdateUserInfo(
    repo: AuthorityUserRepository, id: string, nickname: string, username: string,
    password: string, email: string, phone: string, validTime: string, remark: string,
    nowTime: string, firstHash: string, secondHash: string)
    requires repo.Valid()
    requires IsIntLiteral(id)
    modifies repo
    ensures repo.Valid()
    ensures repo.log == old(repo.log) + UpdateUserInfoCalls(ParseInt(id), nickname, username, password, email,
                                                            phone, validTime, remark, nowTime, firstHash, secondHash)
    ensures repo.userRoles == old(repo.userRoles)
  {
    var userId := ParseInt(id);
    if IsEmpty(validTime) {
      if IsEmpty(password) {
        repo.Execute(UpdateUserInfoByUserIdExcludeValidTimeAndPassword(userId, nickname, username, email, phone, nowTime, remark));
      } else {
        repo.Execute(UpdateUserInfoByUserIdExcludeValidTime(userId, nickname, username, firstHash, email, phone, nowTime, remark));
      }
    } else {
      repo.Execute(UpdateUserInfoByUserIdExcludePassword(userId, nickname, username, email, phone, validTime, nowTime, remark));
    }
    if IsEmpty(validTime) && !IsEmpty(password) {
      repo.Execute(UpdateUserInfoByUserIdExcludeValidTime(userId, nickname, username, secondHash, email, phone, nowTime, remark));
    } else if !IsEmpty(validTime) && IsEmpty(password) {
      repo.Execute(UpdateUserInfoByUserIdExcludePassword(userId, nickname, username, email, phone, validTime, nowTime, remark));
    }
  }

  /** usernameIsExistence: the name exists when exactly one user row has it. */
  function UsernameIsExistence(q: Queries, username: string): (r: bool)
    ensures r <==> q.findCountByUsername(username) == 1
    ensures q.findCountByUsername(username) >= 2 ==> !r
  {
    q.findCountByUsername(username) == 1
  }

  /** isNotExistenceOfUpdateUsername: the new name is free when no other row has it. */
  function IsNotExistenceOfUpdateUsername(q: Queries, id: string, username: string): (r: bool)
    requires IsIntLiteral(id)
    ensures r <==> q.isNotExistenceOfUpdateUsername(ParseInt(id), username) == 0
  {
    var userId := ParseInt(id);
    q.isNotExistenceOfUpdateUsername(userId, username) == 0
  }

  /** The arguments findAllUserInfo passes to the paged query and to the count query. */
  datatype UserPageQuery = UserPageQuery(row: int, size: int, usernameLike: string, nicknameLike: string)

  /** A SQL LIKE pattern that matches any value containing s. */
  function ContainsPattern(s: string): (r: string)
    ensures |r| == |s| + 2 && r[0] == '%' && r[|r| - 1] == '%' && r[1..|r| - 1] == s
  {
    "%" + s + "%"
  }

  /** The first row of a page, `(rowNum - 1) * size` in Java int arithmetic. */
  function PageOffset(rowNum: int, size: int): (r: int)
    ensures InInt(r)
    ensures InInt(rowNum - 1) && InInt((rowNum - 1) * size) ==> r == (rowNum - 1) * size
  {
    IntMul(IntSub(rowNum, 1), size)
  }

  /** findAllUserInfo, up to the query it issues. */
  function FindAllUserInfoQuery(pageNum: string, pageSize: string, username: string, nickname: string)
    : (r: UserPageQuery)
    requires IsIntLiteral(pageNum) && IsIntLiteral(pageSize)
    ensures r.size == ParseInt(pageSize) && InInt(r.row)
    ensures r.row == PageOffset(ParseInt(pageNum), ParseInt(pageSize))
    ensures r.usernameLike == ContainsPattern(username) && r.nicknameLike == ContainsPattern(nickname)
  {
    var rowNum := ParseInt(pageNum);
    var size := ParseInt(pageSize);
    UserPageQuery(PageOffset(rowNum, size), size, ContainsPattern(username), ContainsPattern(nickname))
  }

  /**
   * For a positive page number and a non-negative size whose offset fits an
   * int, the offset skips exactly the earlier pages; the first page starts at 0.
   */
  lemma PageOffsetExact(rowNum: int, size: int)
    requires InInt(rowNum) && InInt(size)
    requires 1 <= rowNum && 0 <= size && (rowNum - 1) * size <= INT_MAX
    ensures PageOffset(rowNum, size) == (rowNum - 1) * size
    ensures 0 <= PageOffset(rowNum, size)
    ensures rowNum == 1 ==> PageOffset(rowNum, size) == 0
  {
    assert 0 <= (rowNum - 1) * size;
  }

  /**
   * For int arguments the offset is the exact product precisely when that
   * product fits an int; otherwise it has wrapped around.
   */
  lemma PageOffsetLaw(rowNum: int, size: int)
    requires InInt(rowNum) && InInt(size)
    ensures PageOffset(rowNum, size) == (rowNum - 1) * size <==> InInt((rowNum - 1) * size)
  {
    if InInt((rowNum - 1) * size) && !InInt(rowNum - 1) {
      assert rowNum == INT_MIN && size == 0;
      assert IntSub(rowNum, 1) * size == 0;
    }
  }

  /** Past the int range the offset wraps around to a negative row. */
  lemma PageOffsetWraps()
    ensures PageOffset(65537, 32768) == INT_MIN
  {
    assert (65537 - 1) * 32768 == 0x8000_0000;
  }
}
