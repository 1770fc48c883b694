# Role-based URL security and user administration, modelled in Dafny

This project models the core of a Spring Boot / Spring Security back end that
guards REST URLs by role and serves a per-user menu tree. It has two parts.

- **Role lookup for a request.** A security metadata source runs on every
  request. It scans the stored menu URL patterns, collects the role each
  matching pattern requires, and falls back to `ROLE_LOGIN` (any
  authenticated user) when no pattern matches.
- **User service.** It builds the menu tree shown to a user after login.
  For a user granted the blanket pattern `/**` this is every root menu with
  all its children. Otherwise it is the user's fully granted roots with all
  their children, followed by the partially granted roots with only the
  children the user is granted. The service also turns the administration
  requests into repository writes: assigning roles, deleting users and
  updating a user. These requests carry comma-separated id lists that are
  parsed with `String.split` and `Integer.parseInt`. The paging arguments of
  the user list are computed in Java `int` arithmetic.

Modules:

- `Wrappers`: `Option` and `Result`.
- `JavaLang`: the Java semantics the service depends on.
  - 32-bit `int` wrap-around.
  - `String.split` with a one-character separator. Trailing empty pieces
    are dropped, and `""` splits to `[""]`.
  - `Integer.parseInt` over ASCII decimal numerals with an optional sign,
    and `Integer.toString` as its right inverse: parsing what toString
    writes gives the int back. The reverse does not hold: "+7" and "007"
    parse to ints that toString writes differently.
- `Repository`:
  - `Queries` is a snapshot of the answers of the repository's read
    queries.
  - `AuthorityUserRepository` is a class. It records every write in a call
    log and keeps the user-role join table. Its invariant is that the table
    equals the initial table with the log replayed over it.
- `MetadataSource`:
  - `GetAttributes` is a loop over the stored patterns, proved against the
    set function `RequiredAttributes`.
  - The Ant path matcher is a parameter `matches(pattern, path)`.
- `UserService`:
  - `FindMenuInfoByUsername` is proved against the function `MenuInfo`. It
    has three `forEach` loops. The first two build root entries with all
    their children and share `AppendEntriesWithAllChildren`, which is proved
    against `EntriesWithAllChildren`. The third is
    `AppendEntriesWithUserChildren`, proved against
    `EntriesWithUserChildren`.
  - The write operations are methods of the `UserService` module that take
    the repository object as a parameter and modify it. Each is proved
    against a function giving the exact list of writes, and against the
    resulting user-role table.

A Java `null` that the code dereferences becomes an error result: an unknown
user name gives `UserNotFound`, and a partially granted root id without a
menu row gives `MenuNotFound`. Java would throw a `NullPointerException` in
both cases.

Where the two declarations disagree, the role lookup follows its caller.
`UserService.findRoleNameByMenuUrl`
(src/main/java/com/nonce/restsecurity/service/UserService.java:128) is
declared to return `List<String>`. Its caller at
src/main/java/com/nonce/restsecurity/config/SelfFilterInvocationSecurityMetadataSource.java:39
stores the answer in a `String`. The model gives each URL exactly one role
name.

## Model

| member | source | states |
|---|---|---|
| MetadataSource.GetAttributes | src/main/java/com/nonce/restsecurity/config/SelfFilterInvocationSecurityMetadataSource.java:31-48 | The returned set is the set of roles of the stored patterns that match the request URL (pattern given first to the matcher), or exactly {ROLE_LOGIN} when none matches |
| MetadataSource.MatchedRolesSnoc | src/main/java/com/nonce/restsecurity/config/SelfFilterInvocationSecurityMetadataSource.java:37-43 | Scanning one more pattern adds that pattern's role to the set exactly when the pattern matches, and nothing else |
| MetadataSource.GetAllConfigAttributes | src/main/java/com/nonce/restsecurity/config/SelfFilterInvocationSecurityMetadataSource.java:50-53 | No collection of all attributes is offered (Java returns null) |
| MetadataSource.MatchContributes | src/main/java/com/nonce/restsecurity/config/SelfFilterInvocationSecurityMetadataSource.java:38-41 | The role of every stored pattern that matches is in the result |
| MetadataSource.FallbackIffNoMatch | src/main/java/com/nonce/restsecurity/config/SelfFilterInvocationSecurityMetadataSource.java:44-46 | The collected set is empty exactly when no stored pattern matches (an empty pattern list included), and then the result is {ROLE_LOGIN} |
| MetadataSource.OnlyMatchedRoles | src/main/java/com/nonce/restsecurity/config/SelfFilterInvocationSecurityMetadataSource.java:37-47 | When some pattern matches, an attribute is in the result if and only if it is the role of some matching pattern |
| MetadataSource.NeverEmpty | src/main/java/com/nonce/restsecurity/config/SelfFilterInvocationSecurityMetadataSource.java:44-47 | The result is never empty |
| MetadataSource.MatchedRolesBound | src/main/java/com/nonce/restsecurity/config/SelfFilterInvocationSecurityMetadataSource.java:33-43 | The set has at most as many attributes as there are matching patterns |
| MetadataSource.SameRoleOnce | src/main/java/com/nonce/restsecurity/config/SelfFilterInvocationSecurityMetadataSource.java:40-41 | Two matching patterns that need the same role yield that role once, since SecurityConfig compares by role name |
| MetadataSource.CollectedRoleAgain | src/main/java/com/nonce/restsecurity/config/SelfFilterInvocationSecurityMetadataSource.java:38-41 | For any pattern list, a further matching pattern whose role is already collected leaves the collected set and the result unchanged |
| MetadataSource.OrderIndependent | src/main/java/com/nonce/restsecurity/config/SelfFilterInvocationSecurityMetadataSource.java:36-43 | Two pattern lists with the same elements, in any order and with any repetition, give the same attributes |
| Repository.AuthorityUserRepository.Execute | src/main/java/com/nonce/restsecurity/service/UserService.java:176-178 | A write is appended to the call log. The user-role table changes as that write does: deleteRolesByUserId removes the user's pairs, addRoleForUser adds one pair, and the other writes leave the table as it is. The table stays the replay of the log |
| JavaLang.WrapInt | src/main/java/com/nonce/restsecurity/service/UserService.java:213 | The result is a Java int congruent to the exact value modulo 2^32, and equal to it when that value fits an int |
| JavaLang.Split | src/main/java/com/nonce/restsecurity/service/UserService.java:162 | No piece of the split contains the separator |
| JavaLang.DropTrailingEmpty | src/main/java/com/nonce/restsecurity/service/UserService.java:162 | The kept pieces are a prefix whose last piece is non-empty, and every dropped piece is empty |
| JavaLang.JoinPieces | src/main/java/com/nonce/restsecurity/service/UserService.java:173 | Joining the pieces of a string with the separator gives the string back |
| JavaLang.SplitJoin | src/main/java/com/nonce/restsecurity/service/UserService.java:173 | Splitting a join of separator-free items whose last item is non-empty gives exactly those items |
| JavaLang.ParseInt | src/main/java/com/nonce/restsecurity/service/UserService.java:159 | The parsed value is a Java int, and it is negative only when the text starts with a minus sign |
| JavaLang.ParseIntToString | src/main/java/com/nonce/restsecurity/service/UserService.java:164 | For every int, parseInt accepts the decimal form that toString writes and returns the same int |
| UserService.IsHighestAuthority | src/main/java/com/nonce/restsecurity/service/UserService.java:56-57 | The user is of highest authority if and only if some URL granted to it is exactly "/**" |
| UserService.EntriesWithAllChildren | src/main/java/com/nonce/restsecurity/service/UserService.java:60-72 | One menu entry per root |
| UserService.AppendEntriesWithAllChildren | src/main/java/com/nonce/restsecurity/service/UserService.java:60-72 | The forEach loop appends, in order, one entry per root holding the root's columns and every stored child of it |
| UserService.AppendEntriesWithUserChildren | src/main/java/com/nonce/restsecurity/service/UserService.java:92-104 | The forEach loop appends one entry per partially granted id, with that id's menu row and the children granted to the user. It fails with MenuNotFound at the first id that has no menu row |
| UserService.EntriesWithUserChildrenFails | src/main/java/com/nonce/restsecurity/service/UserService.java:92-104 | Once an id without a menu row is reached, later ids do not change the outcome |
| UserService.FindMenuInfoByUsername | src/main/java/com/nonce/restsecurity/service/UserService.java:48-116 | Returns MenuInfo. response.total becomes the menu list's length when that list is non-empty, and is left unchanged otherwise |
| UserService.EntriesWithAllChildrenAt | src/main/java/com/nonce/restsecurity/service/UserService.java:60-72 | Entry i belongs to root i, under root i's own id, with root i's stored children |
| UserService.EntriesWithUserChildrenSpec | src/main/java/com/nonce/restsecurity/service/UserService.java:92-104 | The partial branch succeeds if and only if every id has a menu row. It then has one entry per id, in order, with the user's granted children |
| UserService.HighestAuthorityMenu | src/main/java/com/nonce/restsecurity/service/UserService.java:56-72 | A user holding "/**" sees every root menu, in order, each with all its stored children |
| UserService.EntriesWithAllChildrenFrame | src/main/java/com/nonce/restsecurity/service/UserService.java:62 | The entries built for a list of roots depend only on the children query |
| UserService.HighestAuthorityIgnoresGrants | src/main/java/com/nonce/restsecurity/service/UserService.java:58-72 | A "/**" user's menu does not depend on the user's individual root or child grants |
| UserService.PartialAuthorityMenu | src/main/java/com/nonce/restsecurity/service/UserService.java:73-105 | For any other user whose partial ids all have menu rows, the menu is the granted roots with all their children, followed by the partially granted roots with only the user's children, in order |
| UserService.DuplicateRootsKept | src/main/java/com/nonce/restsecurity/service/UserService.java:74-104 | A root that is both fully and partially granted appears twice in the menu: it is not deduplicated |
| UserService.MenuInfoOutcome | src/main/java/com/nonce/restsecurity/service/UserService.java:49-111 | An unknown user gives UserNotFound. The call fails exactly when the user is unknown, or is not a "/**" user and some partial id has no menu row. On success the result carries the profile's nickname, id and remark, the username and the menu list |
| UserService.IdListRoundTrip | src/main/java/com/nonce/restsecurity/service/UserService.java:162-164 | The comma-joined decimal form of a non-empty list of int ids is a valid id list, and it parses back to exactly those ids in order |
| UserService.AddRoleCallsAt | src/main/java/com/nonce/restsecurity/service/UserService.java:163-165 | The k-th role insert is for the k-th role id |
| UserService.AssignRolesOrder | src/main/java/com/nonce/restsecurity/service/UserService.java:158-166 | The writes of addRolesForUser are one deletion of the user's roles, followed by one insert per role id in list order with the same creation time |
| UserService.ReplayAddRoleCalls | src/main/java/com/nonce/restsecurity/service/UserService.java:163-165 | The inserts add exactly the pairs (user, role id) and nothing else |
| UserService.AssignRolesResult | src/main/java/com/nonce/restsecurity/service/UserService.java:158-166 | Afterwards the user holds a role if and only if its id is in the list. Every other user holds exactly the roles it held before |
| UserService.AssignedRolesIdempotent | src/main/java/com/nonce/restsecurity/service/UserService.java:158-166 | Assigning the same list twice gives the table that assigning it once gives. The result does not depend on the user's previous roles |
| UserService.AddRoleForEach | src/main/java/com/nonce/restsecurity/service/UserService.java:163-166 | The loop logs one addRoleForUser per piece, in order, with the parsed role id |
| UserService.AddRolesForUser | src/main/java/com/nonce/restsecurity/service/UserService.java:158-167 | The log grows by the deletion followed by the inserts, and the user-role table becomes the listed assignment |
| UserService.DeleteUserCalls | src/main/java/com/nonce/restsecurity/service/UserService.java:174-179 | Exactly three writes per user id |
| UserService.DeleteUserCallsAt | src/main/java/com/nonce/restsecurity/service/UserService.java:174-179 | For the k-th id, its roles, its user row and its collections are deleted at positions 3k, 3k+1 and 3k+2 |
| UserService.DeleteUsersRoles | src/main/java/com/nonce/restsecurity/service/UserService.java:172-180 | After the deletions no listed user holds a role, and every other user's roles are untouched |
| UserService.DeleteEach | src/main/java/com/nonce/restsecurity/service/UserService.java:174-179 | The loop logs the three deletions for each piece, in order |
| UserService.DeleteUserInfo | src/main/java/com/nonce/restsecurity/service/UserService.java:172-180 | The log grows by the deletions, and the table loses exactly the listed users' pairs |
| UserService.UpdatePasswordWrites | src/main/java/com/nonce/restsecurity/service/UserService.java:185-205 | A password is written if and only if validTime is empty and password is not. It is then written twice, with the two encodings in order. With a validTime every write keeps the password and sets that validTime |
| UserService.UpdateWriteCount | src/main/java/com/nonce/restsecurity/service/UserService.java:188-204 | Two writes when exactly one of validTime and password is empty, otherwise one |
| UserService.UpdateUserInfo | src/main/java/com/nonce/restsecurity/service/UserService.java:185-205 | The log grows by exactly the writes of the branch taken. The user-role table is unchanged |
| UserService.UsernameIsExistence | src/main/java/com/nonce/restsecurity/service/UserService.java:135-138 | The name counts as taken if and only if exactly one row has it. Two or more rows count as not taken |
| UserService.IsNotExistenceOfUpdateUsername | src/main/java/com/nonce/restsecurity/service/UserService.java:246-250 | The new name is free if and only if the count query, run for the parsed id, returns 0 |
| UserService.ContainsPattern | src/main/java/com/nonce/restsecurity/service/UserService.java:214-215 | The LIKE pattern is the value wrapped in one '%' on each side |
| UserService.FindAllUserInfoQuery | src/main/java/com/nonce/restsecurity/service/UserService.java:210-218 | The paged query gets the parsed page size, the offset PageOffset(parsed page number, parsed page size), which is always an int, and contains-patterns built from both names |
| UserService.PageOffset | src/main/java/com/nonce/restsecurity/service/UserService.java:213 | `(rowNum - 1) * size` in Java int arithmetic: always an int, and equal to the exact product when rowNum - 1 and the product fit an int |
| UserService.PageOffsetLaw | src/main/java/com/nonce/restsecurity/service/UserService.java:213 | For int arguments the offset equals the exact product (rowNum - 1) * size if and only if that product fits an int |
| UserService.PageOffsetExact | src/main/java/com/nonce/restsecurity/service/UserService.java:213 | For a positive page number, a non-negative size and an offset that fits an int, the offset is (pageNum - 1) * pageSize. It is non-negative, and 0 on the first page |
| UserService.PageOffsetWraps | src/main/java/com/nonce/restsecurity/service/UserService.java:213 | The offset wraps around: page 65537 of size 32768 gives offset -2^31 |

## Left out

- The Ant path matcher's glob rules: `AntPathMatcher.match` is a parameter of `GetAttributes`, called with the pattern first.
- `supports`: a class-hierarchy test on `FilterInvocation`, outside the data model.
- `SecurityConfig` rejects a blank role name with an assertion. The model accepts any role string.
- `SecurityConfig.createList` returns a list and the main path returns a `HashSet`. Both are modelled as a set; the fallback list holds one element.
- The SQL behind the repository. Read queries are opaque answers in `Queries`. Writes are recorded in the call log, and only their effect on the user-role join table is modelled. The user, collection and menu tables are not.
- `findAllMenuUrl` and `findRoleNameByMenuUrl` in the service pass repository answers through unchanged, so they are fields of `Queries`.
- `findPasswordByUsernameAfterValidTime` and `addUserInfo` are outside the modelled core. The first reads the clock. The second reads the clock, calls BCrypt and adds a default validity of 7 days.
- `findRoleNameByUsername` is outside the modelled core: it passes a repository answer through unchanged.
- Duplicate role inserts are modelled as harmless. The table is a set, so the list "1,1" logs two inserts but leaves one row. The real table's key is not part of this model: a second insert of the same pair might fail and roll the transaction back.
- The clock: `nowTime` is the formatted time, given as a parameter.
- `new BCryptPasswordEncoder().encode` is salted at random, so its two results in `updateUserInfo` are the parameters `firstHash` and `secondHash`.
- Null strings. `ObjectUtils.isEmpty` on a string is modelled as length 0. Java's `"%" + null + "%"` and a null id list are not modelled.
- UserService.AddRolesForUser: requires that the user id and every piece of the list are decimal int literals. A malformed piece makes Java throw `NumberFormatException` after the earlier writes, and that partial run is not modelled.
- UserService.DeleteUserInfo: requires a well-formed id list, for the same reason.
- UserService.UpdateUserInfo: requires a well-formed id, for the same reason.
- UserService.FindAllUserInfoQuery: requires well-formed page numbers. It models only the query arguments: the row assembly, the role lookups, the size query and the `SecurityResponse` setters are not modelled.
- `Integer.parseInt` is modelled over ASCII digits only. Java also accepts other Unicode decimal digits.
- `@Transactional` rollback, dependency injection and the `System.out.println` in `findAllUserInfo` are not modelled.
- The menu map's key order and the types of its values (`HashMap`) are replaced by the `MenuEntry` and `UserInfo` datatypes.
