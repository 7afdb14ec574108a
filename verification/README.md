# ManyUserRolesRealm role lookup, modelled in Dafny

`ManyUserRolesRealm` is a Tomcat JDBC realm for schemas that store role
membership as a many-to-many relation: a user table, a user-role junction
table and a role-enumeration table. This project models its two pieces of
logic:

- **Query composition** (`startInternal`). At start-up the realm appends fixed
  SQL fragments and nine configured identifiers into one three-table join. The
  user name is the join's only placeholder. Identifiers are nullable Java
  Strings (`Option<string>`). `StringBuilder.append` writes an unset one as the
  text `null`.
- **Role resolution** (`getRoles`, `isRoleStoreDefined`).
  - A lookup is skipped when the all-roles mode is not strict and no role store
    is configured.
  - Otherwise the cached query runs with the user name bound as parameter 1.
  - Null rows are dropped. Every other row is trimmed as `java.lang.String.trim`
    does, removing characters up to U+0020 at both ends. Row order is kept.
  - Any SQLException gives `None` (Java `null`), and rows already read are
    discarded.

JDBC is abstracted. A `Connection` is a function from a `Statement` (SQL text
plus parameters) to an `Execution`. An `Execution` holds the rows delivered and
the JDBC call, if any, that raised an SQLException after them.

Files:

- `wrappers.dfy`: `Option`.
- `java_lang.dfy`: `String.trim` and how a null String is appended.
- `realm_config.dfy`: the configuration record and the skip rule.
- `role_query.dfy`: the query text.
- `role_rows.dfy`: row normalisation.
- `realm.dfy`: the realm's state and `GetRoles`.

Notes on the code:

- The query uses nine identifiers, including `userNameCol` in the `WHERE` clause (line 180).
- The user-table side of the first join is `columnInUserReferencedInUserRole` (line 170).
- Roles are not deduplicated (line 130).
- SQLExceptions from row iteration and from closing the statement or result
  set are also caught and give `null` (line 135).

## Model

| member | source | states |
|---|---|---|
| RoleQuery.ComposeQuery | src/main/java/org/apache/catalina/realm/ManyUserRolesRealm.java:163-182 | The query is exactly the ten fixed fragments with the nine identifiers between them, in the order roleNameCol, userTable, userRoleTable, columnInUserReferencedInUserRole, referrencingColumnInUserRoleToUserTable, roleEnumTable, referrencingColumnInUserRoleToRoleEnumTable, columnInRoleEnumReferredInUserRole, userNameCol. |
| JavaLang.StringValueOf | src/main/java/org/apache/catalina/realm/ManyUserRolesRealm.java:164-180 | Appending an identifier writes its text, or the four characters `null` when it is unset. |
| RoleQuery.QueryShape | src/main/java/org/apache/catalina/realm/ManyUserRolesRealm.java:163-181 | The query starts with `SELECT c.` and ends with ` = ?`. |
| RoleQuery.PlaceholderCount | src/main/java/org/apache/catalina/realm/ManyUserRolesRealm.java:163-181 | The number of `?` in the query is one plus the number of `?` inside the identifiers. |
| RoleQuery.SinglePlaceholder | src/main/java/org/apache/catalina/realm/ManyUserRolesRealm.java:163-181 | The query has exactly one `?` if and only if no set identifier contains `?`. |
| RoleQuery.InterleaveSuffix | src/main/java/org/apache/catalina/realm/ManyUserRolesRealm.java:179-181 | The appended text ends with the last fixed fragment, whatever the identifiers are. |
| ManyUserRolesRealm.StartInternalIdempotent | src/main/java/org/apache/catalina/realm/ManyUserRolesRealm.java:159-183 | Starting the realm again leaves the cached query unchanged. |
| ManyUserRolesRealm.RoleStatement | src/main/java/org/apache/catalina/realm/ManyUserRolesRealm.java:113-145 | No statement is issued exactly when `RealmConfig.SkipsLookup` holds: the mode is not strict and `RealmConfig.IsRoleStoreDefined` is false, i.e. neither userRoleTable nor roleNameCol is set. Otherwise the statement is the cached query with the user name as its only parameter. |
| ManyUserRolesRealm.StrictModeAlwaysQueries | src/main/java/org/apache/catalina/realm/ManyUserRolesRealm.java:143-145 | Role-store presence only matters outside strict mode. In strict mode the query is issued even with neither userRoleTable nor roleNameCol set. |
| ManyUserRolesRealm.UsernameOnlyBound | src/main/java/org/apache/catalina/realm/ManyUserRolesRealm.java:121-122 | The SQL text is the same for every user name. On a started realm it is the composed query. The user name appears only as parameter 1. |
| ManyUserRolesRealm.GetRoles | src/main/java/org/apache/catalina/realm/ManyUserRolesRealm.java:111-140 | A skipped lookup gives None for any connection. Otherwise the result is None exactly when an SQLException was raised, which discards rows already read. Else it is the normalised rows, with one role per non-null row; an empty result set gives an empty list. |
| ManyUserRolesRealm.MixedRowsExample | src/main/java/org/apache/catalina/realm/ManyUserRolesRealm.java:127-132 | Rows `"admin "`, null, `"user"` give `["admin", "user"]`. |
| RoleRows.Normalize | src/main/java/org/apache/catalina/realm/ManyUserRolesRealm.java:129-130 | No returned role starts or ends with a character up to U+0020. |
| RoleRows.RolesSelectPresentRows | src/main/java/org/apache/catalina/realm/ManyUserRolesRealm.java:127-132 | The k-th role is the trimmed text of the k-th non-null row. Non-null rows are enumerated in increasing row order, each exactly once. |
| RoleRows.PresentBeforeComplete | src/main/java/org/apache/catalina/realm/ManyUserRolesRealm.java:127-131 | Every non-null row position is among the enumerated positions, so together with RolesSelectPresentRows every non-null row yields exactly one role. |
| RoleRows.RolesCountNonNullRows | src/main/java/org/apache/catalina/realm/ManyUserRolesRealm.java:127-132 | The number of roles equals the number of non-null rows. |
| RoleRows.NormalizeAppend | src/main/java/org/apache/catalina/realm/ManyUserRolesRealm.java:127-132 | Normalising two batches of rows one after the other gives the concatenation of their role lists. |
| RoleRows.BlankRowKept | src/main/java/org/apache/catalina/realm/ManyUserRolesRealm.java:129-130 | A non-null row j of only characters up to U+0020 is kept: the role at row j's position among the non-null rows is the empty string. |
| RoleRows.NormalizeIdempotent | src/main/java/org/apache/catalina/realm/ManyUserRolesRealm.java:129-130 | Normalising the returned roles again changes nothing. |
| JavaLang.Trim | src/main/java/org/apache/catalina/realm/ManyUserRolesRealm.java:130 | A trimmed role neither starts nor ends with a character up to U+0020. It is empty exactly when every character of the row is up to U+0020. |
| JavaLang.TrimUnique | src/main/java/org/apache/catalina/realm/ManyUserRolesRealm.java:130 | Trim removes only characters up to U+0020 from the two ends. Any cut that does so and leaves a trimmed slice yields exactly Trim's result. |
| JavaLang.TrimFixesExactlyTrimmed | src/main/java/org/apache/catalina/realm/ManyUserRolesRealm.java:130 | Trim leaves a string unchanged if and only if the string is already trimmed. |
| JavaLang.TrimIdempotent | src/main/java/org/apache/catalina/realm/ManyUserRolesRealm.java:130 | Trimming twice gives the same result as trimming once. |

## Left out

- JNDI and DataSource plumbing: `Connection`, `PreparedStatement` and `ResultSet` are foreign library calls. An abstract `Connection` function returning an `Execution` replaces them.
- The SQL meaning of the join: no database is modelled, only the query text.
- The error logging of line 136 and message lookup: they are I/O with no effect on the result.
- `super.startInternal()` and the rest of the DataSourceRealm and RealmBase lifecycle: that code is not part of this model. Start-up is assumed to succeed.
- Closing the statement and result set: only its failure is modelled. A close failure is an `Execution` failure and yields None.
- Runtime exceptions from the driver, such as an unstarted realm preparing a null SQL text: the source does not catch them. The model passes the null text to the connection as `None` and takes whatever `Execution` it returns.
- The visibility of the `preparedRoles` field across threads: the model treats the realm as an immutable value.
- Java's UTF-16 code units: a string here is a sequence of Unicode scalar values. Trimming compares against U+0020, and no surrogate half is at or below U+0020, so the trimmed result is the same.
- The getters and setters of lines 64-100: they appear only as the fields of the configuration record.
- ManyUserRolesRealm.StartInternal: its contract says only that the query is set and the configuration kept. The properties of the query text are in the RoleQuery lemmas.
