/**
 * ManyUserRolesRealm: the cached role query built at start-up and the role
 * lookup run for every authenticated user.  JDBC is abstracted as a
 * connection that answers a statement with the rows it delivered and the
 * step, if any, at which it raised an SQLException.
 */
module ManyUserRolesRealm {
  import opened Wrappers
  import opened JavaLang
  import opened RealmConfig
  import opened RoleQuery
  import opened RoleRows

  /** The realm's state: its configuration and the role query text, which is
      null until the realm has been started. */
  datatype Realm = Realm(config: Config, preparedRoles: Option<string>)

  /** A freshly configured realm, not yet started. */
  function NewRealm(cfg: Config): (realm: Realm)
    ensures realm.config == cfg && realm.preparedRoles.None?
  {
    Realm(cfg, None)
  }

  /** startInternal: compose the role query once and keep it. */
  function StartInternal(realm: Realm): (started: Realm)
    ensures started.config == realm.config
    ensures started.preparedRoles.Some?
  {
    realm.(preparedRoles := Some(ComposeQuery(realm.config)))
  }

  /** Starting an already started realm leaves the cached query as it was. */
  lemma StartInternalIdempotent(realm: Realm)
    ensures StartInternal(StartInternal(realm)) == StartInternal(realm)
  {
  }

  /** A prepared statement: its SQL text (null when the realm was never
      started) and its parameters, parameter 1 first. */
  datatype Statement = Statement(sql: Option<string>, parameters: seq<Option<string>>)

  /** The JDBC call that raised an SQLException. */
  datatype SqlFailure = PrepareStatement | SetString | ExecuteQuery | Next | GetString | Close {
    /** Whether the failure came before a result set was opened. */
    predicate BeforeResultSet() {
      PrepareStatement? || SetString? || ExecuteQuery?
    }
  }

  /** What the database did with a statement: the first column of every row
      it delivered, in order, and the failure, if any, after those rows. */
  datatype Execution = Execution(rows: seq<Option<string>>, failure: Option<SqlFailure>)

  /** The database behind the connection passed to getRoles. */
  type Connection = Statement -> Execution

  /** The statement getRoles issues for `username`, or None when the lookup
      is skipped and the connection is not used at all. */
  function RoleStatement(realm: Realm, username: Option<string>): (st: Option<Statement>)
    ensures st.None? <==> SkipsLookup(realm.config)
    ensures st.Some? ==> st.value.sql == realm.preparedRoles && st.value.parameters == [username]
  {
    if SkipsLookup(realm.config) then None
    else Some(Statement(realm.preparedRoles, [username]))
  }

  /** In strict mode the query is always issued, role store or not. */
  lemma StrictModeAlwaysQueries(realm: Realm, username: Option<string>)
    requires realm.config.allRolesMode == StrictMode
    ensures RoleStatement(realm, username).Some?
  {
  }

  /** The SQL text never depends on the user name, which is bound only as
      parameter 1; on a started realm it is the composed role query. */
  lemma UsernameOnlyBound(realm: Realm, u1: Option<string>, u2: Option<string>)
    requires !SkipsLookup(realm.config)
    ensures RoleStatement(realm, u1).value.sql == RoleStatement(realm, u2).value.sql
    ensures RoleStatement(StartInternal(realm), u1).value.sql == Some(ComposeQuery(realm.config))
    ensures RoleStatement(realm, u1).value.parameters == [u1]
  {
  }

  /** getRoles: the trimmed non-null rows of the role query, or None when the
      lookup is skipped or any SQLException is raised on the way. */
  method GetRoles(realm: Realm, db: Connection, username: Option<string>)
    returns (roles: Option<seq<string>>)
    ensures SkipsLookup(realm.config) ==> roles.None?
    ensures !SkipsLookup(realm.config) ==>
              var e := db(RoleStatement(realm, username).value);
              && (roles.None? <==> e.failure.Some?)
              && (roles.Some? ==> roles.value == Normalize(e.rows))
    ensures roles.Some? ==>
              var e := db(RoleStatement(realm, username).value);
              |roles.value| == |NonNullBefore(e.rows, |e.rows|)|
  {
    roles := None;
    var st := RoleStatement(realm, username);
    if st.None? {
      return;
    }
    var result := db(st.value);
    if result.failure.Some? && result.failure.value.BeforeResultSet() {
      return;
    }
    var list: seq<string> := [];
    var i := 0;
    while i < |result.rows|
      invariant i <= |result.rows|
      invariant list == RolesBefore(result.rows, i)
    {
      var role := result.rows[i];
      if role.Some? {
        list := list + [Trim(role.value)];
      }
      i := i + 1;
    }
    if result.failure.Some? {
      // raised by next, getString or a close: the partial list is dropped
      return;
    }
    RolesCountNonNullRows(result.rows, |result.rows|);
    roles := Some(list);
  }

  /** Rows "admin ", null, "user" give the roles "admin" and "user". */
  lemma MixedRowsExample()
    ensures Normalize([Some("admin "), None, Some("user")]) == ["admin", "user"]
  {
    assert "admin "[0..5] == "admin";
    TrimUnique("admin ", 0, 5);
    TrimFixesExactlyTrimmed("user");
  }
}
