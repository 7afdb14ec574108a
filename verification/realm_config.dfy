/**
 * The realm's configuration: the nine table and column names it joins over
 * (four inherited from DataSourceRealm, five of its own) and the all-roles
 * mode inherited from RealmBase.  Every name is a nullable Java String.
 */
module RealmConfig {
  import opened Wrappers

  /** RealmBase.AllRolesMode: only `StrictMode` forces a role lookup when no
      role store is configured. */
  datatype AllRolesMode = StrictMode | AuthOnlyMode | StrictAuthOnlyMode

  datatype Config = Config(
    userTable: Option<string>,
    userNameCol: Option<string>,
    userRoleTable: Option<string>,
    roleNameCol: Option<string>,
    columnInUserReferencedInUserRole: Option<string>,
    referrencingColumnInUserRoleToUserTable: Option<string>,
    roleEnumTable: Option<string>,
    columnInRoleEnumReferredInUserRole: Option<string>,
    referrencingColumnInUserRoleToRoleEnumTable: Option<string>,
    allRolesMode: AllRolesMode)

  /** A role store counts as defined when either the user-role table or the
      role-name column has been set. */
  predicate IsRoleStoreDefined(cfg: Config) {
    cfg.userRoleTable.Some? || cfg.roleNameCol.Some?
  }

  /** The guard at the top of getRoles: a non-strict mode with no role store
      skips the lookup altogether. */
  predicate SkipsLookup(cfg: Config) {
    cfg.allRolesMode != StrictMode && !IsRoleStoreDefined(cfg)
  }
}
