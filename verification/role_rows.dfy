/**
 * What getRoles makes of the rows a successful query returns: null rows are
 * dropped, every other row is trimmed, and the order is kept.  The functions
 * take the number `n` of rows read so far, as the result-set loop does.
 */
module RoleRows {
  import opened Wrappers
  import opened JavaLang

  /** The positions of the non-null rows among the first `n`, in increasing order. */
  function PresentBefore(rows: seq<Option<string>>, n: nat): (idx: seq<nat>)
    requires n <= |rows|
    ensures forall k :: 0 <= k < |idx| ==> idx[k] < n && rows[idx[k]].Some?
    ensures forall k, l :: 0 <= k < l < |idx| ==> idx[k] < idx[l]
  {
    if n == 0 then []
    else PresentBefore(rows, n - 1) + (if rows[n - 1].Some? then [n - 1] else [])
  }

  /** Every non-null row among the first `n` is listed by PresentBefore. */
  lemma {:induction false} PresentBeforeComplete(rows: seq<Option<string>>, n: nat, j: nat)
    requires n <= |rows|
    requires j < n && rows[j].Some?
    ensures j in PresentBefore(rows, n)
  {
    if j < n - 1 {
      PresentBeforeComplete(rows, n - 1, j);
    }
  }

  /** The positions of the non-null rows among the first `n`, as a set. */
  function NonNullBefore(rows: seq<Option<string>>, n: nat): set<nat>
    requires n <= |rows|
  {
    set j: nat | j < n && rows[j].Some?
  }

  /** The role list after reading the first `n` rows: a null row contributes
      nothing, any other row its trimmed text. */
  function RolesBefore(rows: seq<Option<string>>, n: nat): (roles: seq<string>)
    requires n <= |rows|
    ensures |roles| <= n
  {
    if n == 0 then [] else RolesBefore(rows, n - 1) + RowRoles(rows[n - 1])
  }

  /** What one row adds to the role list. */
  function RowRoles(row: Option<string>): (roles: seq<string>)
    ensures |roles| == if row.Some? then 1 else 0
  {
    match row
    case Some(role) => [Trim(role)]
    case None => []
  }

  /** The roles are the trimmed non-null rows, one for one and in row order. */
  lemma {:induction false} RolesSelectPresentRows(rows: seq<Option<string>>, n: nat)
    requires n <= |rows|
    ensures |RolesBefore(rows, n)| == |PresentBefore(rows, n)|
    ensures forall k :: 0 <= k < |RolesBefore(rows, n)| ==>
              RolesBefore(rows, n)[k] == Trim(rows[PresentBefore(rows, n)[k]].value)
  {
    if n > 0 {
      RolesSelectPresentRows(rows, n - 1);
      var front := RolesBefore(rows, n - 1);
      var idx := PresentBefore(rows, n - 1);
      var roles := RolesBefore(rows, n);
      var present := PresentBefore(rows, n);
      assert roles == front + RowRoles(rows[n - 1]);
      assert present == idx + (if rows[n - 1].Some? then [n - 1] else []);
      forall k | 0 <= k < |roles|
        ensures roles[k] == Trim(rows[present[k]].value)
      {
        if k < |front| {
          assert roles[k] == front[k] && present[k] == idx[k];
        } else {
          assert roles[k] == Trim(rows[n - 1].value) && present[k] == n - 1;
        }
      }
    }
  }

  /** The role list of a whole result set: no role starts or ends with a
      character up to U+0020. */
  function Normalize(rows: seq<Option<string>>): (roles: seq<string>)
    ensures forall k :: 0 <= k < |roles| ==> Trimmed(roles[k])
  {
    RolesSelectPresentRows(rows, |rows|);
    RolesBefore(rows, |rows|)
  }

  /** The number of roles is the number of non-null rows. */
  lemma {:induction false} RolesCountNonNullRows(rows: seq<Option<string>>, n: nat)
    requires n <= |rows|
    ensures |RolesBefore(rows, n)| == |NonNullBefore(rows, n)|
  {
    if n > 0 {
      RolesCountNonNullRows(rows, n - 1);
      NonNullStep(rows, n);
      assert |RolesBefore(rows, n)| == |RolesBefore(rows, n - 1)| + |RowRoles(rows[n - 1])|;
    }
  }

  /** Reading row `n - 1` adds its position to the non-null set exactly when it is non-null. */
  lemma NonNullStep(rows: seq<Option<string>>, n: nat)
    requires 0 < n <= |rows|
    ensures |NonNullBefore(rows, n)|
         == |NonNullBefore(rows, n - 1)| + (if rows[n - 1].Some? then 1 else 0)
  {
    var before := NonNullBefore(rows, n - 1);
    assert n - 1 !in before;
    if rows[n - 1].Some? {
      assert NonNullBefore(rows, n) == before + {n - 1};
    } else {
      assert NonNullBefore(rows, n) == before;
    }
  }

  /** Rows beyond the first `n` do not affect the roles read from those `n`. */
  lemma {:induction false} RolesBeforeIgnoresLaterRows(a: seq<Option<string>>, b: seq<Option<string>>, n: nat)
    requires n <= |a|
    ensures RolesBefore(a + b, n) == RolesBefore(a, n)
  {
    if n > 0 {
      RolesBeforeIgnoresLaterRows(a, b, n - 1);
      assert (a + b)[n - 1] == a[n - 1];
    }
  }

  lemma {:induction false} RolesBeforeAppend(a: seq<Option<string>>, b: seq<Option<string>>, m: nat)
    requires m <= |b|
    ensures RolesBefore(a + b, |a| + m) == RolesBefore(a, |a|) + RolesBefore(b, m)
  {
    if m == 0 {
      RolesBeforeIgnoresLaterRows(a, b, |a|);
      assert RolesBefore(a, |a|) + [] == RolesBefore(a, |a|);
    } else {
      RolesBeforeAppend(a, b, m - 1);
      var last := RowRoles(b[m - 1]);
      var x, y := RolesBefore(a, |a|), RolesBefore(b, m - 1);
      assert (a + b)[|a| + m - 1] == b[m - 1];
      assert RolesBefore(a + b, |a| + m) == (x + y) + last;
      assert RolesBefore(b, m) == y + last;
      AppendAssociates(x, y, last);
    }
  }

  /** Sequence concatenation associates; kept separate so the solver proves it
      without the role-list facts in scope. */
  lemma AppendAssociates(x: seq<string>, y: seq<string>, z: seq<string>)
    ensures (x + y) + z == x + (y + z)
  {
  }

  /** Reading the rows in two batches gives the two batches' roles, in order. */
  lemma NormalizeAppend(a: seq<Option<string>>, b: seq<Option<string>>)
    ensures Normalize(a + b) == Normalize(a) + Normalize(b)
  {
    RolesBeforeAppend(a, b, |b|);
  }

  /** A row holding only characters up to U+0020 is kept, as the empty role. */
  lemma BlankRowKept(rows: seq<Option<string>>, j: nat)
    requires j < |rows| && rows[j].Some?
    requires forall k :: 0 <= k < |rows[j].value| ==> IsTrimmable(rows[j].value[k])
    ensures exists k :: 0 <= k < |PresentBefore(rows, |rows|)| && PresentBefore(rows, |rows|)[k] == j
                        && k < |Normalize(rows)| && Normalize(rows)[k] == ""
  {
    RolesSelectPresentRows(rows, |rows|);
    PresentBeforeComplete(rows, |rows|, j);
    var idx := PresentBefore(rows, |rows|);
    var k :| 0 <= k < |idx| && idx[k] == j;
    assert Normalize(rows)[k] == "";
  }

  /** Every role wrapped back as a row. */
  function AsRows(roles: seq<string>): (rows: seq<Option<string>>)
    ensures |rows| == |roles|
    ensures forall k :: 0 <= k < |roles| ==> rows[k] == Some(roles[k])
  {
    seq(|roles|, k requires 0 <= k < |roles| => Some(roles[k]))
  }

  lemma {:induction false} RolesBeforeFixesTrimmed(roles: seq<string>, n: nat)
    requires n <= |roles|
    requires forall k :: 0 <= k < |roles| ==> Trimmed(roles[k])
    ensures RolesBefore(AsRows(roles), n) == roles[..n]
  {
    if n > 0 {
      RolesBeforeFixesTrimmed(roles, n - 1);
      var role := roles[n - 1];
      assert Trimmed(role);
      TrimFixesExactlyTrimmed(role);
      assert RowRoles(AsRows(roles)[n - 1]) == [role];
      assert roles[..n] == roles[..n - 1] + [role];
    }
  }

  /** Normalizing is idempotent: the roles, fed back as rows, come out unchanged. */
  lemma NormalizeIdempotent(rows: seq<Option<string>>)
    ensures Normalize(AsRows(Normalize(rows))) == Normalize(rows)
  {
    var roles := Normalize(rows);
    RolesBeforeFixesTrimmed(roles, |roles|);
    assert roles[..|roles|] == roles;
  }
}
