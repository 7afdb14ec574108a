/**
 * Composition of the role query text that startInternal caches: a fixed
 * three-table join whose identifiers come from the configuration and whose
 * only parameter is the user name.
 */
module RoleQuery {
  import opened Wrappers
  import opened JavaLang
  import opened RealmConfig

  /** The fixed text between the identifiers, in append order. */
  const Fragments: seq<string> := [
    "SELECT c.", " FROM ", " a INNER JOIN ", " b ON a.", "=b.",
    " INNER JOIN ", " c ON b.", "=c.", " WHERE a.", " = ?"]

  /** The identifiers in the order they are appended. */
  function Identifiers(cfg: Config): (ids: seq<Option<string>>)
    ensures |ids| + 1 == |Fragments|
  {
    [cfg.roleNameCol, cfg.userTable, cfg.userRoleTable,
     cfg.columnInUserReferencedInUserRole, cfg.referrencingColumnInUserRoleToUserTable,
     cfg.roleEnumTable, cfg.referrencingColumnInUserRoleToRoleEnumTable,
     cfg.columnInRoleEnumReferredInUserRole, cfg.userNameCol]
  }

  /** The text each identifier contributes. */
  function Rendered(ids: seq<Option<string>>): (texts: seq<string>)
    ensures |texts| == |ids|
    ensures forall i :: 0 <= i < |ids| ==> texts[i] == StringValueOf(ids[i])
  {
    seq(|ids|, i requires 0 <= i < |ids| => StringValueOf(ids[i]))
  }

  /** frags[0] + parts[0] + frags[1] + ... + parts[n-1] + frags[n]. */
  function Interleave(frags: seq<string>, parts: seq<string>): string
    requires |frags| == |parts| + 1
    decreases |parts|
  {
    if |parts| == 0 then frags[0]
    else frags[0] + (parts[0] + Interleave(frags[1..], parts[1..]))
  }

  /** The StringBuilder chain of startInternal: "SELECT c.", then each
      identifier followed by the fragment appended after it.  The result is
      the fixed fragments with the nine identifiers interleaved, in the order
      roleNameCol, userTable, userRoleTable, columnInUserReferencedInUserRole,
      referrencingColumnInUserRoleToUserTable, roleEnumTable,
      referrencingColumnInUserRoleToRoleEnumTable,
      columnInRoleEnumReferredInUserRole, userNameCol. */
  function ComposeQuery(cfg: Config): (q: string)
    ensures q == Interleave(Fragments, Rendered(Identifiers(cfg)))
  {
    var f := Fragments;
    var p := Rendered(Identifiers(cfg));
    assert Interleave(f[9..], p[9..]) == " = ?";
    assert Interleave(f[8..], p[8..]) == " WHERE a." + (p[8] + Interleave(f[9..], p[9..]));
    assert Interleave(f[7..], p[7..]) == "=c." + (p[7] + Interleave(f[8..], p[8..]));
    assert Interleave(f[6..], p[6..]) == " c ON b." + (p[6] + Interleave(f[7..], p[7..]));
    assert Interleave(f[5..], p[5..]) == " INNER JOIN " + (p[5] + Interleave(f[6..], p[6..]));
    assert Interleave(f[4..], p[4..]) == "=b." + (p[4] + Interleave(f[5..], p[5..]));
    assert Interleave(f[3..], p[3..]) == " b ON a." + (p[3] + Interleave(f[4..], p[4..]));
    assert Interleave(f[2..], p[2..]) == " a INNER JOIN " + (p[2] + Interleave(f[3..], p[3..]));
    assert Interleave(f[1..], p[1..]) == " FROM " + (p[1] + Interleave(f[2..], p[2..]));
    assert Interleave(f, p) == "SELECT c." + (p[0] + Interleave(f[1..], p[1..]));
    "SELECT c." + (StringValueOf(cfg.roleNameCol)
    + (" FROM " + (StringValueOf(cfg.userTable)
    + (" a INNER JOIN " + (StringValueOf(cfg.userRoleTable)
    + (" b ON a." + (StringValueOf(cfg.columnInUserReferencedInUserRole)
    + ("=b." + (StringValueOf(cfg.referrencingColumnInUserRoleToUserTable)
    + (" INNER JOIN " + (StringValueOf(cfg.roleEnumTable)
    + (" c ON b." + (StringValueOf(cfg.referrencingColumnInUserRoleToRoleEnumTable)
    + ("=c." + (StringValueOf(cfg.columnInRoleEnumReferredInUserRole)
    + (" WHERE a." + (StringValueOf(cfg.userNameCol)
    + " = ?")))))))))))))))))
  }

  /** Total occurrences of `c` across a sequence of strings. */
  function SumOccurrences(texts: seq<string>, c: char): (n: nat)
    ensures n == 0 <==> forall i :: 0 <= i < |texts| ==> c !in texts[i]
  {
    if |texts| == 0 then 0 else Occurrences(texts[0], c) + SumOccurrences(texts[1..], c)
  }

  /** Interleaving adds no characters of its own. */
  lemma {:induction false} OccurrencesInterleave(frags: seq<string>, parts: seq<string>, c: char)
    requires |frags| == |parts| + 1
    ensures Occurrences(Interleave(frags, parts), c)
         == SumOccurrences(frags, c) + SumOccurrences(parts, c)
    decreases |parts|
  {
    if |parts| == 0 {
      assert frags[1..] == [];
    } else {
      OccurrencesInterleave(frags[1..], parts[1..], c);
      OccurrencesAppend(parts[0], Interleave(frags[1..], parts[1..]), c);
      OccurrencesAppend(frags[0], parts[0] + Interleave(frags[1..], parts[1..]), c);
    }
  }

  /** The query holds one `?` of its own, plus every `?` inside the identifiers. */
  lemma PlaceholderCount(cfg: Config)
    ensures Occurrences(ComposeQuery(cfg), '?')
         == 1 + SumOccurrences(Rendered(Identifiers(cfg)), '?')
  {
    OccurrencesInterleave(Fragments, Rendered(Identifiers(cfg)), '?');
    FragmentsHoldOnePlaceholder();
  }

  /** Of the fixed text, only the final " = ?" contains a `?`, and only one. */
  lemma FragmentsHoldOnePlaceholder()
    ensures SumOccurrences(Fragments, '?') == 1
  {
    FragmentsBeforeLastFree();
    LastFragmentPlaceholder();
    SumOccurrencesOnlyLast(Fragments, '?');
  }

  lemma FragmentsBeforeLastFree()
    ensures forall i :: 0 <= i < 9 ==> '?' !in Fragments[i]
  {
  }

  lemma LastFragmentPlaceholder()
    ensures Occurrences(Fragments[9], '?') == 1
  {
    OccurrencesAppend(" = ", "?", '?');
    assert " = " + "?" == " = ?";
  }

  /** A sequence in which only the last string holds `c` has as many `c` as that string. */
  lemma {:induction false} SumOccurrencesOnlyLast(texts: seq<string>, c: char)
    requires |texts| > 0
    requires forall i :: 0 <= i < |texts| - 1 ==> c !in texts[i]
    ensures SumOccurrences(texts, c) == Occurrences(texts[|texts| - 1], c)
    decreases |texts|
  {
    if |texts| > 1 {
      SumOccurrencesOnlyLast(texts[1..], c);
    } else {
      assert texts[1..] == [];
    }
  }

  /** The query has exactly one placeholder if and only if no configured
      identifier contains `?` (an unset one renders as `null`, which has none). */
  lemma SinglePlaceholder(cfg: Config)
    ensures Occurrences(ComposeQuery(cfg), '?') == 1
        <==> forall i :: 0 <= i < 9 ==>
               Identifiers(cfg)[i].None? || '?' !in Identifiers(cfg)[i].value
  {
    PlaceholderCount(cfg);
    var ids := Identifiers(cfg);
    var texts := Rendered(ids);
    assert forall i :: 0 <= i < 9 ==> ('?' in texts[i] <==> ids[i].Some? && '?' in ids[i].value);
  }

  /** An interleaving starts with the first fragment. */
  lemma InterleavePrefix(frags: seq<string>, parts: seq<string>)
    requires |frags| == |parts| + 1
    ensures var q := Interleave(frags, parts);
            |q| >= |frags[0]| && q[..|frags[0]|] == frags[0]
  {
  }

  /** `s` ends with `t`. */
  predicate EndsWith(s: string, t: string) {
    |t| <= |s| && s[|s| - |t|..] == t
  }

  /** An interleaving ends with the last fragment. */
  lemma {:induction false} InterleaveSuffix(frags: seq<string>, parts: seq<string>)
    requires |frags| == |parts| + 1
    ensures EndsWith(Interleave(frags, parts), frags[|frags| - 1])
    decreases |parts|
  {
    if |parts| > 0 {
      var last := frags[|frags| - 1];
      var rest := Interleave(frags[1..], parts[1..]);
      InterleaveSuffix(frags[1..], parts[1..]);
      assert frags[1..][|frags[1..]| - 1] == last;
      EndsWithAppend(parts[0], rest, last);
      EndsWithAppend(frags[0], parts[0] + rest, last);
      assert Interleave(frags, parts) == frags[0] + (parts[0] + rest);
    }
  }

  /** Appending in front keeps the ending. */
  lemma EndsWithAppend(x: string, y: string, t: string)
    requires EndsWith(y, t)
    ensures EndsWith(x + y, t)
  {
    assert (x + y)[|x + y| - |t|..] == y[|y| - |t|..];
  }

  /** The composed query starts with "SELECT c." and ends with " = ?". */
  lemma QueryShape(cfg: Config)
    ensures var q := ComposeQuery(cfg);
            |q| >= 9 && q[..9] == "SELECT c." && EndsWith(q, " = ?")
  {
    InterleavePrefix(Fragments, Rendered(Identifiers(cfg)));
    InterleaveSuffix(Fragments, Rendered(Identifiers(cfg)));
  }
}
