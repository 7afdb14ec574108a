/**
 * The two pieces of java.lang the realm depends on: how a nullable String is
 * rendered when appended to a StringBuilder, and String.trim.  A Java String
 * is modelled as a `string`; its characters are compared by code point.
 */
module JavaLang {
  import opened Wrappers

  /** The text StringBuilder.append(String) writes: the string itself, or the
      four characters `null` when the reference is null. */
  function StringValueOf(s: Option<string>): (text: string)
    ensures s.Some? ==> text == s.value
    ensures s.None? ==> text == "null"
  {
    match s
    case Some(v) => v
    case None => "null"
  }

  /** The characters String.trim removes: every code point up to U+0020. */
  predicate IsTrimmable(c: char) {
    c <= ' '
  }

  /** `s` neither starts nor ends with a trimmable character. */
  predicate Trimmed(s: string) {
    |s| == 0 || (!IsTrimmable(s[0]) && !IsTrimmable(s[|s| - 1]))
  }

  /** Cutting `s` at `st` and `en` removes only trimmable characters and
      leaves a slice that starts and ends with a kept character. */
  predicate IsTrimCut(s: string, st: int, en: int)
    requires 0 <= st <= en <= |s|
  {
    && (forall k :: 0 <= k < st ==> IsTrimmable(s[k]))
    && (forall k :: en <= k < |s| ==> IsTrimmable(s[k]))
    && Trimmed(s[st..en])
  }

  /** String.trim's first loop: advance `st` past trimmable characters. */
  function SkipLeading(s: string, st: nat): (r: nat)
    requires st <= |s|
    ensures st <= r <= |s|
    ensures forall k :: st <= k < r ==> IsTrimmable(s[k])
    ensures r < |s| ==> !IsTrimmable(s[r])
    decreases |s| - st
  {
    if st < |s| && IsTrimmable(s[st]) then SkipLeading(s, st + 1) else st
  }

  /** String.trim's second loop: pull `len` back past trimmable characters,
      never below `st`. */
  function SkipTrailing(s: string, st: nat, len: nat): (r: nat)
    requires st <= len <= |s|
    ensures st <= r <= len
    ensures forall k :: r <= k < len ==> IsTrimmable(s[k])
    ensures st < r ==> !IsTrimmable(s[r - 1])
    decreases len
  {
    if st < len && IsTrimmable(s[len - 1]) then SkipTrailing(s, st, len - 1) else len
  }

  /** The bounds String.trim keeps: `s[b.0..b.1]`. */
  function TrimBounds(s: string): (b: (nat, nat))
    ensures b.0 <= b.1 <= |s|
    ensures IsTrimCut(s, b.0, b.1)
  {
    var st := SkipLeading(s, 0);
    var len := SkipTrailing(s, st, |s|);
    assert forall k :: 0 <= k < st ==> IsTrimmable(s[k]);
    (st, len)
  }

  /** java.lang.String.trim. */
  function Trim(s: string): (r: string)
    ensures |r| <= |s|
    ensures Trimmed(r)
    ensures r == [] <==> forall k :: 0 <= k < |s| ==> IsTrimmable(s[k])
  {
    var b := TrimBounds(s);
    if b.0 == b.1 then
      assert forall k :: 0 <= k < |s| ==> IsTrimmable(s[k]) by {
        forall k | 0 <= k < |s| ensures IsTrimmable(s[k]) {
          if k >= b.0 { assert b.1 <= k; }
        }
      }
      []
    else
      s[b.0..b.1]
  }

  /** Trim is the only way to cut trimmable margins off `s` and be left with
      a trimmed slice: any such cut yields exactly Trim(s). */
  lemma TrimUnique(s: string, st: int, en: int)
    requires 0 <= st <= en <= |s|
    requires IsTrimCut(s, st, en)
    ensures Trim(s) == s[st..en]
  {
    var b := TrimBounds(s);
    if st == en {
      assert forall k :: 0 <= k < |s| ==> IsTrimmable(s[k]) by {
        forall k | 0 <= k < |s| ensures IsTrimmable(s[k]) {
          if k >= st { assert en <= k; }
        }
      }
    } else {
      assert s[st..en][0] == s[st];
      assert s[st..en][en - st - 1] == s[en - 1];
      assert !IsTrimmable(s[st]) && !IsTrimmable(s[en - 1]);
      assert Trim(s) != [];
      assert b.0 < b.1;
      assert s[b.0..b.1][0] == s[b.0];
      assert s[b.0..b.1][b.1 - b.0 - 1] == s[b.1 - 1];
      assert !IsTrimmable(s[b.0]) && !IsTrimmable(s[b.1 - 1]);
      assert b.0 <= st && st <= b.0;
      assert b.1 <= en && en <= b.1;
    }
  }

  /** A string that is already trimmed is left alone, and only such strings are. */
  lemma TrimFixesExactlyTrimmed(s: string)
    ensures Trim(s) == s <==> Trimmed(s)
  {
    if Trimmed(s) {
      assert s[0..|s|] == s;
      TrimUnique(s, 0, |s|);
    }
  }

  /** Trimming twice gives the same result as trimming once. */
  lemma TrimIdempotent(s: string)
    ensures Trim(Trim(s)) == Trim(s)
  {
    TrimFixesExactlyTrimmed(Trim(s));
  }

  /** Number of occurrences of `c` in `s`. */
  function Occurrences(s: string, c: char): (n: nat)
    ensures n == 0 <==> c !in s
    ensures n <= |s|
  {
    if |s| == 0 then 0
    else (if s[0] == c then 1 else 0) + Occurrences(s[1..], c)
  }

  /** Occurrences add up across a concatenation. */
  lemma {:induction false} OccurrencesAppend(a: string, b: string, c: char)
    ensures Occurrences(a + b, c) == Occurrences(a, c) + Occurrences(b, c)
    decreases |a|
  {
    if |a| == 0 {
      assert a + b == b;
    } else {
      assert (a + b)[1..] == a[1..] + b;
      OccurrencesAppend(a[1..], b, c);
    }
  }
}
