/**
 * The SQL `LIKE` operator the search specifications compile to, and the
 * filter shape they all share: the string "null" means "no constraint",
 * anything else `x` matches a field through the pattern `'%' + x + '%'`.
 */
module SqlLike {

  /**
   * `s LIKE p` with `%` matching any run of characters and `_` any single
   * character; every other pattern character matches itself. No escape
   * character, and comparison is exact (no collation).
   */
  function Like(s: string, p: string): bool
    decreases |s| + |p|
  {
    if p == [] then s == []
    else if p[0] == '%' then Like(s, p[1..]) || (s != [] && Like(s[1..], p))
    else s != [] && (p[0] == '_' || p[0] == s[0]) && Like(s[1..], p[1..])
  }

  /** `x` holds neither of the two wildcard characters. */
  predicate NoWildcards(x: string) {
    forall i :: 0 <= i < |x| ==> x[i] != '%' && x[i] != '_'
  }

  /** `x` occurs in `s` starting at index `k`. */
  predicate OccursAt(s: string, x: string, k: int) {
    0 <= k && k + |x| <= |s| && s[k..k + |x|] == x
  }

  /** `x` occurs in `s` as a contiguous substring. */
  ghost predicate Contains(s: string, x: string) {
    exists k :: OccursAt(s, x, k)
  }

  /** A `LIKE` filter over one field: the "null" sentinel, or `'%' + arg + '%'`. */
  predicate LikeFilter(arg: string, field: string) {
    arg == "null" || Like(field, "%" + arg + "%")
  }

  /** A lone `%` matches every string. */
  lemma {:induction false} PercentMatchesAll(s: string)
    ensures Like(s, "%")
    decreases |s|
  {
    assert "%"[1..] == [];
    if s != [] {
      PercentMatchesAll(s[1..]);
    }
  }

  /** A wildcard-free prefix of the pattern must match a prefix of the subject literally. */
  lemma {:induction false} LiteralPrefix(s: string, x: string, q: string)
    requires NoWildcards(x)
    ensures Like(s, x + q) <==> |x| <= |s| && s[..|x|] == x && Like(s[|x|..], q)
    decreases |x|
  {
    if x == [] {
      assert x + q == q;
      assert s[..0] == [] && s[0..] == s;
    } else {
      var p := x + q;
      assert p[0] == x[0] && p[0] != '%' && p[0] != '_';
      assert p[1..] == x[1..] + q;
      assert NoWildcards(x[1..]) by {
        forall i | 0 <= i < |x[1..]| ensures x[1..][i] != '%' && x[1..][i] != '_' {
          assert x[1..][i] == x[i + 1];
        }
      }
      if s != [] {
        LiteralPrefix(s[1..], x[1..], q);
        if |x| <= |s| {
          assert s[1..][..|x| - 1] == s[1..|x|];
          assert s[1..][|x| - 1..] == s[|x|..];
          assert s[..|x|] == [s[0]] + s[1..|x|];
          assert x == [x[0]] + x[1..];
        }
      }
    }
  }

  /** A leading `%` lets the rest of the pattern match any suffix of the subject. */
  lemma {:induction false} LeadingPercent(s: string, q: string)
    ensures Like(s, "%" + q) <==> exists k :: 0 <= k <= |s| && Like(s[k..], q)
    decreases |s|
  {
    var p := "%" + q;
    assert p[0] == '%' && p[1..] == q;
    assert s[0..] == s;
    if s != [] {
      LeadingPercent(s[1..], q);
      if Like(s, p) && !Like(s, q) {
        var k :| 0 <= k <= |s| - 1 && Like(s[1..][k..], q);
        assert s[1..][k..] == s[k + 1..];
      }
      if exists k :: 0 <= k <= |s| && Like(s[k..], q) {
        var k :| 0 <= k <= |s| && Like(s[k..], q);
        if k > 0 {
          assert s[1..][k - 1..] == s[k..];
        }
      }
    }
  }

  /** For a wildcard-free argument, `LIKE '%x%'` is exactly substring containment. */
  lemma SurroundedMatchIsContainment(s: string, x: string)
    requires NoWildcards(x)
    ensures Like(s, "%" + x + "%") <==> Contains(s, x)
  {
    assert "%" + x + "%" == "%" + (x + "%");
    LeadingPercent(s, x + "%");
    if Like(s, "%" + x + "%") {
      var k :| 0 <= k <= |s| && Like(s[k..], x + "%");
      LiteralPrefix(s[k..], x, "%");
      assert s[k..][..|x|] == s[k..k + |x|];
      assert OccursAt(s, x, k);
    }
    if Contains(s, x) {
      var k :| OccursAt(s, x, k);
      LiteralPrefix(s[k..], x, "%");
      assert s[k..][..|x|] == s[k..k + |x|];
      PercentMatchesAll(s[k..][|x|..]);
    }
  }

  /**
   * The meaning of every `LIKE` filter: the sentinel accepts any field; any
   * other wildcard-free argument accepts exactly the fields containing it.
   */
  lemma LikeFilterMeaning(arg: string, field: string)
    ensures arg == "null" ==> LikeFilter(arg, field)
    ensures arg != "null" && NoWildcards(arg) ==> (LikeFilter(arg, field) <==> Contains(field, arg))
  {
    if arg != "null" && NoWildcards(arg) {
      SurroundedMatchIsContainment(field, arg);
    }
  }
}
