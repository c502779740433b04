/**
 * PostgreSQL's LIKE / ILIKE pattern matching, which the search_by_email scope
 * relies on: '%' matches any run of characters, '_' exactly one, and a
 * backslash makes the next pattern character literal. ILIKE folds case
 * (ASCII letters only in this model).
 */
module SqlLike {

  import opened Basics

  predicate IsWildcard(c: char) {
    c == '%' || c == '_' || c == '\\'
  }

  /** Whether pattern p matches the whole of text t. */
  predicate Like(p: string, t: string)
    decreases |p| + |t|
  {
    if p == [] then t == []
    else if p[0] == '%' then Like(p[1..], t) || (t != [] && Like(p, t[1..]))
    else if p[0] == '_' then t != [] && Like(p[1..], t[1..])
    else if p[0] == '\\' && |p| >= 2 then t != [] && t[0] == p[1] && Like(p[2..], t[1..])
    else t != [] && t[0] == p[0] && Like(p[1..], t[1..])
  }

  predicate ILike(t: string, p: string) {
    Like(Lower(p), Lower(t))
  }

  /** A lone '%' matches every text. */
  lemma {:induction false} PercentMatchesAll(t: string)
    ensures Like("%", t)
    decreases |t|
  {
    if t != [] {
      PercentMatchesAll(t[1..]);
    }
  }

  /** For a wildcard-free q, `q%` matches exactly the texts that start with q. */
  lemma {:induction false} LiteralThenPercent(q: string, u: string)
    requires forall i :: 0 <= i < |q| ==> !IsWildcard(q[i])
    ensures Like(q + "%", u) <==> IsPrefixOf(q, u)
    decreases |q|
  {
    if q == [] {
      assert q + "%" == "%";
      PercentMatchesAll(u);
    } else {
      assert (q + "%")[1..] == q[1..] + "%";
      if u != [] {
        LiteralThenPercent(q[1..], u[1..]);
        if IsPrefixOf(q, u) {
          assert u[1..][..|q| - 1] == u[..|q|][1..];
        }
        if IsPrefixOf(q[1..], u[1..]) && u[0] == q[0] {
          assert u[..|q|] == [u[0]] + u[1..][..|q| - 1];
        }
      }
    }
  }

  /** For a wildcard-free q, `%q%` matches exactly the texts that contain q. */
  lemma {:induction false} SurroundedLiteral(q: string, t: string)
    requires forall i :: 0 <= i < |q| ==> !IsWildcard(q[i])
    ensures Like("%" + q + "%", t) <==> Contains(t, q)
    decreases |t|
  {
    var p := "%" + q + "%";
    assert p[1..] == q + "%";
    LiteralThenPercent(q, t);
    if t != [] {
      SurroundedLiteral(q, t[1..]);
    }
  }

  /** Case folding leaves the three pattern characters alone. */
  lemma LowerKeepsLiteral(q: string)
    requires forall i :: 0 <= i < |q| ==> !IsWildcard(q[i])
    ensures forall i :: 0 <= i < |Lower(q)| ==> !IsWildcard(Lower(q)[i])
  {
  }

  /**
   * ILIKE '%q%' is a case-insensitive substring test whenever q holds none of
   * the pattern characters.
   */
  lemma ILikeIsCaseInsensitiveContains(t: string, q: string)
    requires forall i :: 0 <= i < |q| ==> !IsWildcard(q[i])
    ensures ILike(t, "%" + q + "%") <==> Contains(Lower(t), Lower(q))
  {
    LowerAppend("%" + q, "%");
    LowerAppend("%", q);
    assert Lower("%") == "%";
    LowerKeepsLiteral(q);
    SurroundedLiteral(Lower(q), Lower(t));
  }
}
