/** SQLite's `LIKE` operator, as used by every pattern query of the store,
    and the facts about it that the queries rely on. */
module Patterns {
  import opened Strings

  /** `s LIKE p` without an ESCAPE clause: `%` matches any run of characters
      (possibly empty), `_` matches exactly one character, and any other
      pattern character matches one character equal to it up to ASCII case. */
  predicate Like(p: string, s: string)
    decreases |p| + |s|
  {
    if |p| == 0 then |s| == 0
    else if p[0] == '%' then Like(p[1..], s) || (|s| > 0 && Like(p, s[1..]))
    else |s| > 0 && (p[0] == '_' || FoldAscii(p[0]) == FoldAscii(s[0])) && Like(p[1..], s[1..])
  }

  /** Neither wildcard occurs in `p`. */
  predicate Literal(p: string) {
    '%' !in p && '_' !in p
  }

  /** Position by position, `s` fits the single-character pattern `p`. */
  predicate FitsPositions(p: string, s: string) {
    |p| == |s| && forall i :: 0 <= i < |p| ==> p[i] == '_' || FoldAscii(p[i]) == FoldAscii(s[i])
  }

  /** Every string matches itself used as a pattern. */
  lemma {:induction false} LikeReflexive(p: string)
    ensures Like(p, p)
    decreases |p|
  {
    if |p| > 0 {
      LikeReflexive(p[1..]);
      if p[0] == '%' {
        assert Like(p, p[1..]);
      }
    }
  }

  /** A lone `%` matches everything. */
  lemma {:induction false} LikeAnything(s: string)
    ensures Like("%", s)
    decreases |s|
  {
    assert "%"[1..] == "";
    if |s| > 0 {
      LikeAnything(s[1..]);
    }
  }

  /** Without `%`, a pattern matches exactly the strings of its own length
      that agree with it at every non-`_` position, up to ASCII case. */
  lemma {:induction false} LikeFixedWidth(p: string, s: string)
    requires '%' !in p
    ensures Like(p, s) <==> FitsPositions(p, s)
    decreases |p|
  {
    if |p| > 0 && |s| > 0 {
      assert p[0] in p;
      assert forall x :: x in p[1..] ==> x in p;
      LikeFixedWidth(p[1..], s[1..]);
      if FitsPositions(p[1..], s[1..]) && (p[0] == '_' || FoldAscii(p[0]) == FoldAscii(s[0])) {
        forall i | 0 <= i < |p|
          ensures p[i] == '_' || FoldAscii(p[i]) == FoldAscii(s[i])
        {
          if i > 0 {
            assert p[1..][i - 1] == p[i] && s[1..][i - 1] == s[i];
          }
        }
      }
      if FitsPositions(p, s) {
        forall i | 0 <= i < |p| - 1
          ensures p[1..][i] == '_' || FoldAscii(p[1..][i]) == FoldAscii(s[1..][i])
        {
          assert p[1..][i] == p[i + 1] && s[1..][i] == s[i + 1];
        }
      }
    } else if |p| > 0 {
      assert p[0] in p;
    }
  }

  /** A wildcard-free pattern matches exactly the strings equal to it up to
      ASCII case: this is why a plain lemma or token finds its own rows. */
  lemma LikeLiteral(p: string, s: string)
    requires Literal(p)
    ensures Like(p, s) <==> Lower(p) == Lower(s)
  {
    LikeFixedWidth(p, s);
    if Lower(p) == Lower(s) {
      forall i | 0 <= i < |p|
        ensures FoldAscii(p[i]) == FoldAscii(s[i])
      {
        assert Lower(p)[i] == Lower(s)[i];
      }
    }
    if FitsPositions(p, s) {
      forall i | 0 <= i < |p|
        ensures Lower(p)[i] == Lower(s)[i]
      {
        assert p[i] in p;
      }
    }
  }

  /** A trailing `%` turns a pattern into a prefix match: `p + "%"` matches
      `s` exactly when `p` matches some prefix of `s`. */
  lemma {:induction false} LikeTrailingPercent(p: string, s: string)
    ensures Like(p + "%", s) <==> exists k :: 0 <= k <= |s| && Like(p, s[..k])
    decreases |p| + |s|
  {
    var q := p + "%";
    if |p| == 0 {
      assert q == "%";
      LikeAnything(s);
      assert Like(p, s[..0]);
    } else if p[0] == '%' {
      assert q[0] == '%' && q[1..] == p[1..] + "%";
      LikeTrailingPercent(p[1..], s);
      if |s| > 0 {
        LikeTrailingPercent(p, s[1..]);
      }
      if Like(q, s) {
        if Like(p[1..] + "%", s) {
          var k :| 0 <= k <= |s| && Like(p[1..], s[..k]);
          assert Like(p, s[..k]);
        } else {
          var k :| 0 <= k <= |s| - 1 && Like(p, s[1..][..k]);
          assert s[..k + 1][1..] == s[1..][..k];
          assert Like(p, s[..k + 1]);
        }
      }
      if exists k :: 0 <= k <= |s| && Like(p, s[..k]) {
        var k :| 0 <= k <= |s| && Like(p, s[..k]);
        if !Like(p[1..], s[..k]) {
          assert k > 0 && Like(p, s[..k][1..]);
          assert s[..k][1..] == s[1..][..k - 1];
          assert Like(q, s[1..]);
        }
      }
    } else {
      assert q[0] == p[0] && q[1..] == p[1..] + "%";
      if |s| > 0 {
        LikeTrailingPercent(p[1..], s[1..]);
        if Like(q, s) {
          var k :| 0 <= k <= |s| - 1 && Like(p[1..], s[1..][..k]);
          assert s[..k + 1][0] == s[0] && s[..k + 1][1..] == s[1..][..k];
          assert Like(p, s[..k + 1]);
        }
        if exists k :: 0 <= k <= |s| && Like(p, s[..k]) {
          var k :| 0 <= k <= |s| && Like(p, s[..k]);
          assert k > 0;
          assert s[..k][0] == s[0] && s[..k][1..] == s[1..][..k - 1];
          assert Like(p[1..], s[1..][..k - 1]);
        }
      } else {
        assert forall k :: 0 <= k <= |s| ==> s[..k] == [];
      }
    }
  }
}
