/** The rewrite that turns a morphosyntactic descriptor given by a caller
    into the prefix pattern the msd queries hand to `LIKE`. */
module Msd {
  import opened Strings
  import opened Patterns

  /** `msd.replace('-', '_').strip('%') + '%'`: every hyphen becomes the
      single-character wildcard, surrounding `%` are dropped, and one `%` is
      appended so the pattern matches any descriptor beginning that way. */
  function Normalize(msd: string): (r: string)
    ensures |r| > 0 && r[|r| - 1] == '%'
    ensures '-' !in r
    ensures var core := r[..|r| - 1];
            core == [] || (core[0] != '%' && core[|core| - 1] != '%')
  {
    var core := Strip(Replace(msd, '-', '_'), '%');
    assert (core + "%")[..|core|] == core;
    core + "%"
  }

  /** Only the runs of `%` at the two ends of the descriptor are dropped:
      the core of the pattern is a slice of the hyphen-rewritten descriptor,
      with nothing but `%` before and after it, and it is the only such slice
      that neither starts nor ends with `%`. */
  lemma NormalizeTrimsEnds(msd: string)
    ensures exists core, i: nat, j: nat ::
              TrimmedRun(Replace(msd, '-', '_'), '%', core, i, j) && Normalize(msd) == core + "%"
    ensures forall core, i: nat, j: nat ::
              TrimmedRun(Replace(msd, '-', '_'), '%', core, i, j) && (core == [] || (core[0] != '%' && core[|core| - 1] != '%'))
              ==> Normalize(msd) == core + "%"
  {
    var p := Replace(msd, '-', '_');
    var n := Normalize(msd);
    StripIsInfix(p, '%');
    var i: nat, j: nat :| TrimmedRun(p, '%', Strip(p, '%'), i, j);
    assert n == Strip(p, '%') + "%";
    forall core, i: nat, j: nat |
      TrimmedRun(p, '%', core, i, j) && (core == [] || (core[0] != '%' && core[|core| - 1] != '%'))
      ensures n == core + "%"
    {
      StripUnique(p, '%', core, i, j);
    }
  }

  /** Normalising an already normalised descriptor changes nothing. */
  lemma NormalizeIdempotent(msd: string)
    ensures Normalize(Normalize(msd)) == Normalize(msd)
  {
    var n := Normalize(msd);
    var core := n[..|n| - 1];
    assert n == core + "%";
    assert Replace(n, '-', '_') == n;
    assert n[..|n| - 1] == core;
    assert Strip(core, '%') == core;
    assert Strip(n, '%') == core;
  }

  /** For a descriptor without `%`, normalisation only rewrites hyphens and
      appends the final `%`. */
  lemma NormalizeWithoutPercent(msd: string)
    requires '%' !in msd
    ensures Normalize(msd) == Replace(msd, '-', '_') + "%"
  {
    var p := Replace(msd, '-', '_');
    assert '%' !in p;
    assert Strip(p, '%') == p;
  }

  /** `s` begins with something the descriptor `msd` describes: it is at
      least as long, and agrees with `msd` up to ASCII case wherever `msd`
      has no hyphen. */
  predicate DescribedBy(msd: string, s: string) {
    |msd| <= |s| && forall i :: 0 <= i < |msd| ==> msd[i] == '-' || FoldAscii(msd[i]) == FoldAscii(s[i])
  }

  lemma ReplacedFits(msd: string, s: string, k: nat)
    requires '_' !in msd && k <= |s|
    ensures FitsPositions(Replace(msd, '-', '_'), s[..k]) <==> k == |msd| && DescribedBy(msd, s)
  {
    var p := Replace(msd, '-', '_');
    if k == |msd| {
      forall i | 0 <= i < |msd|
        ensures (p[i] == '_' || FoldAscii(p[i]) == FoldAscii(s[..k][i]))
            <==> (msd[i] == '-' || FoldAscii(msd[i]) == FoldAscii(s[i]))
      {
        assert msd[i] in msd;
        assert s[..k][i] == s[i];
      }
    }
  }

  /** For a descriptor without `%` or `_`, the normalised pattern matches an
      msd exactly when the msd begins with something the descriptor
      describes: a hyphen stands for any one character, and whatever follows
      the descriptor's length is free. */
  lemma NormalizedMatch(msd: string, s: string)
    requires '%' !in msd && '_' !in msd
    ensures Like(Normalize(msd), s) <==> DescribedBy(msd, s)
  {
    NormalizeWithoutPercent(msd);
    RewrittenMatch(msd, s);
  }

  /** The hyphen-rewritten descriptor followed by `%` matches exactly the
      msds the descriptor describes. */
  lemma RewrittenMatch(msd: string, s: string)
    requires '%' !in msd && '_' !in msd
    ensures Like(Replace(msd, '-', '_') + "%", s) <==> DescribedBy(msd, s)
  {
    var p := Replace(msd, '-', '_');
    LikeTrailingPercent(p, s);
    assert '%' !in p;
    if Like(p + "%", s) {
      var k :| 0 <= k <= |s| && Like(p, s[..k]);
      LikeFixedWidth(p, s[..k]);
      ReplacedFits(msd, s, k);
    }
    if DescribedBy(msd, s) {
      LikeFixedWidth(p, s[..|msd|]);
      ReplacedFits(msd, s, |msd|);
    }
  }

  /** A descriptor without hyphens or wildcards is a plain prefix match:
      "Ncmsn" finds "Ncmsnn" but not the shorter "Ncms". */
  lemma PrefixExample()
    ensures Like(Normalize("Ncmsn"), "Ncmsnn")
    ensures !Like(Normalize("Ncmsn"), "Ncms")
  {
    NormalizedMatch("Ncmsn", "Ncmsnn");
    NormalizedMatch("Ncmsn", "Ncms");
  }

  /** In "N-c" the hyphen stands for exactly one arbitrary character: "Nac5"
      and "Nmc5" match, "Nc5" does not. */
  lemma HyphenExample()
    ensures Like(Normalize("N-c"), "Nac5")
    ensures Like(Normalize("N-c"), "Nmc5")
    ensures !Like(Normalize("N-c"), "Nc5")
  {
    assert Like(Normalize("N-c"), "Nac5") by {
      NormalizedMatch("N-c", "Nac5");
      DescribedByNc("Nac5");
    }
    assert Like(Normalize("N-c"), "Nmc5") by {
      NormalizedMatch("N-c", "Nmc5");
      DescribedByNc("Nmc5");
    }
    assert !Like(Normalize("N-c"), "Nc5") by {
      NormalizedMatch("N-c", "Nc5");
      assert FoldAscii('c') == 'c';
      assert FoldAscii('5') == '5';
      assert "Nc5"[2] == '5' && "N-c"[2] == 'c';
    }
  }

  lemma DescribedByNc(s: string)
    requires |s| >= 3 && s[0] == 'N' && s[2] == 'c'
    ensures DescribedBy("N-c", s)
  {
    var m := "N-c";
    forall i | 0 <= i < 3
      ensures m[i] == '-' || FoldAscii(m[i]) == FoldAscii(s[i])
    {
      assert i == 0 || i == 1 || i == 2;
    }
  }
}
