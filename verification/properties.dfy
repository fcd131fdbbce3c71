/** Facts that relate several operations of the store: what a query finds
    after an insert or a delete, how `select_any` agrees with the single
    pattern queries, and what the literal and prefix patterns mean. */
module HmlDbProperties {
  import opened Strings
  import opened Patterns
  import opened Msd
  import opened Words
  import opened Grouping
  import opened Filters
  import opened HmlDb

  // Pattern queries

  /** Every stored row is found by its own lemma and by its own token used
      as a pattern. */
  lemma FoundByOwnFields(t: Table, x: Triple)
    requires x in t
    ensures x in SelectByLemma(t, x.lem)
    ensures x in SelectByToken(t, x.token)
  {
    LikeReflexive(x.lem);
    LikeReflexive(x.token);
  }

  /** A lemma without wildcards selects exactly the rows whose lemma equals
      it up to ASCII case. */
  lemma SelectByLemmaLiteral(t: Table, p: string)
    requires Literal(p)
    ensures SelectByLemma(t, p) == set x | x in t && NocaseEq(x.lem, p)
  {
    forall x | x in t
      ensures Like(p, x.lem) <==> NocaseEq(x.lem, p)
    {
      LikeLiteral(p, x.lem);
    }
  }

  /** A token without wildcards selects exactly the rows whose token equals
      it up to ASCII case. Those are the rows the case-insensitive `IN` fetch
      meant by `select_by_tokens` gives for it; the exact fetch as written
      gives only some of them. */
  lemma SelectByTokenLiteral(t: Table, p: string)
    requires Literal(p)
    ensures SelectByToken(t, p) == set x | x in t && NocaseEq(x.token, p)
    ensures SelectByToken(t, p) == TokenMembers(t, [p])
    ensures TokenMembersAsWritten(t, [p]) <= SelectByToken(t, p)
  {
    forall x | x in t
      ensures Like(p, x.token) <==> NocaseEq(x.token, p)
    {
      LikeLiteral(p, x.token);
    }
  }

  /** For a descriptor without `%` or `_`, `select_by_msd` finds exactly the
      rows whose msd begins with something the descriptor describes. */
  lemma SelectByMsdDescribed(t: Table, msd: string)
    requires '%' !in msd && '_' !in msd
    ensures SelectByMsd(t, msd) == set x | x in t && DescribedBy(msd, x.msd)
  {
    forall x | x in t
      ensures Like(Normalize(msd), x.msd) <==> DescribedBy(msd, x.msd)
    {
      NormalizedMatch(msd, x.msd);
    }
  }

  // The general filter

  /** With a single criterion given (the others missing or empty),
      `select_any` is the matching single query: `select_by_lemma`,
      `select_by_token`, or `select_by_msd` with the same normalisation. */
  lemma SelectAnyAgreesWithSingles(t: Table, lem: Option<string>, token: Option<string>, msd: Option<string>)
    ensures Given(lem) && !Given(token) && !Given(msd) ==> SelectAny(t, lem, token, msd) == SelectByLemma(t, lem.value)
    ensures !Given(lem) && Given(token) && !Given(msd) ==> SelectAny(t, lem, token, msd) == SelectByToken(t, token.value)
    ensures !Given(lem) && !Given(token) && Given(msd) ==> SelectAny(t, lem, token, msd) == SelectByMsd(t, msd.value)
  {
    if Given(lem) && !Given(token) && !Given(msd) {
      SelectAnyLemmaOnly(t, lem, token, msd);
    }
    if !Given(lem) && Given(token) && !Given(msd) {
      SelectAnyTokenOnly(t, lem, token, msd);
    }
    if !Given(lem) && !Given(token) && Given(msd) {
      SelectAnyMsdOnly(t, lem, token, msd);
    }
  }

  lemma SelectAnyLemmaOnly(t: Table, lem: Option<string>, token: Option<string>, msd: Option<string>)
    requires Given(lem) && !Given(token) && !Given(msd)
    ensures SelectAny(t, lem, token, msd) == SelectByLemma(t, lem.value)
  {
    var a := SelectAny(t, lem, token, msd);
    var b := SelectByLemma(t, lem.value);
    forall x
      ensures x in a <==> x in b
    {
      assert MeetsCriteria(x, lem, token, msd) <==> Like(lem.value, x.lem);
    }
  }

  lemma SelectAnyTokenOnly(t: Table, lem: Option<string>, token: Option<string>, msd: Option<string>)
    requires !Given(lem) && Given(token) && !Given(msd)
    ensures SelectAny(t, lem, token, msd) == SelectByToken(t, token.value)
  {
    var a := SelectAny(t, lem, token, msd);
    var b := SelectByToken(t, token.value);
    forall x
      ensures x in a <==> x in b
    {
      assert MeetsCriteria(x, lem, token, msd) <==> Like(token.value, x.token);
    }
  }

  lemma SelectAnyMsdOnly(t: Table, lem: Option<string>, token: Option<string>, msd: Option<string>)
    requires !Given(lem) && !Given(token) && Given(msd)
    ensures SelectAny(t, lem, token, msd) == SelectByMsd(t, msd.value)
  {
    var a := SelectAny(t, lem, token, msd);
    var b := SelectByMsd(t, msd.value);
    forall x
      ensures x in a <==> x in b
    {
      assert MeetsCriteria(x, lem, token, msd) <==> Like(Normalize(msd.value), x.msd);
    }
  }

  /** The clauses are joined by AND: with all three criteria given,
      `select_any` is the intersection of the three single queries. */
  lemma SelectAnyIsConjunction(t: Table, lem: Option<string>, token: Option<string>, msd: Option<string>)
    requires Given(lem) && Given(token) && Given(msd)
    ensures SelectAny(t, lem, token, msd)
         == SelectByLemma(t, lem.value) * SelectByToken(t, token.value) * SelectByMsd(t, msd.value)
  {
    var a := SelectAny(t, lem, token, msd);
    var b := SelectByLemma(t, lem.value) * SelectByToken(t, token.value) * SelectByMsd(t, msd.value);
    forall x
      ensures x in a <==> x in b
    {
      assert MeetsCriteria(x, lem, token, msd)
         <==> Like(lem.value, x.lem) && Like(token.value, x.token) && Like(Normalize(msd.value), x.msd);
    }
  }

  /** An empty string is no criterion at all, exactly like a missing one. */
  lemma SelectAnyEmptyIsAbsent(t: Table, lem: Option<string>, token: Option<string>, msd: Option<string>)
    requires lem == Some("") || lem == None
    ensures SelectAny(t, lem, token, msd) == SelectAny(t, None, token, msd)
  {
    var a := SelectAny(t, lem, token, msd);
    var b := SelectAny(t, None, token, msd);
    forall x
      ensures x in a <==> x in b
    {
      EmptyLemmaImposesNothing(x, lem, token, msd);
    }
  }

  lemma EmptyLemmaImposesNothing(x: Triple, lem: Option<string>, token: Option<string>, msd: Option<string>)
    requires !Given(lem)
    ensures MeetsCriteria(x, lem, token, msd) <==> MeetsCriteria(x, None, token, msd)
  {
  }

  // Inserting

  /** Inserting a triple a second time is reported as a duplicate and
      changes nothing, and the triple is then found by its own lemma and
      token. */
  lemma InsertTwice(t: Table, x: Triple)
    ensures var once := InsertTriple(t, x).table;
            var twice := InsertTriple(once, x);
            && twice.outcome == SkippedDuplicate
            && twice.table == once
            && x in SelectByLemma(once, x.lem)
            && x in SelectByToken(once, x.token)
  {
    FoundByOwnFields(InsertTriple(t, x).table, x);
  }

  /** `count_tokens` grows by one exactly when the insert stores a new
      triple. */
  lemma CountAfterInsert(t: Table, x: Triple)
    ensures CountTokens(InsertTriple(t, x).table) == CountTokens(t) + (if x in t then 0 else 1)
  {
  }

  /** A triple repeated within a batch is reported at its second occurrence
      only: inserting `[a, a, b]` into a table holding neither reports `a`
      once, and stores both. */
  lemma RepeatInBatch(t: Table, a: Triple, b: Triple)
    requires a != b && a !in t && b !in t
    ensures Clashing(t, [a, a, b], 3) == [a]
    ensures t + Members([a, a, b]) == t + {a, b}
  {
    var batch := [a, a, b];
    assert batch[..0] == [] && batch[..1] == [a] && batch[..2] == [a, a];
    assert !Clashes(t, batch, 0);
    assert Clashes(t, batch, 1);
    assert !Clashes(t, batch, 2);
    assert Clashing(t, batch, 1) == [];
    assert Clashing(t, batch, 2) == [a];
    assert forall y :: y in batch <==> y == a || y == b;
  }

  // Deleting

  /** The table splits into the rows the delete keeps and the rows with the
      deleted lemma. */
  lemma DeleteCount(t: Table, lem: string)
    ensures CountTokens(t) == CountTokens(DeleteByLemma(t, lem)) + |set x | x in t && x.lem == lem|
  {
    var kept := DeleteByLemma(t, lem);
    var gone := set x | x in t && x.lem == lem;
    assert t == kept + gone;
    assert kept * gone == {};
  }

  /** Deleting a lemma twice is the same as deleting it once. */
  lemma DeleteIdempotent(t: Table, lem: string)
    ensures DeleteByLemma(DeleteByLemma(t, lem), lem) == DeleteByLemma(t, lem)
  {
    var once := DeleteByLemma(t, lem);
    assert forall x :: x in DeleteByLemma(once, lem) <==> x in once;
  }

  /** Deleting the lemma of a triple just inserted undoes the insert, and
      leaves every other lemma's rows alone. */
  lemma DeleteAfterInsert(t: Table, x: Triple)
    ensures DeleteByLemma(InsertTriple(t, x).table, x.lem) == DeleteByLemma(t, x.lem)
  {
    var t' := InsertTriple(t, x).table;
    assert t' == t + {x};
    assert forall y :: y in DeleteByLemma(t', x.lem) <==> y in DeleteByLemma(t, x.lem);
  }

  /** After a delete, the lemma is gone from `select_lemmas` and every other
      lemma is still there; `count_lemmas` drops by one exactly when the
      lemma was present. */
  lemma LemmasAfterDelete(t: Table, lem: string)
    ensures SelectLemmas(DeleteByLemma(t, lem)) == SelectLemmas(t) - {lem}
    ensures CountLemmas(DeleteByLemma(t, lem)) == CountLemmas(t) - (if lem in SelectLemmas(t) then 1 else 0)
  {
    var d := DeleteByLemma(t, lem);
    forall l | l in SelectLemmas(t) - {lem}
      ensures l in SelectLemmas(d)
    {
      var x :| x in t && x.lem == l;
      assert x in d;
    }
    assert SelectLemmas(d) == SelectLemmas(t) - {lem};
  }

  /** The delete compares lemmas exactly while the lemma query uses `LIKE`:
      the row of lemma "Run" survives deleting "run", although
      `select_by_lemma("run")` finds it. */
  lemma DeleteIsExact()
    ensures var t := {Triple("Run", "Runs", "Vmip3s")};
            && DeleteByLemma(t, "run") == t
            && SelectByLemma(t, "run") == t
  {
    var x := Triple("Run", "Runs", "Vmip3s");
    var t := {x};
    assert DeleteByLemma(t, "run") == t;
    assert FoldAscii('R') == 'r';
    assert Like("run", x.lem);
  }

  // Grouping

  /** A requested lemma with no rows still gets an empty list, next to the
      rows of the lemma that has some: requesting "run" and "walk" with one
      row of lemma "run" gives that row under "run" and `[]` under "walk". */
  lemma LemmaGroupingExample(a: Triple, other: string)
    requires other != a.lem
    ensures var r := GroupByLemma([a], [a.lem, other], true);
            && r.groups.Keys == {a.lem, other}
            && r.groups[a.lem] == [a]
            && r.groups[other] == []
  {
    assert KeysOf([a], LemmaKey) == {a.lem};
    assert KeepKey([a], LemmaKey, a.lem) == [a];
    assert KeepKey([a], LemmaKey, other) == [];
  }

  /** The grouping `select_by_tokens` performs as written, for a requested
      token with capitals (such as "Run") and a fetched row whose token
      equals it up to case (such as "Run" itself, which the exact fetch
      returns): the row lands under the lower-cased token, while the
      requested token is a key of its own that maps to `[]`. */
  lemma TokensAsWrittenMissLowercasedKey(a: Triple, tok: string)
    requires NocaseEq(a.token, tok) && Lower(tok) != tok
    ensures var r := GroupByTokenAsWritten([a], [tok], true);
            && r.groups.Keys == {tok, Lower(tok)}
            && r.groups[tok] == []
            && r.groups[Lower(tok)] == [a]
  {
    SingleRowKeys(a, tok);
    CapitalsNeverKeys([a], tok);
  }

  /** One fetched row whose token equals `tok` up to case: its key is the
      lower-cased `tok`, and it is the only row under that key. */
  lemma SingleRowKeys(a: Triple, tok: string)
    requires NocaseEq(a.token, tok)
    ensures KeysOf([a], TokenKey) == {Lower(tok)}
    ensures KeepKey([a], TokenKey, Lower(tok)) == [a]
  {
    assert TokenKey(a) == Lower(tok);
    assert [a][1..] == [];
  }

  /** The `IN` fetch as written compares exactly: a row whose token differs
      from the requested one only in case is not fetched, although the
      case-insensitive fetch finds it. */
  lemma ExactFetchMissesOtherCase(t: Table, x: Triple, tok: string)
    requires x in t && NocaseEq(x.token, tok) && x.token != tok
    ensures x !in TokenMembersAsWritten(t, [tok])
    ensures x in TokenMembers(t, [tok])
  {
    assert tok in [tok];
  }

  /** The corrected grouping on the same input: the only key is the
      lower-cased token, and the row is under it. */
  lemma TokensCorrectedFindLowercasedKey(a: Triple, tok: string)
    requires NocaseEq(a.token, tok)
    ensures var r := GroupByToken([a], [tok], true);
            && r.groups.Keys == {Lower(tok)}
            && r.groups[Lower(tok)] == [a]
  {
    SingleRowKeys(a, tok);
    assert (set t | t in [tok] :: Lower(t)) == {Lower(tok)};
  }

  /** "Run" is a token with a capital: it is not its own lower-cased form,
      and "run" equals it up to case although the two differ. */
  lemma CapitalisedToken()
    ensures Lower("Run") == "run" && Lower("Run") != "Run"
    ensures NocaseEq("run", "Run")
  {
    assert FoldAscii('R') == 'r';
    assert Lower("Run")[0] == 'r' && Lower("Run")[1] == 'u' && Lower("Run")[2] == 'n';
    assert Lower("run")[0] == 'r' && Lower("run")[1] == 'u' && Lower("run")[2] == 'n';
  }

  /** The two groupings agree whenever every requested token is already in
      lower case, which is why the difference shows only for tokens with
      capitals. */
  lemma TokenGroupingsAgreeOnLowerCase(rows: seq<Triple>, tokens: seq<string>, groupBy: bool)
    requires forall tok :: tok in tokens ==> Lower(tok) == tok
    ensures GroupByTokenAsWritten(rows, tokens, groupBy) == GroupByToken(rows, tokens, groupBy)
  {
    if groupBy {
      var a := GroupByTokenAsWritten(rows, tokens, groupBy).groups;
      var b := GroupByToken(rows, tokens, groupBy).groups;
      LowerCaseKeys(tokens);
      assert a.Keys == b.Keys;
      forall k | k in a
        ensures a[k] == b[k]
      {
      }
      assert a == b;
    }
  }

  lemma LowerCaseKeys(tokens: seq<string>)
    requires forall tok :: tok in tokens ==> Lower(tok) == tok
    ensures (set tok | tok in tokens :: Lower(tok)) == set tok | tok in tokens
  {
    forall k | k in set tok | tok in tokens :: Lower(tok)
      ensures k in tokens
    {
      var tok :| tok in tokens && Lower(tok) == k;
    }
  }
}
