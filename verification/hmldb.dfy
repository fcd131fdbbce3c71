/** The `HmlDB` annotation store, with the SQLite `words` table replaced by
    the set of its rows. Queries are functions of the table; inserts and
    deletes return the new table. */
module HmlDb {
  import opened Strings
  import opened Patterns
  import opened Msd
  import opened Words
  import opened Grouping
  import opened Filters

  /** The `words` table. Its primary key is the whole triple, so it holds
      each triple at most once: it is the set of its rows. */
  type Table = set<Triple>

  /** A membership query returns the grouped mapping when `group_by` is
      true, and the fetched rows unchanged otherwise. */
  datatype Fetched = Groups(groups: map<string, seq<Triple>>) | Rows(rows: seq<Triple>)

  /** Whether an insert stored the triple or swallowed a primary-key clash
      (the store prints the `IntegrityError` and carries on). */
  datatype Outcome = Stored | SkippedDuplicate

  datatype InsertResult = InsertResult(table: Table, outcome: Outcome)

  // Counting

  /** `SELECT COUNT(token) FROM words`: the number of rows, not of distinct
      tokens (no field is ever NULL in this model). */
  function CountTokens(t: Table): nat {
    |t|
  }

  /** `SELECT DISTINCT lemma FROM words`. */
  function SelectLemmas(t: Table): (r: set<string>)
    ensures forall x :: x in t ==> x.lem in r
    ensures forall l :: l in r ==> exists x :: x in t && x.lem == l
    ensures |r| <= |t|
  {
    DistinctLemmasBound(t);
    set x | x in t :: x.lem
  }

  lemma {:induction false} DistinctLemmasBound(t: Table)
    ensures |set x | x in t :: x.lem| <= |t|
    decreases t
  {
    if t != {} {
      var y :| y in t;
      var rest := t - {y};
      DistinctLemmasBound(rest);
      assert (set x | x in t :: x.lem) == (set x | x in rest :: x.lem) + {y.lem};
    }
  }

  /** `SELECT COUNT(DISTINCT lemma) FROM words`. The aggregate always yields
      one row, so the source's fallback to 0 for a missing row is never
      taken; an empty table gives 0 through the count itself. */
  function CountLemmas(t: Table): (n: nat)
    ensures n <= CountTokens(t)
    ensures n == 0 <==> CountTokens(t) == 0
  {
    var lemmas := SelectLemmas(t);
    assert t != {} ==> lemmas != {} by {
      if t != {} {
        var y :| y in t;
        assert y.lem in lemmas;
      }
    }
    |lemmas|
  }

  // Pattern queries

  /** `SELECT * FROM words`. */
  function SelectAll(t: Table): Table {
    t
  }

  /** `SELECT * FROM words WHERE lemma LIKE ?`. */
  function SelectByLemma(t: Table, pattern: string): (r: Table)
    ensures forall x :: x in r <==> x in t && Like(pattern, x.lem)
  {
    set x | x in t && Like(pattern, x.lem)
  }

  /** `SELECT * FROM words WHERE token LIKE ?`. */
  function SelectByToken(t: Table, pattern: string): (r: Table)
    ensures forall x :: x in r <==> x in t && Like(pattern, x.token)
  {
    set x | x in t && Like(pattern, x.token)
  }

  /** `SELECT * FROM words WHERE msd LIKE ?` with the descriptor normalised
      into a prefix pattern first. */
  function SelectByMsd(t: Table, msd: string): (r: Table)
    ensures forall x :: x in r <==> x in t && Like(Normalize(msd), x.msd)
  {
    set x | x in t && Like(Normalize(msd), x.msd)
  }

  // Membership queries

  function LemmaKey(x: Triple): string {
    x.lem
  }

  /** Rows are grouped under their token lower-cased (Python's `lower()`,
      taken here on ASCII letters, the same folding NOCASE applies). */
  function TokenKey(x: Triple): string {
    Lower(x.token)
  }

  /** Equality under SQLite's NOCASE collation. */
  predicate NocaseEq(a: string, b: string) {
    Lower(a) == Lower(b)
  }

  /** `SELECT * FROM words WHERE lemma IN (...)`: exact membership. */
  function LemmaMembers(t: Table, lemmas: seq<string>): Table {
    set x | x in t && x.lem in lemmas
  }

  /** `SELECT * FROM words WHERE token IN (...) COLLATE NOCASE` as SQLite
      reads it: the postfix `COLLATE` applies to the truth value of the whole
      `IN` expression, so the comparisons keep the `token` column's BINARY
      collation and the fetch is exact membership. */
  function TokenMembersAsWritten(t: Table, tokens: seq<string>): Table {
    set x | x in t && x.token in tokens
  }

  /** Membership under the NOCASE collation: the fetch the trailing
      `COLLATE NOCASE` is evidently meant to give. */
  function TokenMembers(t: Table, tokens: seq<string>): Table {
    set x | x in t && exists tok :: tok in tokens && NocaseEq(x.token, tok)
  }

  /** The grouping step of `select_by_lemmas` on the fetched rows. Each list
      is exactly the fetched rows with that lemma, in fetch order, and the
      keys are the requested lemmas plus the lemmas of the rows. */
  function GroupByLemma(rows: seq<Triple>, lemmas: seq<string>, groupBy: bool): (r: Fetched)
    ensures !groupBy ==> r == Rows(rows)
    ensures groupBy ==> r.Groups?
    ensures groupBy ==> r.groups.Keys == (set l | l in lemmas) + KeysOf(rows, LemmaKey)
    ensures groupBy ==> forall l :: l in r.groups ==> r.groups[l] == KeepKey(rows, LemmaKey, l)
  {
    if groupBy then
      GroupWithMissing(rows, LemmaKey, lemmas);
      Groups(AddMissing(Group(rows, LemmaKey), lemmas))
    else
      Rows(rows)
  }

  /** `select_by_lemmas(lemmas, group_by)`. Grouped, the keys are exactly the
      requested lemmas, and each maps to the table's rows with that lemma,
      each once; ungrouped, the rows of all requested lemmas, each once. */
  method SelectByLemmas(t: Table, lemmas: seq<string>, groupBy: bool) returns (r: Fetched)
    ensures !groupBy ==> r.Rows? && Enumerates(r.rows, LemmaMembers(t, lemmas))
    ensures groupBy ==> r.Groups? && r.groups.Keys == set l | l in lemmas
    ensures groupBy ==> forall l :: l in r.groups ==> Enumerates(r.groups[l], set x | x in t && x.lem == l)
  {
    var rows := Fetch(LemmaMembers(t, lemmas));
    r := GroupByLemma(rows, lemmas, groupBy);
    if groupBy {
      forall l | l in r.groups
        ensures Enumerates(r.groups[l], set x | x in t && x.lem == l)
      {
        KeepKeyDistinct(rows, LemmaKey, l);
      }
    }
  }

  /** The grouping step of `select_by_tokens` as the source writes it: rows
      go under their lower-cased token, but the requested tokens are added
      as keys verbatim. */
  function GroupByTokenAsWritten(rows: seq<Triple>, tokens: seq<string>, groupBy: bool): (r: Fetched)
    ensures !groupBy ==> r == Rows(rows)
    ensures groupBy ==> r.Groups?
    ensures groupBy ==> r.groups.Keys == (set tok | tok in tokens) + KeysOf(rows, TokenKey)
    ensures groupBy ==> forall k :: k in r.groups ==> r.groups[k] == KeepKey(rows, TokenKey, k)
  {
    if groupBy then
      GroupWithMissing(rows, TokenKey, tokens);
      Groups(AddMissing(Group(rows, TokenKey), tokens))
    else
      Rows(rows)
  }

  /** `select_by_tokens(tokens, group_by)` as written: the exact `IN` fetch,
      then the grouping with the requested tokens added verbatim. Grouped,
      the keys are the requested tokens together with the lower-cased tokens
      of the fetched rows, each key lists the fetched rows whose lower-cased
      token it is, and a requested token with capitals maps to `[]`. */
  method SelectByTokensAsWritten(t: Table, tokens: seq<string>, groupBy: bool) returns (r: Fetched)
    ensures !groupBy ==> r.Rows? && Enumerates(r.rows, TokenMembersAsWritten(t, tokens))
    ensures groupBy ==> r.Groups?
    ensures groupBy ==> r.groups.Keys == (set tok | tok in tokens) + (set x | x in TokenMembersAsWritten(t, tokens) :: Lower(x.token))
    ensures groupBy ==> forall k :: k in r.groups ==>
              Enumerates(r.groups[k], set x | x in TokenMembersAsWritten(t, tokens) && Lower(x.token) == k)
    ensures groupBy ==> forall tok :: tok in tokens && Lower(tok) != tok ==> r.groups[tok] == []
  {
    var rows := Fetch(TokenMembersAsWritten(t, tokens));
    r := GroupByTokenAsWritten(rows, tokens, groupBy);
    if groupBy {
      ExactTokenKeys(rows, TokenMembersAsWritten(t, tokens));
      forall k | k in r.groups
        ensures Enumerates(r.groups[k], set x | x in TokenMembersAsWritten(t, tokens) && Lower(x.token) == k)
      {
        ExactTokenGroup(rows, TokenMembersAsWritten(t, tokens), k);
      }
      forall tok | tok in tokens && Lower(tok) != tok
        ensures r.groups[tok] == []
      {
        CapitalsNeverKeys(rows, tok);
      }
    }
  }

  /** The keys of rows enumerating a result set are its lower-cased tokens. */
  lemma ExactTokenKeys(rows: seq<Triple>, m: Table)
    requires Enumerates(rows, m)
    ensures KeysOf(rows, TokenKey) == set x | x in m :: Lower(x.token)
  {
  }

  /** The rows under key `k` enumerate the result set's rows with that key. */
  lemma ExactTokenGroup(rows: seq<Triple>, m: Table, k: string)
    requires Enumerates(rows, m)
    ensures Enumerates(KeepKey(rows, TokenKey, k), set x | x in m && Lower(x.token) == k)
  {
    KeepKeyDistinct(rows, TokenKey, k);
  }

  /** A token that lower-casing changes is never the key of a row. */
  lemma CapitalsNeverKeys(rows: seq<Triple>, tok: string)
    requires Lower(tok) != tok
    ensures KeepKey(rows, TokenKey, tok) == []
  {
    forall x | x in rows
      ensures TokenKey(x) != tok
    {
      LowerIdempotent(x.token);
    }
    KeepKeyAbsent(rows, TokenKey, tok);
  }

  function LowerAll(tokens: seq<string>): (r: seq<string>)
    ensures (set k | k in r) == set tok | tok in tokens :: Lower(tok)
  {
    var r := seq(|tokens|, i requires 0 <= i < |tokens| => Lower(tokens[i]));
    assert forall tok :: tok in tokens ==> Lower(tok) in r by {
      forall tok | tok in tokens ensures Lower(tok) in r {
        var i :| 0 <= i < |tokens| && tokens[i] == tok;
        assert r[i] == Lower(tok);
      }
    }
    r
  }

  /** The grouping step of `select_by_tokens` with the requested tokens
      lower-cased before they are added as keys, so that every requested
      token finds its rows under the key its own rows are grouped by. */
  function GroupByToken(rows: seq<Triple>, tokens: seq<string>, groupBy: bool): (r: Fetched)
    ensures !groupBy ==> r == Rows(rows)
    ensures groupBy ==> r.Groups?
    ensures groupBy ==> r.groups.Keys == (set tok | tok in tokens :: Lower(tok)) + KeysOf(rows, TokenKey)
    ensures groupBy ==> forall k :: k in r.groups ==> r.groups[k] == KeepKey(rows, TokenKey, k)
  {
    if groupBy then
      var keys := LowerAll(tokens);
      GroupWithMissing(rows, TokenKey, keys);
      Groups(AddMissing(Group(rows, TokenKey), keys))
    else
      Rows(rows)
  }

  /** `select_by_tokens(tokens, group_by)`, grouping with the requested
      tokens lower-cased. Grouped, the keys are exactly the lower-cased
      requested tokens, and each requested token's key maps to the table's
      rows whose token equals it ignoring ASCII case, each once. */
  method SelectByTokens(t: Table, tokens: seq<string>, groupBy: bool) returns (r: Fetched)
    ensures !groupBy ==> r.Rows? && Enumerates(r.rows, TokenMembers(t, tokens))
    ensures groupBy ==> r.Groups? && r.groups.Keys == set tok | tok in tokens :: Lower(tok)
    ensures groupBy ==> forall tok :: tok in tokens ==>
              Enumerates(r.groups[Lower(tok)], set x | x in t && NocaseEq(x.token, tok))
  {
    var rows := Fetch(TokenMembers(t, tokens));
    r := GroupByToken(rows, tokens, groupBy);
    if groupBy {
      FetchedTokenKeys(t, tokens, rows);
      forall tok | tok in tokens
        ensures Enumerates(r.groups[Lower(tok)], set x | x in t && NocaseEq(x.token, tok))
      {
        FetchedTokenGroup(t, tokens, rows, tok);
      }
    }
  }

  /** Every fetched row's key is the key of some requested token. */
  lemma FetchedTokenKeys(t: Table, tokens: seq<string>, rows: seq<Triple>)
    requires Enumerates(rows, TokenMembers(t, tokens))
    ensures KeysOf(rows, TokenKey) <= set tok | tok in tokens :: Lower(tok)
  {
    forall x | x in rows
      ensures TokenKey(x) in set tok | tok in tokens :: Lower(tok)
    {
      var tok :| tok in tokens && NocaseEq(x.token, tok);
    }
  }

  /** The fetched rows under a requested token's key are the table's rows
      with that token up to case, each once. */
  lemma FetchedTokenGroup(t: Table, tokens: seq<string>, rows: seq<Triple>, tok: string)
    requires Enumerates(rows, TokenMembers(t, tokens)) && tok in tokens
    ensures Enumerates(KeepKey(rows, TokenKey, Lower(tok)), set x | x in t && NocaseEq(x.token, tok))
  {
    KeepKeyDistinct(rows, TokenKey, Lower(tok));
  }

  // The general filter

  /** The meaning of `select_any`'s criteria taken one by one: each given
      criterion must match, and an absent or empty one imposes nothing. */
  predicate MeetsCriteria(x: Triple, lem: Option<string>, token: Option<string>, msd: Option<string>) {
    && (Given(lem) ==> Like(lem.value, x.lem))
    && (Given(token) ==> Like(token.value, x.token))
    && (Given(msd) ==> Like(Normalize(msd.value), x.msd))
  }

  /** A row satisfying the filter satisfies the clause on each of its columns. */
  lemma ClauseHolds(x: Triple, c: Column, w: Where)
    requires |w.columns| == |w.params| && Satisfies(x, w) && c in w.columns
    ensures exists i :: 0 <= i < |w.columns| && w.columns[i] == c && Like(w.params[i], Field(x, c))
  {
    var i :| 0 <= i < |w.columns| && w.columns[i] == c;
    assert Like(w.params[i], Field(x, c));
  }

  lemma SatisfiedClausesMeetCriteria(x: Triple, lem: Option<string>, token: Option<string>, msd: Option<string>, w: Where)
    requires Aligned(w, lem, token, msd)
    requires LemmaColumn in w.columns <==> Given(lem)
    requires TokenColumn in w.columns <==> Given(token)
    requires MsdColumn in w.columns <==> Given(msd)
    requires Satisfies(x, w)
    ensures MeetsCriteria(x, lem, token, msd)
  {
    if Given(lem) {
      ClauseHolds(x, LemmaColumn, w);
    }
    if Given(token) {
      ClauseHolds(x, TokenColumn, w);
    }
    if Given(msd) {
      ClauseHolds(x, MsdColumn, w);
    }
  }

  lemma CriteriaSatisfyClauses(x: Triple, lem: Option<string>, token: Option<string>, msd: Option<string>, w: Where)
    requires Aligned(w, lem, token, msd)
    requires LemmaColumn in w.columns <==> Given(lem)
    requires TokenColumn in w.columns <==> Given(token)
    requires MsdColumn in w.columns <==> Given(msd)
    requires MeetsCriteria(x, lem, token, msd)
    ensures Satisfies(x, w)
  {
    forall i | 0 <= i < |w.columns|
      ensures Like(w.params[i], Field(x, w.columns[i]))
    {
      var c := w.columns[i];
      assert c in w.columns;
      match c
      case LemmaColumn => assert w.params[i] == lem.value;
      case TokenColumn => assert w.params[i] == token.value;
      case MsdColumn => assert w.params[i] == Normalize(msd.value);
    }
  }

  lemma SatisfiesBuiltWhere(x: Triple, lem: Option<string>, token: Option<string>, msd: Option<string>)
    ensures var w := BuildWhere(lem, token, msd);
            Satisfies(x, w) <==> MeetsCriteria(x, lem, token, msd)
  {
    WhereMeansCriteria(x, lem, token, msd, BuildWhere(lem, token, msd));
  }

  /** An aligned filter with a clause for exactly the given criteria holds
      of a row exactly when the row meets those criteria. */
  lemma WhereMeansCriteria(x: Triple, lem: Option<string>, token: Option<string>, msd: Option<string>, w: Where)
    requires Aligned(w, lem, token, msd)
    requires LemmaColumn in w.columns <==> Given(lem)
    requires TokenColumn in w.columns <==> Given(token)
    requires MsdColumn in w.columns <==> Given(msd)
    ensures Satisfies(x, w) <==> MeetsCriteria(x, lem, token, msd)
  {
    if Satisfies(x, w) {
      SatisfiedClausesMeetCriteria(x, lem, token, msd, w);
    }
    if MeetsCriteria(x, lem, token, msd) {
      CriteriaSatisfyClauses(x, lem, token, msd, w);
    }
  }

  /** `select_any(lemma, token, msd)`: the rows meeting every given
      criterion; with none given it is `SELECT * FROM words`. */
  function SelectAny(t: Table, lem: Option<string>, token: Option<string>, msd: Option<string>): (r: Table)
    ensures forall x {:trigger x in r} :: x in r <==> x in t && MeetsCriteria(x, lem, token, msd)
    ensures !Given(lem) && !Given(token) && !Given(msd) ==> r == SelectAll(t)
  {
    var w := BuildWhere(lem, token, msd);
    assert forall x :: Satisfies(x, w) <==> MeetsCriteria(x, lem, token, msd) by {
      forall x ensures Satisfies(x, w) <==> MeetsCriteria(x, lem, token, msd) {
        SatisfiesBuiltWhere(x, lem, token, msd);
      }
    }
    if |w.params| == 0 then SelectAll(t)
    else set x | x in t && Satisfies(x, w)
  }

  // Inserting and deleting

  /** `insert_triple(triple)`: a new triple is stored; one already present
      clashes with the primary key, is reported and skipped, and leaves the
      table as it was. */
  function InsertTriple(t: Table, x: Triple): (r: InsertResult)
    ensures x in r.table
    ensures r.outcome == SkippedDuplicate <==> x in t
    ensures r.outcome == SkippedDuplicate ==> r.table == t
    ensures r.outcome == Stored ==> r.table - {x} == t && |r.table| == |t| + 1
  {
    if x in t then InsertResult(t, SkippedDuplicate) else InsertResult(t + {x}, Stored)
  }

  /** Triple `i` of a batch clashes with the primary key: it is already in
      the table, or an earlier triple of the batch equals it. */
  predicate Clashes(t: Table, batch: seq<Triple>, i: nat)
    requires i < |batch|
  {
    batch[i] in t || batch[i] in batch[..i]
  }

  /** The triples among the first `n` of a batch that clash, in batch
      order: the ones the source reports, each time it meets one. */
  function Clashing(t: Table, batch: seq<Triple>, n: nat): (r: seq<Triple>)
    requires n <= |batch|
    ensures |r| <= n
  {
    if n == 0 then []
    else Clashing(t, batch, n - 1) + (if Clashes(t, batch, n - 1) then [batch[n - 1]] else [])
  }

  /** What `insert_triples` has established after the first `i` triples of
      the batch. */
  ghost predicate InsertedUpTo(t: Table, batch: seq<Triple>, i: nat, table: Table, skipped: seq<Triple>) {
    && i <= |batch|
    && table == t + Members(batch[..i])
    && skipped == Clashing(t, batch, i)
    && |table| + |skipped| == |t| + i
  }

  /** Every reported triple comes from the batch. */
  lemma {:induction false} ClashingFromBatch(t: Table, batch: seq<Triple>, n: nat)
    requires n <= |batch|
    ensures forall x :: x in Clashing(t, batch, n) ==> x in batch
  {
    if n > 0 {
      ClashingFromBatch(t, batch, n - 1);
    }
  }

  /** Nothing is reported exactly when no triple clashes. */
  lemma {:induction false} ClashingEmpty(t: Table, batch: seq<Triple>, n: nat)
    requires n <= |batch|
    ensures Clashing(t, batch, n) == [] <==> forall j :: 0 <= j < n ==> !Clashes(t, batch, j)
  {
    if n > 0 {
      ClashingEmpty(t, batch, n - 1);
      NoClashesSnoc(t, batch, n - 1);
    }
  }

  lemma MembersSnoc(rows: seq<Triple>, x: Triple)
    ensures Members(rows + [x]) == Members(rows) + {x}
  {
    assert forall y :: y in rows + [x] <==> y in rows || y == x;
  }

  /** Triple `i` clashes exactly when it is already in the table the loop
      has built from the triples before it. */
  lemma ClashesWhenPresent(t: Table, batch: seq<Triple>, i: nat)
    requires i < |batch|
    ensures Clashes(t, batch, i) <==> batch[i] in t + Members(batch[..i])
  {
    assert batch[i] in batch[..i] <==> batch[i] in Members(batch[..i]);
  }

  lemma NoClashesSnoc(t: Table, batch: seq<Triple>, i: nat)
    requires i < |batch|
    ensures (forall j :: 0 <= j < i + 1 ==> !Clashes(t, batch, j))
        <==> (forall j :: 0 <= j < i ==> !Clashes(t, batch, j)) && !Clashes(t, batch, i)
  {
  }

  /** One iteration of the insert loop keeps `InsertedUpTo`. */
  lemma InsertStep(t: Table, batch: seq<Triple>, i: nat, table: Table, skipped: seq<Triple>)
    requires i < |batch| && InsertedUpTo(t, batch, i, table, skipped)
    ensures var step := InsertTriple(table, batch[i]);
            InsertedUpTo(t, batch, i + 1, step.table,
                         if step.outcome == SkippedDuplicate then skipped + [batch[i]] else skipped)
  {
    var x := batch[i];
    assert batch[..i + 1] == batch[..i] + [x];
    MembersSnoc(batch[..i], x);
    ClashesWhenPresent(t, batch, i);
  }

  /** `insert_triples(triples)`: each triple is inserted on its own, and a
      clash is skipped without stopping the rest. The result is the old
      table together with the batch; `skipped` lists the clashing triples
      in batch order, a clash being a triple already present or repeated. */
  method InsertTriples(t: Table, batch: seq<Triple>) returns (table: Table, skipped: seq<Triple>)
    ensures |table| + |skipped| == |t| + |batch|
    ensures forall x :: x in skipped ==> x in batch
    ensures skipped == [] <==> forall i :: 0 <= i < |batch| ==> !Clashes(t, batch, i)
    ensures (forall x :: x in batch ==> x in t) ==> table == t && |skipped| == |batch|
    ensures skipped == Clashing(t, batch, |batch|)
    ensures table == t + Members(batch)
  {
    table := t;
    skipped := [];
    var i := 0;
    assert batch[..0] == [];
    while i < |batch|
      invariant InsertedUpTo(t, batch, i, table, skipped)
    {
      var step := InsertTriple(table, batch[i]);
      InsertStep(t, batch, i, table, skipped);
      table, skipped := step.table, if step.outcome == SkippedDuplicate then skipped + [batch[i]] else skipped;
      i := i + 1;
    }
    InsertedAll(t, batch, table, skipped);
  }

  /** Once the whole batch is inserted, the loop's invariant gives what
      `insert_triples` promises. */
  lemma InsertedAll(t: Table, batch: seq<Triple>, table: Table, skipped: seq<Triple>)
    requires InsertedUpTo(t, batch, |batch|, table, skipped)
    ensures |table| + |skipped| == |t| + |batch|
    ensures forall x :: x in skipped ==> x in batch
    ensures skipped == [] <==> forall i :: 0 <= i < |batch| ==> !Clashes(t, batch, i)
    ensures (forall x :: x in batch ==> x in t) ==> table == t && |skipped| == |batch|
    ensures skipped == Clashing(t, batch, |batch|)
    ensures table == t + Members(batch)
  {
    assert batch[..|batch|] == batch;
    ClashingFromBatch(t, batch, |batch|);
    ClashingEmpty(t, batch, |batch|);
  }

  /** `DELETE FROM words WHERE lemma = ?`: exact equality, not `LIKE`. */
  function DeleteByLemma(t: Table, lem: string): (r: Table)
    ensures r <= t
    ensures forall x :: x in r ==> x.lem != lem
    ensures forall x :: x in t && x.lem != lem ==> x in r
  {
    set x | x in t && x.lem != lem
  }
}
