/** The WHERE clause `select_any` assembles from its optional criteria:
    the clause list and the parameter list, built side by side. */
module Filters {
  import opened Patterns
  import opened Msd
  import opened Words

  /** An optional keyword argument (`None` when the caller leaves it out). */
  datatype Option<T> = None | Some(value: T)

  /** The columns `select_any` can constrain. */
  datatype Column = LemmaColumn | TokenColumn | MsdColumn

  function Field(x: Triple, c: Column): string {
    match c
    case LemmaColumn => x.lem
    case TokenColumn => x.token
    case MsdColumn => x.msd
  }

  /** The order in which `select_any` considers the columns. */
  function Rank(c: Column): nat {
    match c
    case LemmaColumn => 0
    case TokenColumn => 1
    case MsdColumn => 2
  }

  /** The two lists `select_any` builds side by side: the `col LIKE ?`
      clauses, joined by AND, and the values bound to their placeholders. */
  datatype Where = Where(columns: seq<Column>, params: seq<string>)

  /** Python truthiness of an optional string: present and non-empty. */
  predicate Given(o: Option<string>) {
    o.Some? && o.value != ""
  }

  function ValueOr(o: Option<string>): string {
    if o.Some? then o.value else ""
  }

  /** The value a clause on column `c` is bound to: the lemma and the token
      as given, the msd normalised. */
  function Param(c: Column, lem: Option<string>, token: Option<string>, msd: Option<string>): string {
    match c
    case LemmaColumn => ValueOr(lem)
    case TokenColumn => ValueOr(token)
    case MsdColumn => Normalize(ValueOr(msd))
  }

  /** The clauses are in rank order and each placeholder is bound to the
      value belonging to its column. */
  predicate Aligned(w: Where, lem: Option<string>, token: Option<string>, msd: Option<string>) {
    && |w.columns| == |w.params|
    && (forall i :: 0 < i < |w.columns| ==> Rank(w.columns[i - 1]) < Rank(w.columns[i]))
    && (forall i :: 0 <= i < |w.columns| ==> w.params[i] == Param(w.columns[i], lem, token, msd))
  }

  /** Appends the clause on `c` bound to `param` when `given` holds. */
  function AddIf(w: Where, given: bool, c: Column, param: string): (r: Where)
    ensures r.columns == w.columns + (if given then [c] else [])
    ensures r.params == w.params + (if given then [param] else [])
    ensures forall d :: d in r.columns <==> d in w.columns || (given && d == c)
  {
    if given then Where(w.columns + [c], w.params + [param]) else w
  }

  /** The rank of the last clause, or -1 when there is none. */
  function LastRank(w: Where): int {
    if |w.columns| == 0 then -1 else Rank(w.columns[|w.columns| - 1])
  }

  /** Appending a clause of higher rank, bound to its column's value, keeps
      the lists aligned. */
  lemma AddIfAligned(w: Where, given: bool, c: Column, param: string,
                     lem: Option<string>, token: Option<string>, msd: Option<string>)
    requires Aligned(w, lem, token, msd)
    requires LastRank(w) < Rank(c)
    requires given ==> param == Param(c, lem, token, msd)
    ensures Aligned(AddIf(w, given, c, param), lem, token, msd)
    ensures LastRank(AddIf(w, given, c, param)) <= Rank(c)
  {
    var w' := AddIf(w, given, c, param);
    if given {
      var n := |w.columns|;
      forall i | 0 <= i < |w'.columns|
        ensures w'.params[i] == Param(w'.columns[i], lem, token, msd)
      {
        if i < n {
          assert w'.params[i] == w.params[i] && w'.columns[i] == w.columns[i];
        }
      }
      forall i | 0 < i < |w'.columns|
        ensures Rank(w'.columns[i - 1]) < Rank(w'.columns[i])
      {
        if i < n {
          assert w'.columns[i - 1] == w.columns[i - 1] && w'.columns[i] == w.columns[i];
        } else {
          assert w'.columns[i - 1] == w.columns[n - 1];
        }
      }
    }
  }

  /** The clause and parameter lists of `select_any`: one aligned pair per
      given criterion, at most three, in the order lemma, token, msd, with
      the msd bound to its normalised form. */
  function BuildWhere(lem: Option<string>, token: Option<string>, msd: Option<string>): (w: Where)
    ensures Aligned(w, lem, token, msd) && |w.columns| <= 3
    ensures LemmaColumn in w.columns <==> Given(lem)
    ensures TokenColumn in w.columns <==> Given(token)
    ensures MsdColumn in w.columns <==> Given(msd)
  {
    var w0 := Where([], []);
    var w1 := AddIf(w0, Given(lem), LemmaColumn, ValueOr(lem));
    var w2 := AddIf(w1, Given(token), TokenColumn, ValueOr(token));
    var w3 := AddIf(w2, Given(msd), MsdColumn, Normalize(ValueOr(msd)));
    assert |w3.columns| <= 3;
    assert Aligned(w3, lem, token, msd) by {
      AddIfAligned(w0, Given(lem), LemmaColumn, ValueOr(lem), lem, token, msd);
      AddIfAligned(w1, Given(token), TokenColumn, ValueOr(token), lem, token, msd);
      AddIfAligned(w2, Given(msd), MsdColumn, Normalize(ValueOr(msd)), lem, token, msd);
    }
    w3
  }

  /** A row satisfies every clause of the filter. */
  predicate Satisfies(x: Triple, w: Where)
    requires |w.columns| == |w.params|
  {
    forall i :: 0 <= i < |w.columns| ==> Like(w.params[i], Field(x, w.columns[i]))
  }
}
