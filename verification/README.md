# HmlDB annotation store, modelled in Dafny

`HmlDB` (in `wsgi/hmldb.py`) keeps morphological annotations as triples
(lemma, token, msd) in one SQLite table, `words`, whose primary key is the
whole triple. It answers counting queries, `LIKE` pattern queries on each
column, `IN` membership queries that can group their rows into a dictionary,
a general filter (`select_any`) built from optional criteria, single and
batch inserts that swallow primary-key clashes, and a delete by lemma.

The model replaces the table by the set of its rows (the primary key makes
it one). Queries are functions of that set; inserts and deletes return the
new set. Where the order of the fetched rows matters — the grouping of the
membership queries — a method `Fetch` lists a result set in an order the
store is free to choose, and everything proved holds for every order.

Modules, one per component:

- `Words` — the `Triple` row. Its lemma field is called `lem`, since
  `lemma` is a Dafny keyword.
- `Strings` — ASCII case folding, single-character `replace` and `strip`.
- `Patterns` — SQLite's `LIKE` (`%`, `_`, ASCII case-insensitive, no
  ESCAPE) as a recursive matcher, with what literal and prefix patterns mean.
- `Msd` — the descriptor rewrite `replace('-', '_').strip('%') + '%'`.
- `Grouping` — `fetchall()` and the `setdefault` grouping, stated against a
  reference filter `KeepKey`.
- `Filters` — the clause and parameter lists `select_any` builds.
- `HmlDb` — the store's operations.
- `HmlDbProperties` — facts relating several operations.

`select_by_msd` rewrites a hyphen in a descriptor to `_`, which matches any
one character: "N-c" becomes the pattern "N_c%", which finds "Nmc5" as well
as "Nac5" (`Msd.HyphenExample`).

`select_by_tokens` has two defects, logged under "Findings" below. Its
trailing `COLLATE NOCASE` does not make the `IN` comparison case-insensitive,
and it adds the requested tokens as keys without lower-casing them.
`HmlDb.SelectByTokensAsWritten` models the code as written.
`HmlDb.SelectByTokens` is the corrected operation, with a case-insensitive
fetch and lower-cased keys; the properties about token membership are
stated of it.

## Model

| member | source | states |
|---|---|---|
| `Strings.Strip` | wsgi/hmldb.py:108 | `strip('%')` leaves a string that neither starts nor ends with `%`, no longer than the input and made only of its characters; a string without `%` comes back unchanged |
| `Strings.StripIsInfix` | wsgi/hmldb.py:108 | `strip('%')` removes only the runs of `%` at the two ends: the result is a slice of the input with nothing but `%` before and after it |
| `Strings.StripUnique` | wsgi/hmldb.py:108 | a slice with only `%` before and after it that neither starts nor ends with `%` is exactly what `strip('%')` returns |
| `Msd.Normalize` | wsgi/hmldb.py:108 | the rewritten descriptor ends in `%`, contains no hyphen, and its core neither starts nor ends with `%` |
| `Msd.NormalizeTrimsEnds` | wsgi/hmldb.py:108 | the rewritten descriptor is the hyphen-rewritten input with only its leading and trailing `%` dropped, followed by one `%`; no other core is possible |
| `Msd.NormalizeIdempotent` | wsgi/hmldb.py:108 | rewriting an already rewritten descriptor gives it back unchanged |
| `Msd.NormalizedMatch` | wsgi/hmldb.py:108-109 | for a descriptor without `%` or `_`, the pattern matches an msd exactly when the msd begins with something the descriptor describes, a hyphen standing for any one character |
| `Msd.PrefixExample` | wsgi/hmldb.py:108-109 | "Ncmsn" finds "Ncmsnn" but not the shorter "Ncms" |
| `Msd.HyphenExample` | wsgi/hmldb.py:108-109 | "N-c" finds "Nac5" and "Nmc5" and not "Nc5" |
| `Patterns.LikeLiteral` | wsgi/hmldb.py:57-58 | a pattern with no wildcard matches exactly the strings equal to it up to ASCII case |
| `Patterns.LikeTrailingPercent` | wsgi/hmldb.py:108-109 | a trailing `%` turns a pattern into a match on some prefix of the value |
| `Patterns.LikeFixedWidth` | wsgi/hmldb.py:109 | a pattern without `%` matches exactly the values of its own length that agree with it at every non-`_` position |
| `Patterns.LikeReflexive` | wsgi/hmldb.py:58 | every string matches itself used as a pattern |
| `Grouping.Fetch` | wsgi/hmldb.py:67 | the fetched rows list the result set, each row exactly once |
| `Grouping.Group` | wsgi/hmldb.py:69-72 | grouping has a key for every row's key and no other, each list holds exactly the rows with that key in fetch order, and no list is empty |
| `Grouping.AddMissing` | wsgi/hmldb.py:73-74 | `setdefault` adds every requested key, leaves an existing list exactly as it was, and gives a new key `[]` |
| `Grouping.GroupWithMissing` | wsgi/hmldb.py:69-75 | after both loops, the keys are the requested ones plus the rows' keys, and each list is the fetched rows with that key, so a key without rows has `[]` |
| `Filters.BuildWhere` | wsgi/hmldb.py:117-127 | the clause list and the parameter list have equal length, at most three, in the order lemma, token, msd; each parameter belongs to its column, the msd one normalised; a clause is present exactly when its criterion is given and non-empty |
| `HmlDb.CountLemmas` | wsgi/hmldb.py:29-36 | the number of distinct lemmas is at most the number of rows, and zero exactly when the table is empty |
| `HmlDb.SelectLemmas` | wsgi/hmldb.py:45-50 | every row's lemma is listed, every listed lemma belongs to some row, and there are no more lemmas than rows |
| `HmlDbProperties.FoundByOwnFields` | wsgi/hmldb.py:53-59 | a stored row is found by `select_by_lemma` with its own lemma and by `select_by_token` with its own token |
| `HmlDbProperties.SelectByLemmaLiteral` | wsgi/hmldb.py:53-59 | a lemma without wildcards selects exactly the rows whose lemma equals it up to ASCII case |
| `HmlDbProperties.SelectByTokenLiteral` | wsgi/hmldb.py:79-84 | a token without wildcards selects exactly the rows whose token equals it up to ASCII case; these are the rows the corrected, case-insensitive `IN` fetch gives for it, and they include those the exact fetch as written gives |
| `HmlDbProperties.SelectByMsdDescribed` | wsgi/hmldb.py:104-110 | for a descriptor without `%` or `_`, `select_by_msd` returns exactly the rows whose msd begins with something the descriptor describes |
| `HmlDb.GroupByLemma` | wsgi/hmldb.py:68-77 | grouped, the keys are the requested lemmas plus the fetched rows' lemmas and each list is the fetched rows with that lemma in fetch order; ungrouped, the rows come back unchanged |
| `HmlDb.SelectByLemmas` | wsgi/hmldb.py:61-77 | grouped, the keys are exactly the requested lemmas and each lists the table's rows with that lemma once each; ungrouped, the rows of all requested lemmas once each |
| `HmlDb.GroupByTokenAsWritten` | wsgi/hmldb.py:93-102 | rows go under their lower-cased token while the requested tokens become keys verbatim, so the keys are the requested tokens plus the rows' lower-cased tokens |
| `HmlDb.GroupByToken` | wsgi/hmldb.py:93-102 | with the requested tokens lower-cased first, the keys are the lower-cased requested tokens plus the rows' keys, each list being the fetched rows with that key in fetch order |
| `HmlDb.SelectByTokensAsWritten` | wsgi/hmldb.py:86-102 | as written: the fetch is exact membership; grouped, the keys are the requested tokens verbatim plus the fetched rows' lower-cased tokens, each key lists the fetched rows whose lower-cased token it is, and a requested token with capitals maps to `[]`; ungrouped, the exactly matching rows once each |
| `HmlDb.SelectByTokens` | wsgi/hmldb.py:86-102 | the corrected operation: grouped, the keys are exactly the lower-cased requested tokens and each requested token's key lists the rows whose token equals it up to ASCII case, once each; ungrouped, all such rows once each |
| `HmlDb.SatisfiesBuiltWhere` | wsgi/hmldb.py:117-133 | a row satisfies the assembled WHERE clause exactly when it meets every given criterion |
| `HmlDb.SelectAny` | wsgi/hmldb.py:112-134 | a row is returned exactly when it meets every given criterion, and with no criterion given the result is the whole table |
| `HmlDbProperties.SelectAnyAgreesWithSingles` | wsgi/hmldb.py:112-134 | with exactly one criterion given and the others missing or empty, `select_any` returns what `select_by_lemma`, `select_by_token` or `select_by_msd` returns for it |
| `HmlDbProperties.SelectAnyIsConjunction` | wsgi/hmldb.py:129-133 | with all three criteria given, `select_any` returns the intersection of the three single queries |
| `HmlDbProperties.SelectAnyEmptyIsAbsent` | wsgi/hmldb.py:118-120 | an empty lemma gives the same rows as a missing one, whatever the other criteria |
| `HmlDb.InsertTriple` | wsgi/hmldb.py:136-144 | the triple is in the table afterwards; it is skipped exactly when it was already there, and then the table is unchanged; otherwise the table grows by that triple alone |
| `HmlDb.InsertTriples` | wsgi/hmldb.py:146-155 | the table becomes the old table together with the batch; the skipped triples are exactly the triples that clash, in batch order, a clash being a triple already in the table or equal to an earlier one of the batch; there are none exactly when no triple clashes, and a batch entirely present leaves the table unchanged with every triple skipped |
| `HmlDbProperties.RepeatInBatch` | wsgi/hmldb.py:150-154 | a batch `[a, a, b]` into a table holding neither reports `a` once, at its second occurrence, and stores both |
| `HmlDbProperties.InsertTwice` | wsgi/hmldb.py:136-144 | a second insert of the same triple is skipped and changes nothing, and the triple is found by its own lemma and token |
| `HmlDbProperties.CountAfterInsert` | wsgi/hmldb.py:22-27 | `count_tokens` grows by one exactly when the insert stores a new triple |
| `HmlDb.DeleteByLemma` | wsgi/hmldb.py:157-162 | the delete removes the rows whose lemma equals the given one exactly and keeps every other row |
| `HmlDbProperties.DeleteCount` | wsgi/hmldb.py:157-162 | the rows counted before a delete are those kept plus those with the deleted lemma |
| `HmlDbProperties.DeleteIdempotent` | wsgi/hmldb.py:157-162 | deleting a lemma twice is the same as deleting it once |
| `HmlDbProperties.DeleteAfterInsert` | wsgi/hmldb.py:157-162 | deleting the lemma of a triple just inserted gives the same table as deleting it before the insert |
| `HmlDbProperties.LemmasAfterDelete` | wsgi/hmldb.py:45-50 | after a delete the lemma is gone from `select_lemmas`, every other lemma stays, and `count_lemmas` drops by one exactly when the lemma was present |
| `HmlDbProperties.DeleteIsExact` | wsgi/hmldb.py:161 | a row of lemma "Run" survives deleting "run" although `select_by_lemma("run")` finds it |
| `HmlDbProperties.LemmaGroupingExample` | wsgi/hmldb.py:68-75 | requesting a row's lemma and another lemma, with only that row fetched, gives exactly those two keys: the row under its lemma and `[]` under the other |
| `HmlDbProperties.TokensAsWrittenMissLowercasedKey` | wsgi/hmldb.py:96-99 | as written, requesting a token with capitals while a row with that token up to case is fetched gives two keys: the row under the lower-cased token and `[]` under the requested one |
| `HmlDbProperties.ExactFetchMissesOtherCase` | wsgi/hmldb.py:91 | as written, a row whose token differs from the requested one only in case is not fetched, while the case-insensitive fetch finds it |
| `HmlDbProperties.TokensCorrectedFindLowercasedKey` | wsgi/hmldb.py:96-99 | with the correction, the same request gives the lower-cased token as the only key, with the row under it |
| `HmlDbProperties.CapitalisedToken` | wsgi/hmldb.py:96 | "Run" is not its own lower-cased form and equals "run" up to case, so it is an input for the two lemmas above |
| `HmlDbProperties.TokenGroupingsAgreeOnLowerCase` | wsgi/hmldb.py:96-99 | the two groupings agree whenever every requested token is already lower-case |

## Left out

- The SQLite connection and cursor, `commit`, `__del__`, the database path
  and the `__main__` block: storage and I/O, not logic. The table is the set
  of its rows.
- The `nowords` table: it is created but no operation reads or writes it.
- NULL fields: every field is a string.
- The printing of `IntegrityError` in the inserts: `InsertTriple` reports it
  as the `SkippedDuplicate` outcome and `InsertTriples` as the list of
  skipped triples.
- The row order of the flat queries (`select_all`, the `LIKE` queries,
  `select_any`, `select_lemmas`): they are sets. The order only enters the
  membership queries, through `Fetch`.
- `LIKE` with non-ASCII letters, and Python's `lower()` on non-ASCII text:
  both fold ASCII letters only here. SQLite folds only ASCII in `LIKE` and
  `NOCASE`, but Python's `lower()` also folds other letters.
- The `IN` lists (wsgi/hmldb.py:66 and :91) are built by interpolating each
  value's Python `repr` into the SQL text. The model takes them as
  membership of the values themselves. That is right only for values whose
  `repr` is read by SQL as the same string. It is wrong for every other
  value, for example one holding a single quote (the `repr` switches to
  double quotes), a backslash (the `repr` doubles it and SQL keeps both),
  or a newline, tab or other non-printable character (the `repr` writes an
  escape that SQL does not decode). For such values the source's query
  fails or looks for a different string, while the model finds the rows
  holding the value. An empty list selects no rows, as SQLite's `IN ()`
  does.
- `HmlDb.SelectByLemma` has no row of its own: its ensures only says which
  rows the `LIKE` filter keeps. What the query finds is stated by
  `HmlDbProperties.SelectByLemmaLiteral` and
  `HmlDbProperties.FoundByOwnFields`.
- `HmlDb.SelectByToken` has no row of its own for the same reason. What it
  finds is stated by `HmlDbProperties.SelectByTokenLiteral` and
  `HmlDbProperties.FoundByOwnFields`.
- `HmlDb.SelectByMsd` has no row of its own for the same reason. What it
  finds is stated by `HmlDbProperties.SelectByMsdDescribed`, through
  `Msd.NormalizedMatch`.
- `HmlDb.CountLemmas`: the source falls back to 0 when no row comes back.
  An aggregate always yields one row, so that branch cannot be taken. An
  empty table yields 0 through the count itself.
- `HmlDb.CountTokens` has no contract of its own. It is the number of rows,
  and `HmlDbProperties.CountAfterInsert` and `HmlDbProperties.DeleteCount`
  state what it means.
- `HmlDb.SelectAll`: it returns the whole table. Its meaning is stated by
  `HmlDb.SelectAny` with no criterion given.

## Findings

| source | as written | input that shows it | evidently intended | confidence | as-written member | corrected member |
|---|---|---|---|---|---|---|
| wsgi/hmldb.py:98-99 | `select_by_tokens` groups the rows under `token.lower()` but adds the requested tokens as keys verbatim | tokens ["Run"] and a stored row with token "Run": the row is fetched and lands under "run", and "Run" is a second key mapping to `[]` | every requested token is added lower-cased, like the keys its rows are grouped under | medium; not executed | `HmlDb.GroupByTokenAsWritten`, `HmlDb.SelectByTokensAsWritten`, `HmlDbProperties.TokensAsWrittenMissLowercasedKey`, `HmlDbProperties.CapitalisedToken` | `HmlDb.GroupByToken`, `HmlDb.SelectByTokens`, `HmlDbProperties.TokensCorrectedFindLowercasedKey` |
| wsgi/hmldb.py:91 | the query ends `token IN (...) COLLATE NOCASE`; SQLite applies a postfix `COLLATE` to the `IN` expression as a whole, so the comparisons keep the `token` column's BINARY collation and only exact matches are fetched | tokens ["run"] and a stored row with token "Run": the row is not fetched | the `IN` comparison ignores ASCII case, as the `COLLATE NOCASE` and the lower-cased grouping keys show | medium; not executed | `HmlDb.SelectByTokensAsWritten`, `HmlDbProperties.ExactFetchMissesOtherCase`, `HmlDbProperties.CapitalisedToken` | `HmlDb.SelectByTokens`, `HmlDbProperties.SelectByTokenLiteral` |
