/** The record the store keeps: one row of the `words` table. */
module Words {

  /** A row `(lemma, token, msd)`, always in that order: `lem` is the lemma
      (dictionary form; `lemma` is a Dafny keyword), `token` the surface form
      found in text, and `msd` its morphosyntactic descriptor. */
  datatype Triple = Triple(lem: string, token: string, msd: string)
}
