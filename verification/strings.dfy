/** Character and string helpers shared by the LIKE matcher, the NOCASE
    comparison and the MSD normalisation. */
module Strings {

  /** ASCII-only lower-casing of one character: the folding SQLite applies
      in LIKE and in the NOCASE collation. Other characters are unchanged. */
  function FoldAscii(c: char): (r: char)
    ensures !('A' <= r <= 'Z')
    ensures r != c ==> 'A' <= c <= 'Z'
  {
    if 'A' <= c <= 'Z' then (c as int + 32) as char else c
  }

  /** Lower-casing of a whole string, character by character. */
  function Lower(s: string): (r: string)
    ensures |r| == |s|
    ensures forall i :: 0 <= i < |r| ==> !('A' <= r[i] <= 'Z')
  {
    seq(|s|, i requires 0 <= i < |s| => FoldAscii(s[i]))
  }

  /** Lower-casing twice is lower-casing once. */
  lemma LowerIdempotent(s: string)
    ensures Lower(Lower(s)) == Lower(s)
  {
    assert forall i :: 0 <= i < |s| ==> Lower(Lower(s))[i] == Lower(s)[i];
  }

  /** Python's `s.replace(from, to)` for single characters. */
  function Replace(s: string, from: char, to: char): (r: string)
    ensures |r| == |s|
    ensures from != to ==> from !in r
    ensures from !in s ==> r == s
    ensures forall x :: x in r ==> x in s || x == to
  {
    seq(|s|, i requires 0 <= i < |s| => if s[i] == from then to else s[i])
  }

  /** Python's `s.strip(c)` for a single character: every leading and
      every trailing `c` is removed, so what remains neither starts nor ends
      with `c`. A string without `c` is returned as it is. */
  function Strip(s: string, c: char): (r: string)
    ensures |r| <= |s|
    ensures r == [] || (r[0] != c && r[|r| - 1] != c)
    ensures c !in s ==> r == s
    ensures forall x :: x in r ==> x in s
    decreases |s|
  {
    if |s| > 0 && s[0] == c then
      SliceMembers(s, 1, |s|);
      Strip(s[1..], c)
    else if |s| > 0 && s[|s| - 1] == c then
      SliceMembers(s, 0, |s| - 1);
      Strip(s[..|s| - 1], c)
    else s
  }

  /** `s` with a run of `c` taken off each end is `r`: `r` is the slice
      `s[i..j]`, and every character before `i` and from `j` on is `c`. */
  predicate TrimmedRun(s: string, c: char, r: string, i: nat, j: nat) {
    && i <= j <= |s|
    && r == s[i..j]
    && (forall k :: 0 <= k < i ==> s[k] == c)
    && (forall k :: j <= k < |s| ==> s[k] == c)
  }

  /** `Strip` removes only the runs of `c` at the two ends: nothing inside
      the string is touched. */
  lemma {:induction false} StripIsInfix(s: string, c: char)
    ensures exists i: nat, j: nat :: TrimmedRun(s, c, Strip(s, c), i, j)
    decreases |s|
  {
    if |s| > 0 && s[0] == c {
      StripIsInfix(s[1..], c);
      var i: nat, j: nat :| TrimmedRun(s[1..], c, Strip(s[1..], c), i, j);
      TrimmedRunFront(s, c, Strip(s[1..], c), i, j);
    } else if |s| > 0 && s[|s| - 1] == c {
      StripIsInfix(s[..|s| - 1], c);
      var i: nat, j: nat :| TrimmedRun(s[..|s| - 1], c, Strip(s[..|s| - 1], c), i, j);
      TrimmedRunBack(s, c, Strip(s[..|s| - 1], c), i, j);
    } else {
      assert TrimmedRun(s, c, Strip(s, c), 0, |s|);
    }
  }

  /** A trimmed slice of `s[1..]` is one of `s` when `s` starts with `c`. */
  lemma TrimmedRunFront(s: string, c: char, r: string, i: nat, j: nat)
    requires |s| > 0 && s[0] == c && TrimmedRun(s[1..], c, r, i, j)
    ensures TrimmedRun(s, c, r, i + 1, j + 1)
  {
    assert s[1..][i..j] == s[i + 1..j + 1];
    assert forall k :: 0 < k < |s| ==> s[k] == s[1..][k - 1];
  }

  /** A trimmed slice of all but the last character of `s` is one of `s`
      when `s` ends with `c`. */
  lemma TrimmedRunBack(s: string, c: char, r: string, i: nat, j: nat)
    requires |s| > 0 && s[|s| - 1] == c && TrimmedRun(s[..|s| - 1], c, r, i, j)
    ensures TrimmedRun(s, c, r, i, j)
  {
    assert s[..|s| - 1][i..j] == s[i..j];
  }

  /** Dropping a leading `c` that lies outside the slice. */
  lemma TrimmedRunDropFront(s: string, c: char, r: string, i: nat, j: nat)
    requires TrimmedRun(s, c, r, i, j) && i > 0
    ensures TrimmedRun(s[1..], c, r, i - 1, j - 1)
  {
    assert s[1..][i - 1..j - 1] == s[i..j];
  }

  /** Dropping a trailing `c` that lies outside the slice. */
  lemma TrimmedRunDropBack(s: string, c: char, r: string, i: nat, j: nat)
    requires TrimmedRun(s, c, r, i, j) && j < |s|
    ensures TrimmedRun(s[..|s| - 1], c, r, i, j)
  {
    assert s[..|s| - 1][i..j] == s[i..j];
  }

  /** The result of `Strip` is the only trimmed slice that neither starts
      nor ends with `c`: the ensures of `Strip` and `StripIsInfix` together
      determine it. */
  lemma {:induction false} StripUnique(s: string, c: char, r: string, i: nat, j: nat)
    requires TrimmedRun(s, c, r, i, j)
    requires r == [] || (r[0] != c && r[|r| - 1] != c)
    ensures r == Strip(s, c)
    decreases |s|
  {
    if |s| > 0 && s[0] == c {
      if i == 0 {
        assert j == 0;
        assert TrimmedRun(s, c, r, 1, 1);
        TrimmedRunDropFront(s, c, r, 1, 1);
        StripUnique(s[1..], c, r, 0, 0);
      } else {
        TrimmedRunDropFront(s, c, r, i, j);
        StripUnique(s[1..], c, r, i - 1, j - 1);
      }
    } else if |s| > 0 && s[|s| - 1] == c {
      assert j < |s|;
      TrimmedRunDropBack(s, c, r, i, j);
      StripUnique(s[..|s| - 1], c, r, i, j);
    } else {
      assert i == 0 && j == |s|;
    }
  }

  /** Every character of a slice occurs in the whole. */
  lemma SliceMembers(s: string, i: nat, j: nat)
    requires i <= j <= |s|
    ensures forall x :: x in s[i..j] ==> x in s
  {
    forall x | x in s[i..j] ensures x in s {
      var k :| 0 <= k < j - i && s[i..j][k] == x;
      assert s[i + k] == x;
    }
  }
}
