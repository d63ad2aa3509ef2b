/**
 * The short identifiers the value dictionary hands out (server/src/storage.rs,
 * `generate_id`): five characters over a 62-symbol alphabet.  Identifiers are
 * numbered in base 62, which lets the model count them and prove that a fresh
 * one exists whenever the dictionary holds fewer than 62^5 keys.
 */
module Ids {

  /** `generate_id` draws from "A".."Z", then "a".."z", then "0".."9". */
  const AlphabetSize: nat := 62
  const IdLength: nat := 5
  /** The number of distinct identifiers, 62^5. */
  const IdSpace: nat := 916132832

  function Pow62(n: nat): (p: nat)
    ensures p >= 1
  {
    if n == 0 then 1 else 62 * Pow62(n - 1)
  }

  predicate IsSymbol(c: char) {
    'A' <= c <= 'Z' || 'a' <= c <= 'z' || '0' <= c <= '9'
  }

  /** The d-th symbol of the alphabet. */
  function Symbol(d: nat): (c: char)
    requires d < AlphabetSize
    ensures IsSymbol(c)
  {
    if d < 26 then ('A' as int + d) as char
    else if d < 52 then ('a' as int + (d - 26)) as char
    else ('0' as int + (d - 52)) as char
  }

  /** The position of a symbol in the alphabet. */
  function SymbolIndex(c: char): (d: nat)
    requires IsSymbol(c)
    ensures d < AlphabetSize && Symbol(d) == c
  {
    if 'A' <= c <= 'Z' then c as int - 'A' as int
    else if 'a' <= c <= 'z' then c as int - 'a' as int + 26
    else c as int - '0' as int + 52
  }

  lemma SymbolIndexOfSymbol(d: nat)
    requires d < AlphabetSize
    ensures SymbolIndex(Symbol(d)) == d
  {
  }

  predicate IsId(s: string) {
    |s| == IdLength && forall i :: 0 <= i < |s| ==> IsSymbol(s[i])
  }

  /** The n-digit base-62 numeral of k (most significant digit first). */
  function Digits(k: nat, n: nat): (s: string)
    ensures |s| == n
    ensures forall i :: 0 <= i < n ==> IsSymbol(s[i])
  {
    if n == 0 then [] else Digits(k / AlphabetSize, n - 1) + [Symbol(k % AlphabetSize)]
  }

  /** The number a numeral denotes. */
  function Rank(s: string): (k: nat)
    requires forall i :: 0 <= i < |s| ==> IsSymbol(s[i])
    ensures k < Pow62(|s|)
  {
    if s == [] then 0
    else Rank(s[..|s| - 1]) * AlphabetSize + SymbolIndex(s[|s| - 1])
  }

  lemma {:induction false} RankOfDigits(k: nat, n: nat)
    requires k < Pow62(n)
    ensures Rank(Digits(k, n)) == k
  {
    if n > 0 {
      var s := Digits(k, n);
      var prefix := Digits(k / AlphabetSize, n - 1);
      assert s == prefix + [Symbol(k % AlphabetSize)];
      assert s[..n - 1] == prefix;
      RankOfDigits(k / AlphabetSize, n - 1);
      SymbolIndexOfSymbol(k % AlphabetSize);
    }
  }

  lemma IdSpaceIsPow()
    ensures Pow62(IdLength) == IdSpace
  {
  }

  /** The identifier numbered k. */
  function IdOf(k: nat): (id: string)
    requires k < IdSpace
    ensures IsId(id)
  {
    Digits(k, IdLength)
  }

  /** Distinct numbers name distinct identifiers. */
  lemma {:induction false} RankOfIdOf(k: nat)
    requires k < IdSpace
    ensures Rank(IdOf(k)) == k
  {
    IdSpaceIsPow();
    RankOfDigits(k, IdLength);
  }

  lemma SubsetCard<T>(a: set<T>, b: set<T>)
    requires a <= b
    ensures |a| <= |b|
  {
    assert b == a + (b - a);
  }

  /** The numbers of the identifiers among `used`. */
  function Ranks(used: set<string>): set<nat> {
    set s | s in used && IsId(s) :: Rank(s)
  }

  lemma {:induction false} RanksBound(used: set<string>)
    ensures |Ranks(used)| <= |used|
  {
    if used != {} {
      var x :| x in used;
      var rest := used - {x};
      RanksBound(rest);
      var extra: set<nat> := if IsId(x) then {Rank(x)} else {};
      assert Ranks(used) <= Ranks(rest) + extra;
      SubsetCard(Ranks(used), Ranks(rest) + extra);
    }
  }

  /** Fewer than n numbers cannot cover 0 .. n-1. */
  lemma {:induction false} MissingBelow(used: set<nat>, n: nat)
    requires |used| < n
    ensures exists k :: 0 <= k < n && k !in used
  {
    if n - 1 in used {
      MissingBelow(used - {n - 1}, n - 1);
    }
  }

  /**
   * Pigeonhole: when fewer than 62^5 identifiers are taken, some identifier is
   * free, so the retry loop of `generate_id` can stop.
   */
  lemma FreeIdExists(used: set<string>)
    requires |used| < IdSpace
    ensures exists k :: 0 <= k < IdSpace && IdOf(k) !in used
  {
    RanksBound(used);
    MissingBelow(Ranks(used), IdSpace);
    var k :| 0 <= k < IdSpace && k !in Ranks(used);
    RankOfIdOf(k);
    assert IdOf(k) in used ==> k in Ranks(used);
  }
}
