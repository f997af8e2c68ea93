/**
 * The unique-name generator of the module scope (`scope.generateUidIdentifier`):
 * it tries `_seed`, `_seed2`, `_seed3`, … and takes the first name not yet taken.
 * The seed is used as given; Babel's cleaning of the seed is not modelled.
 */
module FreshNames {

  function DigitChar(d: nat): char
    requires d < 10
  {
    "0123456789"[d]
  }

  /** Decimal notation of `n`. */
  function NatToString(n: nat): (r: string)
    ensures |r| >= 1
  {
    if n < 10 then [DigitChar(n)] else NatToString(n / 10) + [DigitChar(n % 10)]
  }

  function Pow10(e: nat): (r: nat)
    ensures r >= 1
    ensures e >= 1 ==> r >= 10
  {
    if e == 0 then 1 else 10 * Pow10(e - 1)
  }

  /** A number of at least 10^e has more than e digits. */
  lemma {:induction false} NatToStringLength(n: nat, e: nat)
    requires n >= Pow10(e)
    ensures |NatToString(n)| > e
  {
    if e > 0 {
      assert n >= 10;
      assert n / 10 >= Pow10(e - 1);
      NatToStringLength(n / 10, e - 1);
    }
  }

  /** The `k`-th name tried for `seed`. */
  function Candidate(seed: string, k: nat): string
    requires k >= 1
  {
    "_" + seed + (if k == 1 then "" else NatToString(k))
  }

  /** An upper bound on the length of the names in `s`. */
  ghost function MaxLen(s: set<string>): (m: nat)
    ensures forall x :: x in s ==> |x| <= m
    decreases |s|
  {
    if s == {} then 0
    else
      var x :| x in s;
      var m := MaxLen(s - {x});
      if |x| > m then |x| else m
  }

  /** A taken candidate is tried before the candidates become too long to be taken. */
  lemma TakenCandidateIsSmall(used: set<string>, seed: string, k: nat)
    requires k >= 1 && Candidate(seed, k) in used
    ensures k < Pow10(MaxLen(used))
  {
    var m := MaxLen(used);
    if k >= Pow10(m) {
      if k >= 2 {
        NatToStringLength(k, m);
      }
    }
  }

  /** The first candidate index from `k` on whose name is not taken. */
  function FreshIndex(used: set<string>, seed: string, k: nat): (i: nat)
    requires k >= 1
    ensures i >= k && Candidate(seed, i) !in used
    ensures forall j :: k <= j < i ==> Candidate(seed, j) in used
    decreases Pow10(MaxLen(used)) - k
  {
    if Candidate(seed, k) !in used then k
    else
      TakenCandidateIsSmall(used, seed, k);
      FreshIndex(used, seed, k + 1)
  }

  /** The name `generateUidIdentifier(seed)` returns when the names in `used` are taken. */
  function FreshName(used: set<string>, seed: string): (r: string)
    ensures r !in used
    ensures |r| > |seed| && r[..|seed| + 1] == "_" + seed
  {
    var r := Candidate(seed, FreshIndex(used, seed, 1));
    assert r[..|seed| + 1] == "_" + seed;
    r
  }

  /** When `_seed` is free it is the name chosen; otherwise it is never chosen. */
  lemma FreshNamePrefersPlain(used: set<string>, seed: string)
    ensures ("_" + seed !in used) <==> FreshName(used, seed) == "_" + seed
  {
    var i := FreshIndex(used, seed, 1);
    assert Candidate(seed, 1) == "_" + seed;
    if i >= 2 {
      assert Candidate(seed, 1) in used;
      assert |Candidate(seed, i)| > |"_" + seed|;
    }
  }

  /** An index that is free while every index from `k` below it is taken is the one `FreshIndex` finds. */
  lemma FirstFreeIndex(used: set<string>, seed: string, k: nat, i: nat)
    requires 1 <= k <= i && Candidate(seed, i) !in used
    requires forall j :: k <= j < i ==> Candidate(seed, j) in used
    ensures i == FreshIndex(used, seed, k)
  {
  }
}
