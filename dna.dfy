/** The DNA alphabet, input validation and the common-prefix primitive
    (RadixTree.java: dnaBases, invalidBaseFound, commonPrefixLength). */
module Dna {

  /** The four bases, in the order that fixes a child's slot. */
  const Bases: string := "ACGT"

  /** Every node has exactly this many child slots. */
  const MaxChildren: nat := 4

  predicate IsBase(c: char) {
    c == 'A' || c == 'C' || c == 'G' || c == 'T'
  }

  /** Every character of `s` is a base (the empty string qualifies). */
  predicate AllBases(s: string) {
    forall i | 0 <= i < |s| :: IsBase(s[i])
  }

  /** The slot of base `c`: its position in "ACGT" (the source's `dnaBases.indexOf`). */
  function Index(c: char): (k: nat)
    requires IsBase(c)
    ensures k < MaxChildren && Bases[k] == c
    ensures forall j | 0 <= j < MaxChildren && Bases[j] == c :: j == k
  {
    if c == 'A' then 0 else if c == 'C' then 1 else if c == 'G' then 2 else 3
  }

  /** True when some character at position `i` or later is not a base. */
  function InvalidFrom(dna: string, i: nat): (bad: bool)
    requires i <= |dna|
    ensures bad <==> exists j | i <= j < |dna| :: !IsBase(dna[j])
    decreases |dna| - i
  {
    if i == |dna| then false
    else if !IsBase(dna[i]) then true
    else InvalidFrom(dna, i + 1)
  }

  /** invalidBaseFound: the input is empty or holds a character outside "ACGT". */
  function InvalidBaseFound(dna: string): (bad: bool)
    ensures bad <==> (|dna| == 0 || !AllBases(dna))
  {
    if |dna| == 0 then true else InvalidFrom(dna, 0)
  }

  /** A sequence the engine accepts. */
  predicate IsDna(s: string) {
    |s| > 0 && AllBases(s)
  }

  /** The scan of commonPrefixLength from position `i` on, knowing the first `i`
      characters agree. */
  function MatchFrom(dna: string, code: string, i: nat): (m: nat)
    requires i <= |dna| && i <= |code| && dna[..i] == code[..i]
    ensures i <= m <= |dna| && m <= |code|
    ensures dna[..m] == code[..m]
    ensures m < |dna| && m < |code| ==> dna[m] != code[m]
    decreases |dna| - i
  {
    if i == |dna| then |dna|
    else if i == |code| || dna[i] != code[i] then i
    else
      assert dna[..i + 1] == dna[..i] + [dna[i]] && code[..i + 1] == code[..i] + [code[i]];
      MatchFrom(dna, code, i + 1)
  }

  /** commonPrefixLength on a present prefix code: the length of the longest common
      prefix of `dna` and `code`. */
  function CommonPrefixLength(dna: string, code: string): (m: nat)
    ensures m <= |dna| && m <= |code|
    ensures dna[..m] == code[..m]
    ensures m < |dna| && m < |code| ==> dna[m] != code[m]
  {
    MatchFrom(dna, code, 0)
  }

  /** The result is the unique length with the two defining properties: the prefixes
      agree up to it and it stops at the first mismatch or at an end. */
  lemma CommonPrefixLengthUnique(dna: string, code: string, n: nat)
    requires n <= |dna| && n <= |code| && dna[..n] == code[..n]
    requires n < |dna| && n < |code| ==> dna[n] != code[n]
    ensures CommonPrefixLength(dna, code) == n
  {
  }

  /** The worked examples beside commonPrefixLength (an absent prefix code is
      modelled as the empty one). */
  lemma CommonPrefixLengthExamples()
    ensures CommonPrefixLength("AAA", "AAA") == 3
    ensures CommonPrefixLength("AAA", "AA") == 2
    ensures CommonPrefixLength("AAA", "AAAA") == 3
    ensures CommonPrefixLength("AAA", "") == 0
  {
    CommonPrefixLengthUnique("AAA", "AAA", 3);
    CommonPrefixLengthUnique("AAA", "AA", 2);
    CommonPrefixLengthUnique("AAA", "AAAA", 3);
  }

  /** A proper suffix of accepted input is accepted input. */
  lemma SuffixIsDna(s: string, m: nat)
    requires IsDna(s) && m < |s|
    ensures IsDna(s[m..])
  {
    forall i | 0 <= i < |s[m..]| ensures IsBase(s[m..][i]) {
      assert s[m..][i] == s[m + i];
    }
  }
}
