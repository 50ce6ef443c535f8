/**
 * The SQL `lower` function that the unique index of the BotData table is
 * built on, modelled as a case fold of the ASCII letters.
 */
module CaseFold {

  /** Maps an upper-case ASCII letter to its lower-case form; every other character is kept. */
  function LowerChar(c: char): char
  {
    if 'A' <= c <= 'Z' then (c as int - 'A' as int + 'a' as int) as char else c
  }

  /** `lower(s)`: the string with every ASCII letter folded to lower case. */
  function Lower(s: string): string
  {
    seq(|s|, i requires 0 <= i < |s| => LowerChar(s[i]))
  }

  /** Two strings fold to the same key exactly when they agree up to letter case. */
  predicate SameUpToCase(a: string, b: string)
  {
    Lower(a) == Lower(b)
  }

  /** Names that differ only in letter case exist: "Alpha" and "alpha" fold to one key. */
  lemma CaseVariantsExist()
    ensures "Alpha" != "alpha" && SameUpToCase("Alpha", "alpha")
  {
    assert "Alpha"[0] != "alpha"[0];
    assert Lower("Alpha") == "alpha" by {
      assert LowerChar('A') == 'a';
    }
    assert Lower("alpha") == "alpha";
  }
}
