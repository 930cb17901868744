/** The login check: the single comparison primitive every search path uses. */
module Matcher {

  /** True iff the entered password is character-for-character the stored one:
      ordinal comparison, no trimming, no case folding, no normalisation. */
  function CheckLogin(stored: string, entered: string): (r: bool)
    ensures r <==> |stored| == |entered| && forall i :: 0 <= i < |stored| ==> stored[i] == entered[i]
  {
    stored == entered
  }

  /** Differences in letter case or in surrounding whitespace are failures. */
  lemma CheckLoginNoNormalisation()
    ensures !CheckLogin("abc", "ABC")
    ensures !CheckLogin("abc", "abc ")
    ensures !CheckLogin("abc", " abc")
  {
    assert "abc"[0] != "ABC"[0];
  }
}
