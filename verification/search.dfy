/** The search loop shared by the wordlist attack and the full brute-force
    attack: try candidates in order, count every comparison, stop at the first
    match. Timing and printing are outside the model. */
module SearchRunner {

  import opened Wrappers
  import opened Matcher
  import opened Combinations

  /** What a search reports: whether the secret was found, the matching
      candidate, and how many comparisons were made, the successful one
      included. */
  datatype SearchResult = SearchResult(found: bool, matched: Option<string>, attempts: nat) {

    /** A matched candidate is reported exactly when the search succeeded. */
    predicate Valid() {
      found <==> matched.Some?
    }
  }

  /** One pass over `candidates` in order, stopping at the first one the login
      check accepts. On success `attempts` is the 1-based position of the
      secret's first occurrence; otherwise every candidate was tried. */
  function Search(secret: string, candidates: seq<string>): (r: SearchResult)
    ensures r.Valid()
    ensures r.found <==> secret in candidates
    ensures r.attempts <= |candidates|
    ensures r.found ==> r.matched == Some(secret) && r.attempts >= 1 && candidates[r.attempts - 1] == secret
    ensures r.found ==> forall i :: 0 <= i < r.attempts - 1 ==> candidates[i] != secret
    ensures !r.found ==> r.attempts == |candidates|
  {
    if |candidates| == 0 then SearchResult(false, None, 0)
    else if CheckLogin(secret, candidates[0]) then SearchResult(true, Some(candidates[0]), 1)
    else
      var rest := Search(secret, candidates[1..]);
      assert forall i :: 1 <= i < |candidates| ==> candidates[1..][i - 1] == candidates[i];
      SearchResult(rest.found, rest.matched, rest.attempts + 1)
  }

  /** The loop as the program writes it: the counter is incremented before each
      comparison and the loop returns on the first match. It computes the same
      result as the recursive `Search`. */
  method RunSearch(secret: string, candidates: seq<string>) returns (r: SearchResult)
    ensures r == Search(secret, candidates)
  {
    var attempts := 0;
    for i := 0 to |candidates|
      invariant attempts == i
      invariant forall j :: 0 <= j < i ==> candidates[j] != secret
    {
      attempts := attempts + 1;
      if CheckLogin(secret, candidates[i]) {
        return SearchResult(true, Some(candidates[i]), attempts);
      }
    }
    return SearchResult(false, None, attempts);
  }

  /** The full brute-force attack: the search run over every generated
      combination. It succeeds exactly when the secret is a non-empty string
      over the character set no longer than the bound; a failed run has tried
      all the candidates, and a successful one needs no more attempts than the
      secret's position among them. */
  function FullSearch(secret: string, charset: string, maxLength: int): (r: SearchResult)
    ensures r.Valid()
    ensures r.found <==> 1 <= |secret| <= maxLength && Over(secret, charset)
    ensures !r.found ==> r.attempts == TotalCandidates(|charset|, maxLength)
    ensures r.found ==> r.attempts <= TotalCandidates(|charset|, |secret| - 1) + Rank(charset, secret) + 1
  {
    var candidates := Generate(charset, maxLength);
    GenerateMembers(charset, maxLength, secret);
    var r := Search(secret, candidates);
    if r.found then
      assert |charset| > 0 by {
        assert secret[0] in charset;
      }
      OdometerRank(charset, secret);
      GenerateAt(charset, maxLength, |secret|, Rank(charset, secret));
      r
    else
      r
  }

  /** Over a character set without repeats the attempt count of a successful
      full search is exact: all shorter strings, then the secret's rank among
      the strings of its length, then the secret itself. */
  lemma FullSearchAttempts(secret: string, charset: string, maxLength: int)
    requires Distinct(charset)
    requires 1 <= |secret| <= maxLength && Over(secret, charset)
    ensures FullSearch(secret, charset, maxLength).attempts
              == TotalCandidates(|charset|, |secret| - 1) + Rank(charset, secret) + 1
  {
    var g := Generate(charset, maxLength);
    var r := Search(secret, g);
    assert FullSearch(secret, charset, maxLength) == r;
    GenerateMembers(charset, maxLength, secret);
    var a := r.attempts - 1;
    assert 0 <= a < |g| && g[a] == secret;
    GenerateIndex(charset, maxLength, a);
  }

  /** A wordlist attack whose secret is second in the list. */
  lemma WordlistExample()
    ensures Search("cat", ["dog", "cat", "bird"]) == SearchResult(true, Some("cat"), 2)
  {
    assert ["dog", "cat", "bird"][0] != "cat";
  }

  /** A full search over "ab" up to length 2 finds "ba" at the fifth attempt,
      and gives up on "abc" after all six candidates. */
  lemma FullSearchExample()
    ensures FullSearch("ba", "ab", 2) == SearchResult(true, Some("ba"), 5)
    ensures FullSearch("abc", "ab", 2) == SearchResult(false, None, 6)
  {
    GenerateExampleAb();
    var g := Generate("ab", 2);
    assert g[0] != "ba" && g[1] != "ba" && g[2] != "ba" && g[3] != "ba";
    assert "abc" !in g;
  }
}
