# Brute-force simulator core, modelled in Dafny

The simulator guesses a stored password in two ways. A wordlist attack tries
each word of a file in turn. A full brute-force attack tries every string up
to a maximum length over a character set. It also shows one defence: an
account that locks after a bounded number of wrong passwords. This project
models the logic behind these features as pure Dafny functions and proves
what they compute:

- `Matcher`: the login check, which is exact string equality.
- `Wordlist`: the pure part of wordlist loading. Each line is stripped of
  surrounding whitespace, and lines left empty are dropped, in order.
  A missing file and a file of blank lines both give the empty list.
- `Combinations`: the candidate generator. It produces lengths 1 to
  `max_length` in ascending order. Within one length it follows
  `itertools.product` order, where the rightmost position varies fastest.
  The module also gives the closed-form candidate count
  Σ_{L=1}^{max_length} |charset|^L and an odometer reference for the order.
- `SearchRunner`: the one search loop behind both attacks. The counter goes up
  before each comparison, and the search stops at the first match. It is
  given once, for any candidate sequence, and then applied to a wordlist and
  to the generated combinations.
- `Lockout`: the lockout loop, as a fold over the passwords typed at the
  prompt. It also records the "remaining attempts" feedback shown after each
  failure.

Three behaviours of the code are worth stating because a reader might expect
otherwise:
- `load_wordlist` returns the same `[]` for a missing file and for a file of
  blank lines; only the printed message differs
  (`Wordlist.MissingAndBlankReturnSame`).
- `generate_combinations` does not reject an empty character set or a
  `max_length` below 1; it simply yields nothing
  (`Combinations.GenerateEmptyIff`).
- `simulated_login_with_lockout` has no "denied" state: once the account is
  locked or the login succeeds the function returns, and no further password
  is read (`Lockout.LaterInputsIgnored`).

## Model

| member | source | states |
|---|---|---|
| Matcher.CheckLogin | simulator.py:9-13 | login succeeds iff the two strings have the same length and agree at every position: ordinal comparison with no normalisation |
| Matcher.CheckLoginNoNormalisation | simulator.py:13 | a password that differs only in letter case or in surrounding spaces is rejected |
| Wordlist.IsSpaceAscii | simulator.py:32 | the whitespace `str.strip()` removes: among ASCII exactly space, tab, line feed, vertical tab, form feed, carriage return and the four information separators, plus the Unicode spaces; never a letter, digit or underscore |
| Wordlist.Strip | simulator.py:32 | a stripped line is no longer than the line and is empty or begins and ends with a non-whitespace character (whitespace as Python's `str.isspace`) |
| Wordlist.StripIsInfix | simulator.py:32 | a stripped line is an infix of the line, and everything cut off on either side is whitespace |
| Wordlist.StripUnique | simulator.py:32 | any whitespace-only cutting that leaves no whitespace at the ends equals the stripped line, so strip removes all and only the surrounding whitespace |
| Wordlist.StripEmptyIffBlank | simulator.py:32 | a line strips to the empty string, and is dropped, iff it consists of whitespace only |
| Wordlist.KeptPositionsSound | simulator.py:32 | every kept position holds a line that is non-blank after stripping |
| Wordlist.KeptPositionsComplete | simulator.py:32 | every line that is non-blank after stripping has its position kept |
| Wordlist.FilterLines | simulator.py:32 | the comprehension yields at most one word per line; which lines and in what order is stated by the `KeptPositions` lemmas below |
| Wordlist.FilterLinesKeepsOrder | simulator.py:32 | the filtered list has one word per kept line, and the k-th word is the stripped line at the k-th kept position (positions strictly ascending) |
| Wordlist.WordsAreClean | simulator.py:31-32 | every returned word is non-empty and has no leading or trailing whitespace |
| Wordlist.FilterLinesAppend | simulator.py:32 | filtering the concatenation of two line sequences is the concatenation of their filterings |
| Wordlist.LoadWordlist | simulator.py:29-39 | the not-found message is printed iff the file is missing; an existing file yields its filtered lines; the list is empty iff some warning is printed |
| Wordlist.LoadWordlistEmptyIff | simulator.py:29-39 | the returned list is empty iff the file is missing or every line of it is blank |
| Wordlist.MissingAndBlankReturnSame | simulator.py:33-39 | a missing file and a file of blank lines return the same empty list and differ only in the printed message |
| Combinations.TotalCandidates | simulator.py:80-82 | the candidate count is at least n^max_length and, for a non-empty charset, at least one per length; an empty charset gives none |
| Combinations.TotalCandidatesClosedForm | simulator.py:80-82 | (n - 1) times the candidate count equals n^(max_length+1) - n, the geometric-series closed form |
| Combinations.Extend | simulator.py:81 | extending every prefix by every character gives (number of prefixes) times (charset size) strings (their positions: `ExtendAt`) |
| Combinations.Product | simulator.py:81 | `product(charset, repeat=L)` has exactly n^L entries |
| Combinations.ProductAt | simulator.py:81-82 | the k-th string of length L is the odometer reading after k clicks: product order is counting in base n, the charset size, rightmost position fastest |
| Combinations.ProductMembers | simulator.py:81-82 | the strings of length L are exactly the strings of length L over the charset |
| Combinations.OdometerRank | simulator.py:81-82 | reading the odometer after rank(s) clicks gives back s |
| Combinations.RankOdometer | simulator.py:81-82 | over a charset without repeats, the rank of the reading after k clicks is k |
| Combinations.Generate | simulator.py:75-82 | the generator yields exactly Σ_{L=1}^{max_length} n^L (n the charset size) strings |
| Combinations.GenerateMembers | simulator.py:80-82 | a string is generated iff its length is in 1..max_length and all its characters are in the charset |
| Combinations.GenerateLengthOrder | simulator.py:80-82 | generated lengths never decrease along the sequence |
| Combinations.GenerateAt | simulator.py:80-82 | the strings of length L start after all shorter ones, and the k-th of them is the odometer reading after k clicks |
| Combinations.GenerateIndex | simulator.py:80-82 | over a charset without repeats, the string at position a sits exactly at (count of shorter strings) + rank, so each string occurs once |
| Combinations.GenerateEmptyIff | simulator.py:80-82 | nothing is generated iff max_length < 1 or the charset is empty |
| Combinations.GenerateExampleAb | simulator.py:80-82 | charset "ab" with max length 2 yields a, b, aa, ab, ba, bb in that order |
| Combinations.GenerateExampleSingle | simulator.py:80-82 | charset "x" with max length 1 yields just "x" |
| SearchRunner.Search | simulator.py:51-70 | a match is reported iff the secret is among the candidates; then attempts is the 1-based position of its first occurrence and the matched candidate is the secret; otherwise attempts is the number of candidates |
| SearchRunner.RunSearch | simulator.py:51-70 | the imperative loop, with the counter incremented before each comparison and a return on the first match, gives the same result as the recursive search |
| SearchRunner.FullSearch | simulator.py:94-115 | the full attack succeeds iff the secret is non-empty, no longer than max_length and over the charset; a failure has made exactly the total candidate count of attempts; a success needs at most (shorter strings) + rank + 1 |
| SearchRunner.FullSearchAttempts | simulator.py:94-109 | over a charset without repeats, a successful full attack makes exactly (count of shorter strings) + rank(secret) + 1 attempts |
| SearchRunner.WordlistExample | simulator.py:51-64 | secret "cat" against dog, cat, bird is found at attempt 2 |
| SearchRunner.FullSearchExample | simulator.py:94-115 | over "ab" up to length 2, "ba" is found at attempt 5 and "abc" is not found after 6 attempts |
| Lockout.Limit | simulator.py:127 | the guard `attempts < max_attempts` holds for exactly the attempt counts below the limit |
| Lockout.LoginWithLockout | simulator.py:120-141 | at most max_attempts passwords are compared; a login is at the first matching input; lockout has compared exactly max_attempts wrong passwords; after the i-th failure the feedback shows max_attempts - i remaining, and the bare "wrong password" appears only after the last allowed attempt |
| Lockout.DefaultLockoutLogin | simulator.py:120-141 | with the default max_attempts of 5 that the menu relies on, at most five passwords are compared; login iff one of the first five is the secret; lockout iff five are given and all are wrong |
| Lockout.LoginWithLockoutOutcome | simulator.py:127-141 | login succeeds iff one of the first max_attempts inputs is the secret; the account locks iff max_attempts inputs are given and all are wrong (immediately, with no comparison, when max_attempts <= 0) |
| Lockout.LaterInputsIgnored | simulator.py:127-141 | once a session has ended by login or lockout, further inputs are never read |
| Lockout.LockedAfterMaxFailures | simulator.py:127-141 | max_attempts wrong passwords in a row lock the account after exactly that many comparisons, with feedback counting down from max_attempts - 1 to a bare "wrong password" |

## Left out

- The menu in `main`, every `input()` and `print()`, and the charset presets
  built from `string.digits` and `string.ascii_lowercase` (simulator.py:146-223).
  They are interactive glue. This includes `main` skipping the wordlist attack
  when the list is empty, and falling back to length 3 on a bad number.
- Opening the wordlist file, UTF-8 decoding, and splitting it into lines.
  A file is given as `None` if it is missing, or as `Some(lines)` if it was
  read.
- Other errors from opening or decoding the wordlist file. Only
  `FileNotFoundError` is caught (simulator.py:36); a permission error, a
  directory, or undecodable bytes raise out of `load_wordlist`. Exceptions
  are outside the model.
- Timing with `time.time()` and the floating-point duration. These are
  wall-clock values, so the search result has no elapsed-time field.
- The laziness of the Python generator. Candidates are a finite sequence, and
  only their order and content are modelled.
- Lockout input is a finite sequence of typed passwords. When it runs out
  while attempts remain, the session ends as `InputClosed`, where Python's
  `input()` would raise `EOFError`.
- SearchRunner.FullSearchAttempts: the exact attempt count is proved only
  for character sets without repeated characters. With repeats, only the
  upper bound in `FullSearch` is proved.
