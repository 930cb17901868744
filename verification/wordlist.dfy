/** The pure part of wordlist loading: every line is stripped of surrounding
    whitespace and the lines that become empty are dropped, in order. Opening
    the file and decoding it are outside the model; a file is given either as
    `None` (it does not exist) or as `Some(lines)`. */
module Wordlist {

  import opened Wrappers

  /** The characters Python's `str.isspace()` accepts, which is the set the
      argument-less `str.strip()` removes. */
  predicate IsSpace(c: char) {
    || c == ' '
    || ('\t' <= c <= '\r')
    || ('\U{1C}' <= c <= '\U{1F}')
    || c == '\U{85}'
    || c == '\U{A0}'
    || c == '\U{1680}'
    || ('\U{2000}' <= c <= '\U{200A}')
    || c == '\U{2028}'
    || c == '\U{2029}'
    || c == '\U{202F}'
    || c == '\U{205F}'
    || c == '\U{3000}'
  }

  /** Among ASCII characters the whitespace is space, tab, line feed,
      vertical tab, form feed, carriage return and the four information
      separators; no letter, digit or underscore is whitespace. */
  lemma IsSpaceAscii(c: char)
    ensures c < '\U{80}' ==> (IsSpace(c) <==> c in " \t\n\U{0B}\U{0C}\r\U{1C}\U{1D}\U{1E}\U{1F}")
    ensures IsSpace(c) ==> !('0' <= c <= '9' || 'A' <= c <= 'Z' || 'a' <= c <= 'z' || c == '_')
  {
  }

  predicate AllSpace(s: string) {
    forall i :: 0 <= i < |s| ==> IsSpace(s[i])
  }

  /** Neither end of `s` is whitespace (vacuously so for the empty string). */
  predicate IsStripped(s: string) {
    s == [] || (!IsSpace(s[0]) && !IsSpace(s[|s| - 1]))
  }

  /** Python's `line.strip()`: whitespace removed from both ends. */
  function Strip(s: string): (r: string)
    ensures |r| <= |s|
    ensures IsStripped(r)
    decreases |s|
  {
    if |s| == 0 then s
    else if IsSpace(s[0]) then Strip(s[1..])
    else if IsSpace(s[|s| - 1]) then Strip(s[..|s| - 1])
    else s
  }

  /** `Strip(s)` is an infix of `s`, and what was cut off on either side is
      whitespace only. */
  lemma {:induction false} StripIsInfix(s: string) returns (i: nat, j: nat)
    ensures i <= j <= |s| && Strip(s) == s[i..j]
    ensures AllSpace(s[..i]) && AllSpace(s[j..])
    decreases |s|
  {
    if |s| == 0 {
      i, j := 0, 0;
    } else if IsSpace(s[0]) {
      var tail := s[1..];
      var i', j' := StripIsInfix(tail);
      i, j := i' + 1, j' + 1;
      assert s[i..j] == tail[i'..j'];
      assert s[j..] == tail[j'..];
      forall k | 0 <= k < i
        ensures IsSpace(s[..i][k])
      {
        if k > 0 {
          assert s[..i][k] == tail[..i'][k - 1];
        }
      }
    } else if IsSpace(s[|s| - 1]) {
      var init := s[..|s| - 1];
      var i', j' := StripIsInfix(init);
      i, j := i', j';
      assert s[i..j] == init[i'..j'];
      assert s[..i] == init[..i'];
      forall k | 0 <= k < |s| - j
        ensures IsSpace(s[j..][k])
      {
        if k < |s| - 1 - j {
          assert s[j..][k] == init[j'..][k];
        }
      }
    } else {
      i, j := 0, |s|;
      assert s[i..j] == s;
    }
  }

  /** Whitespace cut off in front cannot reach past a non-whitespace character. */
  lemma SpacePrefixBound(s: string, a: nat, b: nat)
    requires a <= |s| && b < |s|
    requires AllSpace(s[..a]) && !IsSpace(s[b])
    ensures a <= b
  {
  }

  /** Whitespace cut off behind cannot reach before a non-whitespace character. */
  lemma SpaceSuffixBound(s: string, d: nat, c: nat)
    requires d <= |s| && 0 < c <= |s|
    requires AllSpace(s[d..]) && !IsSpace(s[c - 1])
    ensures c <= d
  {
  }

  /** Cuts that meet or overlap leave nothing but whitespace. */
  lemma CutsCoverAll(s: string, i: nat, j: nat)
    requires j <= i <= |s|
    requires AllSpace(s[..i]) && AllSpace(s[j..])
    ensures AllSpace(s)
  {
    forall k | 0 <= k < |s|
      ensures IsSpace(s[k])
    {
      if k < i {
        assert s[..i][k] == s[k];
      } else {
        assert s[j..][k - j] == s[k];
      }
    }
  }

  /** Two whitespace-only cuttings of `s` that both leave a non-empty infix with
      no whitespace at its ends are the same cutting. */
  lemma StrippedInfixUnique(s: string, i: nat, j: nat, i': nat, j': nat)
    requires i < j <= |s| && i' < j' <= |s|
    requires AllSpace(s[..i]) && AllSpace(s[j..]) && !IsSpace(s[i]) && !IsSpace(s[j - 1])
    requires AllSpace(s[..i']) && AllSpace(s[j'..]) && !IsSpace(s[i']) && !IsSpace(s[j' - 1])
    ensures i == i' && j == j'
  {
    SpacePrefixBound(s, i', i);
    SpacePrefixBound(s, i, i');
    SpaceSuffixBound(s, j', j);
    SpaceSuffixBound(s, j, j');
  }

  /** The characterisation of `Strip` determines it: any infix obtained by cutting
      whitespace only, and with no whitespace left at its ends, is `Strip(s)`. */
  lemma StripUnique(s: string, i: nat, j: nat)
    requires i <= j <= |s|
    requires AllSpace(s[..i]) && AllSpace(s[j..])
    requires IsStripped(s[i..j])
    ensures Strip(s) == s[i..j]
  {
    var r := Strip(s);
    var i', j' := StripIsInfix(s);
    if i == j {
      CutsCoverAll(s, i, j);
      StripEmptyIffBlank(s);
    } else if i' == j' {
      StripEmptyIffBlank(s);
    } else {
      assert s[i] == s[i..j][0] && s[j - 1] == s[i..j][j - i - 1];
      assert s[i'] == r[0] && s[j' - 1] == r[|r| - 1];
      StrippedInfixUnique(s, i, j, i', j');
    }
  }

  /** A line is blank, and so dropped, exactly when it is whitespace only. */
  lemma StripEmptyIffBlank(s: string)
    ensures Strip(s) == [] <==> AllSpace(s)
  {
    var r := Strip(s);
    var i, j := StripIsInfix(s);
    if r == [] {
      CutsCoverAll(s, i, j);
    } else {
      assert s[i] == r[0];
    }
  }

  /** The comprehension `[line.strip() for line in lines if line.strip()]`. */
  function FilterLines(lines: seq<string>): (r: seq<string>)
    ensures |r| <= |lines|
  {
    if |lines| == 0 then []
    else
      var kept := FilterLines(lines[..|lines| - 1]);
      var w := Strip(lines[|lines| - 1]);
      if w == [] then kept else kept + [w]
  }

  /** The positions of the lines that survive filtering, in ascending order: an
      independent account of which lines are kept. */
  function KeptPositions(lines: seq<string>): (r: seq<nat>)
    ensures forall k :: 0 <= k < |r| ==> r[k] < |lines|
    ensures forall k, l :: 0 <= k < l < |r| ==> r[k] < r[l]
  {
    if |lines| == 0 then []
    else
      var init := KeptPositions(lines[..|lines| - 1]);
      if Strip(lines[|lines| - 1]) == [] then init else init + [|lines| - 1]
  }

  /** Only non-blank lines are kept. */
  lemma {:induction false} KeptPositionsSound(lines: seq<string>, k: nat)
    requires k < |KeptPositions(lines)|
    ensures Strip(lines[KeptPositions(lines)[k]]) != []
  {
    var init := lines[..|lines| - 1];
    if k < |KeptPositions(init)| {
      KeptPositionsSound(init, k);
      assert init[KeptPositions(init)[k]] == lines[KeptPositions(init)[k]];
    }
  }

  /** No non-blank line is skipped: every line that strips to something
      non-empty has its position among the kept ones. */
  lemma {:induction false} KeptPositionsComplete(lines: seq<string>, i: nat)
    requires i < |lines| && Strip(lines[i]) != []
    ensures i in KeptPositions(lines)
  {
    var init := lines[..|lines| - 1];
    if i < |lines| - 1 {
      assert init[i] == lines[i];
      KeptPositionsComplete(init, i);
    }
  }

  /** Filtering keeps exactly the stripped non-blank lines, in their original
      order: the k-th word is the stripped line at the k-th kept position. */
  lemma {:induction false} FilterLinesKeepsOrder(lines: seq<string>)
    ensures |FilterLines(lines)| == |KeptPositions(lines)|
    ensures forall k :: 0 <= k < |FilterLines(lines)| ==>
              FilterLines(lines)[k] == Strip(lines[KeptPositions(lines)[k]])
  {
    if |lines| > 0 {
      var init := lines[..|lines| - 1];
      FilterLinesKeepsOrder(init);
      var f, p := FilterLines(init), KeptPositions(init);
      forall k | 0 <= k < |f|
        ensures FilterLines(lines)[k] == Strip(lines[KeptPositions(lines)[k]])
      {
        assert FilterLines(lines)[k] == f[k];
        assert KeptPositions(lines)[k] == p[k];
        assert init[p[k]] == lines[p[k]];
      }
    }
  }

  /** Every word the filter returns is non-empty and has no whitespace at
      either end. */
  lemma WordsAreClean(lines: seq<string>, k: nat)
    requires k < |FilterLines(lines)|
    ensures FilterLines(lines)[k] != [] && IsStripped(FilterLines(lines)[k])
  {
    FilterLinesKeepsOrder(lines);
    KeptPositionsSound(lines, k);
  }

  /** Filtering distributes over concatenation of line sequences. */
  lemma {:induction false} FilterLinesAppend(a: seq<string>, b: seq<string>)
    ensures FilterLines(a + b) == FilterLines(a) + FilterLines(b)
  {
    if |b| > 0 {
      var b' := b[..|b| - 1];
      FilterLinesAppend(a, b');
      assert (a + b)[..|a + b| - 1] == a + b';
      assert (a + b)[|a + b| - 1] == b[|b| - 1];
    } else {
      assert a + b == a;
    }
  }

  /** What the loader prints besides returning its list. */
  datatype Notice = Quiet | EmptyFileWarning | FileNotFound

  /** The loader's return value together with the diagnostic it prints. */
  datatype Loaded = Loaded(words: seq<string>, notice: Notice)

  /** `load_wordlist`: a missing file yields the empty list with a not-found
      message; an existing file yields its filtered lines, with a warning when
      none survive. */
  function LoadWordlist(file: Option<seq<string>>): (r: Loaded)
    ensures r.notice == FileNotFound <==> file.None?
    ensures file.Some? ==> r.words == FilterLines(file.value)
    ensures r.words == [] <==> r.notice != Quiet
  {
    match file
    case None => Loaded([], FileNotFound)
    case Some(lines) =>
      var words := FilterLines(lines);
      Loaded(words, if words == [] then EmptyFileWarning else Quiet)
  }

  /** The list comes back empty exactly when the file is missing or every line
      of it is blank. */
  lemma {:induction false} LoadWordlistEmptyIff(file: Option<seq<string>>)
    ensures LoadWordlist(file).words == [] <==>
              (file.None? || forall i :: 0 <= i < |file.value| ==> AllSpace(file.value[i]))
  {
    if file.Some? {
      var lines := file.value;
      FilterLinesKeepsOrder(lines);
      var kept := KeptPositions(lines);
      forall i | 0 <= i < |lines|
        ensures AllSpace(lines[i]) <==> i !in kept
      {
        StripEmptyIffBlank(lines[i]);
        if !AllSpace(lines[i]) {
          KeptPositionsComplete(lines, i);
        }
        if i in kept {
          var k :| 0 <= k < |kept| && kept[k] == i;
          KeptPositionsSound(lines, k);
        }
      }
      if kept != [] {
        assert kept[0] in kept;
      }
    }
  }

  /** The returned value does not tell a missing file from a file of blank
      lines; only the printed notice does. */
  lemma MissingAndBlankReturnSame(lines: seq<string>)
    requires forall i :: 0 <= i < |lines| ==> AllSpace(lines[i])
    ensures LoadWordlist(None).words == LoadWordlist(Some(lines)).words == []
    ensures LoadWordlist(None).notice != LoadWordlist(Some(lines)).notice
  {
    LoadWordlistEmptyIff(Some(lines));
  }
}
