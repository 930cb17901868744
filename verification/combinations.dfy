/** The exhaustive candidate generator: every string of length 1 up to a
    maximum over a character set, shortest first, each length in the order of
    Python's `itertools.product` (the rightmost position varies fastest). The
    Python generator is lazy; here its output is a finite sequence. */
module Combinations {

  /** `b` to the power `e`. */
  function Pow(b: nat, e: nat): nat {
    if e == 0 then 1 else b * Pow(b, e - 1)
  }

  lemma {:induction false} PowPositive(b: nat, e: nat)
    requires b > 0
    ensures Pow(b, e) > 0
  {
    if e > 0 {
      PowPositive(b, e - 1);
    }
  }

  /** The sum of `n` to the power `L` for `L` from 1 to `maxLength`; zero when
      `maxLength < 1`. Computed without enumerating anything. */
  function TotalCandidates(n: nat, maxLength: int): (r: nat)
    ensures maxLength >= 1 ==> r >= Pow(n, maxLength)
    ensures n >= 1 ==> r >= maxLength
    ensures n == 0 ==> r == 0
    decreases maxLength
  {
    if maxLength < 1 then 0
    else
      assert n > 0 ==> Pow(n, maxLength) > 0 by {
        if n > 0 {
          PowPositive(n, maxLength);
        }
      }
      TotalCandidates(n, maxLength - 1) + Pow(n, maxLength)
  }

  /** The geometric-series closed form of the candidate count. */
  lemma {:induction false} TotalCandidatesClosedForm(n: nat, maxLength: nat)
    ensures (n - 1) * TotalCandidates(n, maxLength) == Pow(n, maxLength + 1) - n
  {
    if maxLength > 0 {
      TotalCandidatesClosedForm(n, maxLength - 1);
      var t, p := TotalCandidates(n, maxLength - 1), Pow(n, maxLength);
      assert (n - 1) * t == p - n;
      assert Pow(n, maxLength + 1) == n * p;
      GeometricStep(n, t, p);
    }
  }

  /** The arithmetic of one step of the geometric sum. */
  lemma GeometricStep(n: int, t: int, p: int)
    requires (n - 1) * t == p - n
    ensures (n - 1) * (t + p) == n * p - n
  {
    assert (n - 1) * (t + p) == (n - 1) * t + (n - 1) * p;
    assert (n - 1) * p == n * p - p;
  }

  /** Every character of `s` occurs in `cs`. */
  predicate Over(s: string, cs: string) {
    forall i :: 0 <= i < |s| ==> s[i] in cs
  }

  /** No character occurs twice in `cs`. */
  predicate Distinct(cs: string) {
    forall i, j :: 0 <= i < j < |cs| ==> cs[i] != cs[j]
  }

  /** `p` extended by each character of `cs`, in the order of `cs`. */
  function Appended(p: string, cs: string): (r: seq<string>)
    ensures |r| == |cs|
    ensures forall i :: 0 <= i < |cs| ==> r[i] == p + [cs[i]]
  {
    seq(|cs|, i requires 0 <= i < |cs| => p + [cs[i]])
  }

  /** One step of the Cartesian product as `itertools.product` builds it: each
      prefix in turn, extended by each character in turn. */
  function Extend(prefixes: seq<string>, cs: string): (r: seq<string>)
    ensures |r| == |prefixes| * |cs|
  {
    if |prefixes| == 0 then []
    else
      var rest := Extend(prefixes[1..], cs);
      assert |prefixes| * |cs| == |cs| + (|prefixes| - 1) * |cs|;
      Appended(prefixes[0], cs) + rest
  }

  /** The entry of an extension at position `q * |cs| + c` is prefix `q`
      followed by character `c`. */
  lemma {:induction false} ExtendAt(prefixes: seq<string>, cs: string, q: nat, c: nat)
    requires q < |prefixes| && c < |cs|
    ensures q * |cs| + c < |Extend(prefixes, cs)|
    ensures Extend(prefixes, cs)[q * |cs| + c] == prefixes[q] + [cs[c]]
  {
    var e := Extend(prefixes, cs);
    assert |e| == |prefixes| * |cs|;
    assert q * |cs| + c < |prefixes| * |cs| by {
      assert q * |cs| <= (|prefixes| - 1) * |cs|;
      assert (|prefixes| - 1) * |cs| + |cs| == |prefixes| * |cs|;
    }
    if q > 0 {
      ExtendAt(prefixes[1..], cs, q - 1, c);
      assert q * |cs| + c == |cs| + ((q - 1) * |cs| + c);
    }
  }

  /** All strings of length `n` over `cs`: `itertools.product(cs, repeat=n)`
      with each tuple joined into a string. */
  function Product(cs: string, n: nat): (r: seq<string>)
    ensures |r| == Pow(|cs|, n)
  {
    if n == 0 then [[]] else Extend(Product(cs, n - 1), cs)
  }

  /** The string whose characters are the base-`|cs|` digits of `k`, most
      significant first, read as positions in `cs`: the reading of an odometer
      whose wheels are labelled with `cs` after `k` clicks. */
  function Odometer(cs: string, n: nat, k: nat): (r: string)
    requires |cs| > 0
    ensures |r| == n && Over(r, cs)
  {
    if n == 0 then [] else Odometer(cs, n - 1, k / |cs|) + [cs[k % |cs|]]
  }

  /** Position of the first occurrence of `c` in `cs`. */
  function IndexOf(cs: string, c: char): (i: nat)
    requires c in cs
    ensures i < |cs| && cs[i] == c
    ensures forall j :: 0 <= j < i ==> cs[j] != c
  {
    if cs[0] == c then 0 else 1 + IndexOf(cs[1..], c)
  }

  /** The number of odometer clicks that produce `s`: its characters' positions
      in `cs` read as base-`|cs|` digits. */
  function Rank(cs: string, s: string): (k: nat)
    requires Over(s, cs)
    ensures k < Pow(|cs|, |s|)
  {
    if |s| == 0 then 0
    else
      var init := s[..|s| - 1];
      assert Over(init, cs) by {
        forall i | 0 <= i < |init|
          ensures init[i] in cs
        {
          assert init[i] == s[i];
        }
      }
      var hi := Rank(cs, init);
      var lo := IndexOf(cs, s[|s| - 1]);
      DigitsBound(hi, lo, |cs|, Pow(|cs|, |init|));
      hi * |cs| + lo
  }

  /** Appending a digit keeps a number below the next power. */
  lemma DigitsBound(hi: nat, lo: nat, base: nat, p: nat)
    requires hi < p && lo < base
    ensures hi * base + lo < base * p
  {
    assert hi * base <= (p - 1) * base;
  }

  /** Splits `k` into its last base-`base` digit and the rest. */
  lemma SplitDigit(k: nat, base: nat, p: nat) returns (q: nat, c: nat)
    requires base > 0 && k < base * p
    ensures q == k / base && c == k % base
    ensures k == q * base + c && c < base && q < p
  {
    q, c := k / base, k % base;
  }

  /** A multiple of `b` strictly between `-b` and `b` is zero. */
  lemma SmallMultiple(d: int, b: int)
    requires b > 0 && -b < d * b < b
    ensures d == 0
  {
  }

  /** Euclidean division undoes appending a digit. */
  lemma DivModDigit(hi: nat, lo: nat, base: nat)
    requires lo < base
    ensures (hi * base + lo) / base == hi
    ensures (hi * base + lo) % base == lo
  {
    var k := hi * base + lo;
    var q, m := k / base, k % base;
    assert k == q * base + m;
    assert (q - hi) * base == lo - m;
    SmallMultiple(q - hi, base);
  }

  /** The k-th string of `Product` is the odometer reading after `k` clicks:
      the order is counting in base `|cs|`, rightmost position fastest. */
  lemma {:induction false} ProductAt(cs: string, n: nat, k: nat)
    requires |cs| > 0 && k < Pow(|cs|, n)
    ensures Product(cs, n)[k] == Odometer(cs, n, k)
  {
    if n > 0 {
      var q, c := SplitDigit(k, |cs|, Pow(|cs|, n - 1));
      var prev := Product(cs, n - 1);
      ProductAt(cs, n - 1, q);
      ExtendAt(prev, cs, q, c);
      assert Product(cs, n)[k] == prev[q] + [cs[c]];
    }
  }

  /** Reading off the odometer after `Rank(cs, s)` clicks gives back `s`. */
  lemma {:induction false} OdometerRank(cs: string, s: string)
    requires Over(s, cs)
    ensures |cs| > 0 ==> Odometer(cs, |s|, Rank(cs, s)) == s
  {
    if |s| > 0 {
      var init := s[..|s| - 1];
      assert Over(init, cs) by {
        forall i | 0 <= i < |init|
          ensures init[i] in cs
        {
          assert init[i] == s[i];
        }
      }
      OdometerRank(cs, init);
      DivModDigit(Rank(cs, init), IndexOf(cs, s[|s| - 1]), |cs|);
      assert s == init + [s[|s| - 1]];
    }
  }

  /** Over a set of distinct characters, ranking an odometer reading gives back
      the number of clicks. */
  lemma {:induction false} RankOdometer(cs: string, n: nat, k: nat)
    requires |cs| > 0 && Distinct(cs) && k < Pow(|cs|, n)
    ensures Rank(cs, Odometer(cs, n, k)) == k
  {
    if n > 0 {
      var o := Odometer(cs, n, k);
      var q, c := SplitDigit(k, |cs|, Pow(|cs|, n - 1));
      RankOdometer(cs, n - 1, q);
      assert o[..n - 1] == Odometer(cs, n - 1, q);
      assert IndexOf(cs, cs[c]) == c;
    }
  }

  /** `Product` holds exactly the strings of length `n` over `cs`. */
  lemma ProductMembers(cs: string, n: nat, s: string)
    ensures s in Product(cs, n) <==> |s| == n && Over(s, cs)
  {
    var p := Product(cs, n);
    if s in p {
      var k :| 0 <= k < |p| && p[k] == s;
      if n > 0 {
        assert |cs| > 0;
        ProductAt(cs, n, k);
      }
    }
    if |s| == n && Over(s, cs) && n > 0 {
      assert |cs| > 0 by {
        assert s[0] in cs;
      }
      OdometerRank(cs, s);
      ProductAt(cs, n, Rank(cs, s));
    }
  }

  /** `generate_combinations(charset, max_length)`: the strings of every length
      from 1 to `maxLength`, lengths ascending, each length in product order.
      Nothing is produced when `maxLength < 1` or `cs` is empty. */
  function Generate(cs: string, maxLength: int): (r: seq<string>)
    ensures |r| == TotalCandidates(|cs|, maxLength)
    decreases maxLength
  {
    if maxLength < 1 then [] else Generate(cs, maxLength - 1) + Product(cs, maxLength)
  }

  /** The generated strings are exactly the non-empty strings over `cs` of
      length at most `maxLength`. */
  lemma {:induction false} GenerateMembers(cs: string, maxLength: int, s: string)
    ensures s in Generate(cs, maxLength) <==> 1 <= |s| <= maxLength && Over(s, cs)
    decreases maxLength
  {
    if maxLength >= 1 {
      GenerateMembers(cs, maxLength - 1, s);
      ProductMembers(cs, maxLength, s);
    }
  }

  /** Shorter strings come first. */
  lemma {:induction false} GenerateLengthOrder(cs: string, maxLength: int, i: nat, j: nat)
    requires i <= j < |Generate(cs, maxLength)|
    ensures |Generate(cs, maxLength)[i]| <= |Generate(cs, maxLength)[j]|
    decreases maxLength
  {
    var g := Generate(cs, maxLength);
    var g' := Generate(cs, maxLength - 1);
    var p := Product(cs, maxLength);
    if j < |g'| {
      GenerateLengthOrder(cs, maxLength - 1, i, j);
    } else {
      ProductMembers(cs, maxLength, g[j]);
      assert g[j] == p[j - |g'|];
      if i < |g'| {
        assert g[i] == g'[i];
        GenerateMembers(cs, maxLength - 1, g[i]);
      } else {
        assert g[i] == p[i - |g'|];
        ProductMembers(cs, maxLength, g[i]);
      }
    }
  }

  /** Where each string sits: the strings of length `L` start after all shorter
      ones, and the k-th of them is the odometer reading after `k` clicks. */
  lemma {:induction false} GenerateAt(cs: string, maxLength: int, len: nat, k: nat)
    requires |cs| > 0 && 1 <= len <= maxLength && k < Pow(|cs|, len)
    ensures TotalCandidates(|cs|, len - 1) + k < |Generate(cs, maxLength)|
    ensures Generate(cs, maxLength)[TotalCandidates(|cs|, len - 1) + k] == Odometer(cs, len, k)
    decreases maxLength
  {
    var g' := Generate(cs, maxLength - 1);
    if len < maxLength {
      GenerateAt(cs, maxLength - 1, len, k);
    } else {
      ProductAt(cs, len, k);
    }
  }

  /** Over distinct characters each string occurs once, at the position fixed
      by its length and its rank. */
  lemma {:induction false} GenerateIndex(cs: string, maxLength: int, a: nat)
    requires Distinct(cs) && a < |Generate(cs, maxLength)|
    ensures Over(Generate(cs, maxLength)[a], cs)
    ensures a == TotalCandidates(|cs|, |Generate(cs, maxLength)[a]| - 1)
                 + Rank(cs, Generate(cs, maxLength)[a])
    decreases maxLength
  {
    var g := Generate(cs, maxLength);
    var g' := Generate(cs, maxLength - 1);
    var s := g[a];
    if a < |g'| {
      assert g'[a] == s;
      GenerateIndex(cs, maxLength - 1, a);
    } else {
      var k := a - |g'|;
      assert Product(cs, maxLength)[k] == s;
      ProductMembers(cs, maxLength, s);
      assert |cs| > 0 by {
        assert s[0] in cs;
      }
      ProductAt(cs, maxLength, k);
      RankOdometer(cs, maxLength, k);
    }
  }

  /** No candidates exactly when the length bound is below 1 or the character
      set is empty. */
  lemma {:induction false} GenerateEmptyIff(cs: string, maxLength: int)
    ensures Generate(cs, maxLength) == [] <==> maxLength < 1 || |cs| == 0
    decreases maxLength
  {
    if maxLength >= 1 {
      GenerateEmptyIff(cs, maxLength - 1);
      if |cs| > 0 {
        PowPositive(|cs|, maxLength);
        assert |Product(cs, maxLength)| > 0;
      }
    }
  }

  /** The worked example: "ab" up to length 2. */
  lemma GenerateExampleAb()
    ensures Generate("ab", 2) == ["a", "b", "aa", "ab", "ba", "bb"]
  {
    assert Product("ab", 1) == ["a", "b"] by {
      var r := Appended([], "ab");
      assert r[0] == "a" && r[1] == "b";
      assert Extend([[]], "ab") == Appended([], "ab") + Extend([], "ab");
    }
    assert Product("ab", 2) == ["aa", "ab", "ba", "bb"] by {
      var ra, rb := Appended("a", "ab"), Appended("b", "ab");
      assert ra[0] == "aa" && ra[1] == "ab";
      assert rb[0] == "ba" && rb[1] == "bb";
      assert ["a", "b"][1..] == ["b"];
      assert Extend(["a", "b"], "ab") == Appended("a", "ab") + Extend(["b"], "ab");
      assert Extend(["b"], "ab") == Appended("b", "ab") + Extend([], "ab");
    }
  }

  /** A single character up to length 1 gives that character alone. */
  lemma GenerateExampleSingle()
    ensures Generate("x", 1) == ["x"]
  {
    assert Product("x", 1) == ["x"] by {
      assert Appended([], "x")[0] == "x";
      assert Extend([[]], "x") == Appended([], "x") + Extend([], "x");
    }
  }
}
