/** `LongestCommonWord.find_longest_common_word` of task02.py: the longest
    string that every string of a list starts with. The class inherits from the
    trie but uses none of it; here it is a free-standing method over a list. */
module LongestCommonWord {
  import opened Strings

  /** Every string of `ss` starts with `q`. */
  predicate IsCommonPrefix(q: string, ss: seq<string>) {
    forall j :: 0 <= j < |ss| ==> StartsWith(ss[j], q)
  }

  /** `r` is a common prefix of `ss` and no common prefix is longer. */
  ghost predicate IsLongestCommonPrefix(r: string, ss: seq<string>) {
    IsCommonPrefix(r, ss) && forall q :: IsCommonPrefix(q, ss) ==> |q| <= |r|
  }

  /** Cutting a common prefix shorter keeps it common. */
  lemma ShorterCommon(q: string, ss: seq<string>, n: nat)
    requires IsCommonPrefix(q, ss) && n <= |q|
    ensures IsCommonPrefix(q[..n], ss)
  {
    forall j | 0 <= j < |ss|
      ensures StartsWith(ss[j], q[..n])
    {
      assert ss[j][..n] == ss[j][..|q|][..n];
    }
  }

  /** `find_longest_common_word(strings)`. An empty list gives the empty
      string. Otherwise the candidate starts as the first string and each
      later string in turn shortens it (`ShrinkToFit`); once it is empty the
      answer is the empty string at once. The result is the longest common
      prefix of the list; a one-string list gives that string back. */
  method FindLongestCommonWord(strings: seq<string>) returns (prefix: string)
    ensures strings == [] ==> prefix == []
    ensures strings != [] ==> IsLongestCommonPrefix(prefix, strings)
    ensures |strings| == 1 ==> prefix == strings[0]
  {
    if strings == [] {
      return [];
    }
    prefix := strings[0];
    FirstLongest(strings);
    var i := 1;
    while i < |strings|
      invariant 1 <= i <= |strings|
      invariant IsLongestCommonPrefix(prefix, strings[..i])
    {
      prefix := ShrinkToFit(strings, i, prefix);
      if prefix == [] {
        EmptyLongest(strings, i + 1);
        return [];
      }
      i := i + 1;
    }
    LongestOfAll(strings, prefix);
  }

  /** The first string is the longest common prefix of the list made of it. */
  lemma FirstLongest(ss: seq<string>)
    requires ss != []
    ensures IsLongestCommonPrefix(ss[0], ss[..1])
  {
    var first := ss[..1];
    assert first[0] == ss[0];
    assert StartsWith(ss[0], ss[0]);
    forall q | IsCommonPrefix(q, first)
      ensures |q| <= |ss[0]|
    {
      assert StartsWith(first[0], q);
    }
  }

  /** The inner loop for string `i`: drop the candidate's last character
      until string `i` starts with it, stopping as soon as it is empty. The
      longest common prefix of the first `i` strings becomes the longest
      common prefix of the first `i + 1`. */
  method ShrinkToFit(strings: seq<string>, i: nat, candidate: string) returns (prefix: string)
    requires 1 <= i < |strings|
    requires IsLongestCommonPrefix(candidate, strings[..i])
    ensures IsLongestCommonPrefix(prefix, strings[..i + 1])
  {
    prefix := candidate;
    var word := strings[i];
    CommonOfLonger(strings, i, i + 1);
    while !StartsWith(word, prefix)
      invariant IsCommonPrefix(prefix, strings[..i])
      invariant forall q :: IsCommonPrefix(q, strings[..i + 1]) ==> |q| <= |prefix|
      decreases |prefix|
    {
      ShrinkStep(strings, i, prefix);
      prefix := prefix[..|prefix| - 1];
      if prefix == [] {
        break;
      }
    }
    ExtendCommon(strings, i, prefix);
  }

  /** Once the empty string is the longest common prefix of the first `n`
      strings, it is the longest common prefix of the whole list. */
  lemma EmptyLongest(ss: seq<string>, n: nat)
    requires n <= |ss|
    requires IsLongestCommonPrefix([], ss[..n])
    ensures IsLongestCommonPrefix([], ss)
  {
    CommonOfLonger(ss, n, |ss|);
    assert ss[..|ss|] == ss;
  }

  /** The longest common prefix of `ss[..|ss|]` is that of `ss`; for a
      one-string list it is that string. */
  lemma LongestOfAll(ss: seq<string>, r: string)
    requires IsLongestCommonPrefix(r, ss[..|ss|])
    ensures IsLongestCommonPrefix(r, ss)
    ensures |ss| == 1 ==> r == ss[0]
  {
    assert ss[..|ss|] == ss;
    if |ss| == 1 {
      assert StartsWith(ss[0], ss[0]);
      assert IsCommonPrefix(ss[0], ss);
      assert StartsWith(ss[0], r);
      SameLengthSamePrefix(ss[0], r, ss[0]);
    }
  }

  /** The candidate's last character is dropped only when it is needed: when
      string `i` does not start with the candidate, no common prefix of the
      first `i + 1` strings is as long as it, and the shortened candidate is
      still common to the first `i`. */
  lemma ShrinkStep(ss: seq<string>, i: nat, longer: string)
    requires 1 <= i < |ss|
    requires IsCommonPrefix(longer, ss[..i]) && !StartsWith(ss[i], longer)
    requires forall q :: IsCommonPrefix(q, ss[..i + 1]) ==> |q| <= |longer|
    ensures longer != []
    ensures IsCommonPrefix(longer[..|longer| - 1], ss[..i])
    ensures forall q :: IsCommonPrefix(q, ss[..i + 1]) ==> |q| <= |longer| - 1
  {
    ShorterCommon(longer, ss[..i], |longer| - 1);
    assert StartsWith(ss[0], longer) by { assert ss[..i][0] == ss[0]; }
    forall q | IsCommonPrefix(q, ss[..i + 1])
      ensures |q| <= |longer| - 1
    {
      var t := ss[..i + 1];
      assert t[0] == ss[0] && t[i] == ss[i];
      assert StartsWith(ss[0], q) && StartsWith(ss[i], q);
      SameLengthSamePrefix(ss[0], q, longer);
    }
  }

  /** Two prefixes of one string with the same length are equal. */
  lemma SameLengthSamePrefix(w: string, q: string, r: string)
    requires StartsWith(w, q) && StartsWith(w, r)
    ensures |q| == |r| ==> q == r
  {
  }

  /** A common prefix of the first `i` strings that string `i` also starts
      with is common to the first `i + 1`. */
  lemma ExtendCommon(ss: seq<string>, i: nat, q: string)
    requires i < |ss| && IsCommonPrefix(q, ss[..i]) && StartsWith(ss[i], q)
    ensures IsCommonPrefix(q, ss[..i + 1])
  {
    var t := ss[..i + 1];
    forall j | 0 <= j < |t|
      ensures StartsWith(t[j], q)
    {
      if j < i {
        assert t[j] == ss[..i][j];
      }
    }
  }

  /** A common prefix of the first `n` strings is a common prefix of the
      first `m`, for `m <= n`. */
  lemma CommonOfLonger(ss: seq<string>, m: nat, n: nat)
    requires m <= n <= |ss|
    ensures forall q :: IsCommonPrefix(q, ss[..n]) ==> IsCommonPrefix(q, ss[..m])
  {
    forall q | IsCommonPrefix(q, ss[..n])
      ensures IsCommonPrefix(q, ss[..m])
    {
      forall j | 0 <= j < m
        ensures StartsWith(ss[..m][j], q)
      {
        assert ss[..m][j] == ss[..n][j];
      }
    }
  }

  /** `w` cannot grow by one character and stay common: some string ends at
      `w`, or differs from the first string right after `w`. */
  predicate CannotExtend(w: string, ss: seq<string>)
    requires ss != []
  {
    |ss[0]| <= |w|
    || exists j :: 0 <= j < |ss| && (|ss[j]| <= |w| || ss[j][|w|] != ss[0][|w|])
  }

  /** A common prefix that can grow by the first string's next character
      is not the longest: the grown string is common too. */
  lemma ExtendableNotLongest(w: string, ss: seq<string>)
    requires ss != [] && IsCommonPrefix(w, ss) && !CannotExtend(w, ss)
    ensures IsCommonPrefix(w + [ss[0][|w|]], ss)
    ensures !IsLongestCommonPrefix(w, ss)
  {
    var longer := w + [ss[0][|w|]];
    forall j | 0 <= j < |ss|
      ensures StartsWith(ss[j], longer)
    {
      assert ss[j][..|longer|] == ss[j][..|w|] + [ss[j][|w|]];
    }
  }

  /** No common prefix is longer than a common prefix that cannot grow. */
  lemma BlockedBound(w: string, ss: seq<string>, q: string)
    requires ss != [] && CannotExtend(w, ss) && IsCommonPrefix(q, ss)
    ensures |q| <= |w|
  {
    assert StartsWith(ss[0], q);
    if |ss[0]| > |w| {
      var j :| 0 <= j < |ss| && (|ss[j]| <= |w| || ss[j][|w|] != ss[0][|w|]);
      assert StartsWith(ss[j], q);
      AgreeWithin(ss[0], ss[j], q);
    }
  }

  /** Two strings that start with `q` agree on its positions. */
  lemma AgreeWithin(a: string, b: string, q: string)
    requires StartsWith(a, q) && StartsWith(b, q)
    ensures forall k :: 0 <= k < |q| ==> a[k] == b[k]
  {
    forall k | 0 <= k < |q|
      ensures a[k] == b[k]
    {
      assert a[k] == a[..|q|][k] && b[k] == b[..|q|][k];
    }
  }

  /** The longest common prefix of a non-empty list is exactly the common
      prefix that cannot be extended. */
  lemma LongestIffCannotExtend(w: string, ss: seq<string>)
    requires ss != []
    ensures IsLongestCommonPrefix(w, ss) <==> IsCommonPrefix(w, ss) && CannotExtend(w, ss)
  {
    if IsCommonPrefix(w, ss) && !CannotExtend(w, ss) {
      ExtendableNotLongest(w, ss);
    }
    if IsCommonPrefix(w, ss) && CannotExtend(w, ss) {
      forall q | IsCommonPrefix(q, ss)
        ensures |q| <= |w|
      {
        BlockedBound(w, ss, q);
      }
    }
  }

  /** Two longest common prefixes of the same non-empty list are equal. */
  lemma LongestUnique(r1: string, r2: string, ss: seq<string>)
    requires ss != [] && IsLongestCommonPrefix(r1, ss) && IsLongestCommonPrefix(r2, ss)
    ensures r1 == r2
  {
    assert |r1| == |r2|;
    assert StartsWith(ss[0], r1) && StartsWith(ss[0], r2);
  }

  /** A common prefix that string `j` stops from growing is the longest. */
  lemma LongestIs(w: string, ss: seq<string>, j: nat)
    requires ss != [] && IsCommonPrefix(w, ss)
    requires j < |ss| && (|ss[j]| <= |w| || (|w| < |ss[0]| && ss[j][|w|] != ss[0][|w|]))
    ensures IsLongestCommonPrefix(w, ss)
  {
    assert CannotExtend(w, ss);
    LongestIffCannotExtend(w, ss);
  }

  /** "fl" starts each of "flower", "flow" and "flight"; "flight" stops it
      from growing. */
  lemma FlowerFacts(ss: seq<string>)
    requires ss == ["flower", "flow", "flight"]
    ensures IsCommonPrefix("fl", ss) && ss[2][2] != ss[0][2]
  {
    assert StartsWith(ss[0], "fl") && StartsWith(ss[1], "fl") && StartsWith(ss[2], "fl");
  }

  /** "inters" starts each of "interspecies", "interstellar" and "interstate";
      "interstellar" stops it from growing. */
  lemma InterFacts(ss: seq<string>)
    requires ss == ["interspecies", "interstellar", "interstate"]
    ensures IsCommonPrefix("inters", ss) && ss[1][6] != ss[0][6]
  {
    assert ss[0][..7] == "intersp" && ss[1][..7] == "interst" && ss[2][..6] == "inters";
    assert ss[0][..6] == ss[0][..7][..6] && ss[1][..6] == ss[1][..7][..6];
    assert ss[1][6] == ss[1][..7][6] != ss[0][..7][6] == ss[0][6];
  }

  lemma FlowerCase(ss: seq<string>)
    requires ss == ["flower", "flow", "flight"]
    ensures IsLongestCommonPrefix("fl", ss)
  {
    FlowerFacts(ss);
    LongestIs("fl", ss, 2);
  }

  lemma InterCase(ss: seq<string>)
    requires ss == ["interspecies", "interstellar", "interstate"]
    ensures IsLongestCommonPrefix("inters", ss)
  {
    InterFacts(ss);
    LongestIs("inters", ss, 1);
  }

  lemma CarCase(ss: seq<string>)
    requires ss == ["dog", "racecar", "car"]
    ensures IsLongestCommonPrefix("", ss)
  {
    assert ss[1][0] != ss[0][0];
    LongestIs("", ss, 1);
  }

  /** The demonstration of task02.py as a method, with the empty list added. */
  method Demo() returns (a: string, b: string, c: string, d: string)
    ensures a == "fl" && b == "inters" && c == "" && d == ""
  {
    var flowers := ["flower", "flow", "flight"];
    a := FindLongestCommonWord(flowers);
    FlowerCase(flowers);
    LongestUnique(a, "fl", flowers);

    var inters := ["interspecies", "interstellar", "interstate"];
    b := FindLongestCommonWord(inters);
    InterCase(inters);
    LongestUnique(b, "inters", inters);

    var cars := ["dog", "racecar", "car"];
    c := FindLongestCommonWord(cars);
    CarCase(cars);
    LongestUnique(c, "", cars);

    d := FindLongestCommonWord([]);
  }
}
