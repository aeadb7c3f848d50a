/** The Jaccard coefficient of two short texts, by a scan that erases what it matches. */
module Jaccard {
  import opened Wrappers

  // --- Meaning -----------------------------------------------------------------------------

  // The characters the texts have in common, with repetitions.
  function Common(a: string, b: string): nat {
    |multiset(a) * multiset(b)|
  }

  // Of all the characters of the two texts, the share they have in common.
  function Coefficient(a: string, b: string): Option<real> {
    CommonBound(a, b);
    Share(Common(a, b), |a|, |b|)
  }

  // For two empty texts the division is 0/0, which is no number.
  function Share(count: nat, length1: nat, length2: nat): Option<real>
    requires count <= length1 && count <= length2
  {
    if length1 + length2 == 0 then None else Some(count as real / (length1 + length2 - count) as real)
  }

  lemma SubMultisetSize<T>(m: multiset<T>, n: multiset<T>)
    requires m <= n
    ensures |m| <= |n|
    ensures |m| == |n| ==> m == n
  {
    assert n == m + (n - m);
    if |m| == |n| {
      assert |n - m| == 0;
    }
  }

  lemma CommonBound(a: string, b: string)
    ensures Common(a, b) <= |a| && Common(a, b) <= |b|
  {
    SubMultisetSize(multiset(a) * multiset(b), multiset(a));
    SubMultisetSize(multiset(a) * multiset(b), multiset(b));
  }

  lemma CoefficientSymmetric(a: string, b: string)
    ensures Coefficient(a, b) == Coefficient(b, a)
  {
    assert multiset(a) * multiset(b) == multiset(b) * multiset(a);
  }

  // Every character of either text, as often as the text that has it more often.
  function Union(a: string, b: string): multiset<char> {
    multiset(a) + (multiset(b) - multiset(a))
  }

  lemma UnionSize(a: string, b: string)
    ensures |Union(a, b)| == |a| + |b| - Common(a, b)
    ensures forall c :: Union(a, b)[c] == if multiset(a)[c] >= multiset(b)[c] then multiset(a)[c] else multiset(b)[c]
  {
    assert multiset(b) == (multiset(b) - multiset(a)) + multiset(a) * multiset(b);
  }

  /** The coefficient is the size of the intersection over that of the union. */
  lemma CoefficientIsRatio(a: string, b: string)
    ensures Coefficient(a, b).Some? <==> |a| + |b| > 0
    ensures |a| + |b| > 0 ==>
      |Union(a, b)| > 0 && Coefficient(a, b).value == |multiset(a) * multiset(b)| as real / |Union(a, b)| as real
  {
    UnionSize(a, b);
    CommonBound(a, b);
  }

  lemma ShareBounds(c: nat, d: nat)
    requires c <= d && d > 0
    ensures 0.0 <= c as real / d as real <= 1.0
    ensures c as real / d as real == 1.0 <==> c == d
  {
    assert c as real / d as real * d as real == c as real;
  }

  /** The coefficient is at most 1, and 1 exactly for permutations of the same characters. */
  lemma CoefficientBounds(a: string, b: string)
    requires |a| + |b| > 0
    ensures Coefficient(a, b).Some? && 0.0 <= Coefficient(a, b).value <= 1.0
    ensures Coefficient(a, b).value == 1.0 <==> multiset(a) == multiset(b)
  {
    CommonBound(a, b);
    ShareBounds(Common(a, b), |a| + |b| - Common(a, b));
    var common := multiset(a) * multiset(b);
    if Common(a, b) == |a| + |b| - Common(a, b) {
      SubMultisetSize(common, multiset(a));
      SubMultisetSize(common, multiset(b));
    }
    if multiset(a) == multiset(b) {
      assert common == multiset(a) && |multiset(a)| == |a| && |multiset(b)| == |b|;
    }
  }

  // --- The scan ----------------------------------------------------------------------------

  // Where a character first occurs, or the length.
  method Find(text: string, c: char) returns (pos: nat)
    ensures pos <= |text| && c !in text[..pos]
    ensures pos < |text| ==> text[pos] == c
    ensures pos == |text| ==> c !in text
  {
    pos := 0;
    while pos < |text| && text[pos] != c
      invariant pos <= |text| && c !in text[..pos]
    {
      pos := pos + 1;
    }
    assert text[..|text|] == text;
  }

  lemma CommonGrows(seen: multiset<char>, all: multiset<char>, c: char)
    ensures |(seen + multiset{c}) * all| == |seen * all| + if c in all - seen then 1 else 0
  {
    if c in all - seen {
      assert (seen + multiset{c}) * all == seen * all + multiset{c};
    } else {
      assert (seen + multiset{c}) * all == seen * all;
    }
  }

  // The text without the character at a position.
  function Erase(text: string, pos: nat): string
    requires pos < |text|
  {
    text[..pos] + text[pos + 1..]
  }

  lemma EraseAt(text: string, pos: nat)
    requires pos < |text|
    ensures multiset(Erase(text, pos)) == multiset(text) - multiset{text[pos]}
  {
    assert text == text[..pos] + [text[pos]] + text[pos + 1..];
  }

  // The rest is what the first i characters have left of the text, and count what they matched.
  ghost predicate Scanned(rest: string, count: nat, str: string, i: nat, text: string)
    requires i <= |str|
  {
    multiset(rest) == multiset(text) - multiset(str[..i]) && count == Common(str[..i], text)
  }

  lemma Matched(rest: string, count: nat, str: string, i: nat, text: string, pos: nat)
    requires i < |str| && Scanned(rest, count, str, i, text)
    requires pos < |rest| && rest[pos] == str[i]
    ensures Scanned(Erase(rest, pos), count + 1, str, i + 1, text)
  {
    var c, seen := str[i], multiset(str[..i]);
    assert str[..i + 1] == str[..i] + [c];
    assert c in multiset(rest);
    EraseAt(rest, pos);
    CommonGrows(seen, multiset(text), c);
    assert multiset(text) - seen - multiset{c} == multiset(text) - (seen + multiset{c});
  }

  lemma Missed(rest: string, count: nat, str: string, i: nat, text: string)
    requires i < |str| && Scanned(rest, count, str, i, text) && str[i] !in rest
    ensures Scanned(rest, count, str, i + 1, text)
  {
    var c, seen := str[i], multiset(str[..i]);
    assert str[..i + 1] == str[..i] + [c];
    assert c !in multiset(rest);
    CommonGrows(seen, multiset(text), c);
    assert multiset(text) - seen == multiset(text) - (seen + multiset{c});
  }

  lemma AllScanned(rest: string, count: nat, str: string, text: string)
    requires Scanned(rest, count, str, |str|, text)
    ensures count <= |str| && count <= |text| && Coefficient(str, text) == Share(count, |str|, |text|)
  {
    assert str[..|str|] == str;
    CommonBound(str, text);
  }

  method Jaccard(str1: string, str2: string) returns (coefficient: Option<real>)
    ensures coefficient == Coefficient(str1, str2)
    ensures coefficient.Some? <==> |str1| + |str2| > 0
    ensures coefficient.Some? ==>
      && |Union(str1, str2)| > 0
      && coefficient.value == |multiset(str1) * multiset(str2)| as real / |Union(str1, str2)| as real
  {
    var rest := str2;
    var count := 0;
    assert Scanned(rest, count, str1, 0, str2);
    hide *;
    for i := 0 to |str1|
      invariant Scanned(rest, count, str1, i, str2)
    {
      var pos := Find(rest, str1[i]);
      if pos < |rest| {
        Matched(rest, count, str1, i, str2, pos);
        rest := Erase(rest, pos);
        count := count + 1;
      } else {
        Missed(rest, count, str1, i, str2);
      }
    }
    AllScanned(rest, count, str1, str2);
    CoefficientIsRatio(str1, str2);
    coefficient := Share(count, |str1|, |str2|);
  }
}
