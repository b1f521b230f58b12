/** How similar two messages are: the share of their longest common substring (src/messages/MessageSimilarity.cpp). */
module MessageSimilarity {
  import opened Arithmetic

  /** The `n` characters that end before `i` in one text and before `j` in the other are the same. */
  ghost predicate SameEnding<T>(a: seq<T>, b: seq<T>, i: nat, j: nat, n: nat) {
    n <= i <= |a| && n <= j <= |b| && a[i - n..i] == b[j - n..j]
  }

  /** `n` characters in a row occur in both texts. */
  ghost predicate HaveCommon<T>(a: seq<T>, b: seq<T>, n: nat) {
    exists i: nat, j: nat :: SameEnding(a, b, i, j, n)
  }

  ghost predicate IsLongestCommon<T>(a: seq<T>, b: seq<T>, n: nat) {
    HaveCommon(a, b, n) && forall m: nat :: HaveCommon(a, b, m) ==> m <= n
  }

  /** The longest common ending, which is what the table holds. */
  function Run<T(==)>(a: seq<T>, b: seq<T>, i: nat, j: nat): (n: nat)
    requires i <= |a| && j <= |b|
    ensures n <= i && n <= j
  {
    if i == 0 || j == 0 || a[i - 1] != b[j - 1] then 0 else 1 + Run(a, b, i - 1, j - 1)
  }

  lemma {:induction false} SameEndingGrows<T>(a: seq<T>, b: seq<T>, i: nat, j: nat, n: nat)
    requires 0 < i <= |a| && 0 < j <= |b| && SameEnding(a, b, i - 1, j - 1, n) && a[i - 1] == b[j - 1]
    ensures SameEnding(a, b, i, j, n + 1)
  {
    assert a[i - 1 - n..i] == a[i - 1 - n..i - 1] + [a[i - 1]];
    assert b[j - 1 - n..j] == b[j - 1 - n..j - 1] + [b[j - 1]];
  }

  lemma {:induction false} RunIsCommon<T>(a: seq<T>, b: seq<T>, i: nat, j: nat)
    requires i <= |a| && j <= |b|
    ensures SameEnding(a, b, i, j, Run(a, b, i, j))
  {
    if i > 0 && j > 0 && a[i - 1] == b[j - 1] {
      RunIsCommon(a, b, i - 1, j - 1);
      SameEndingGrows(a, b, i, j, Run(a, b, i - 1, j - 1));
    }
  }

  lemma {:induction false} RunIsHad<T>(a: seq<T>, b: seq<T>, i: nat, j: nat)
    requires i <= |a| && j <= |b|
    ensures HaveCommon(a, b, Run(a, b, i, j))
  {
    RunIsCommon(a, b, i, j);
  }

  lemma {:induction false} RunIsLongest<T>(a: seq<T>, b: seq<T>, i: nat, j: nat, n: nat)
    requires SameEnding(a, b, i, j, n)
    ensures n <= Run(a, b, i, j)
  {
    if n > 0 {
      assert a[i - 1] == a[i - n..i][n - 1] == b[j - n..j][n - 1] == b[j - 1];
      assert a[i - n..i - 1] == a[i - n..i][..n - 1] == b[j - n..j][..n - 1] == b[j - n..j - 1];
      RunIsLongest(a, b, i - 1, j - 1, n - 1);
    }
  }

  /** The similarity as a fraction of the longer text; the original computes it in single precision. */
  function Share(z: nat, len1: nat, len2: nat): real {
    if z == 0 then 0.0 else z as real / Max(1, Max(len1, len2)) as real
  }

  /** The cells of the first `i` rows hold the longest common endings, none longer than `z`. */
  ghost predicate RowsFilled<T>(str1: seq<T>, str2: seq<T>, tree: array2<nat>, i: nat, z: nat)
    requires tree.Length0 == |str1| && tree.Length1 == |str2| && i <= |str1|
    reads tree
  {
    forall p, q :: 0 <= p < i && 0 <= q < |str2| ==> tree[p, q] == Run(str1, str2, p + 1, q + 1) && tree[p, q] <= z
  }

  /** One cell; row `i` and column `j` belong to the characters `str1[i]` and `str2[j]`. */
  method FillCell<T(==)>(str1: seq<T>, str2: seq<T>, tree: array2<nat>, i: nat, j: nat, z: nat) returns (longest: nat)
    requires tree.Length0 == |str1| && tree.Length1 == |str2| && i < |str1| && j < |str2|
    requires i > 0 && j > 0 ==> tree[i - 1, j - 1] == Run(str1, str2, i, j)
    modifies tree
    ensures tree[i, j] == Run(str1, str2, i + 1, j + 1)
    ensures longest == Max(tree[i, j], z)
    ensures forall p, q :: 0 <= p < |str1| && 0 <= q < |str2| && (p != i || q != j) ==> tree[p, q] == old(tree[p, q])
  {
    longest := z;
    if str1[i] == str2[j] {
      if i == 0 || j == 0 {
        tree[i, j] := 1;
      } else {
        tree[i, j] := tree[i - 1, j - 1] + 1;
      }
      longest := Max(tree[i, j], z);
    } else {
      tree[i, j] := 0;
    }
  }

  /** One row of the table. */
  method FillRow<T(==)>(str1: seq<T>, str2: seq<T>, tree: array2<nat>, i: nat, z: nat) returns (longest: nat)
    requires tree.Length0 == |str1| && tree.Length1 == |str2| && i < |str1|
    requires HaveCommon(str1, str2, z) && RowsFilled(str1, str2, tree, i, z)
    modifies tree
    ensures HaveCommon(str1, str2, longest) && RowsFilled(str1, str2, tree, i + 1, longest)
  {
    longest := z;
    for j := 0 to |str2|
      invariant HaveCommon(str1, str2, longest) && RowsFilled(str1, str2, tree, i, longest)
      invariant forall q :: 0 <= q < j ==> tree[i, q] == Run(str1, str2, i + 1, q + 1) && tree[i, q] <= longest
    {
      RunIsHad(str1, str2, i + 1, j + 1);
      longest := FillCell(str1, str2, tree, i, j, longest);
    }
  }

  /** No common substring is longer than the largest cell. */
  lemma {:induction false} CellsBound<T>(str1: seq<T>, str2: seq<T>, tree: array2<nat>, z: nat, n: nat)
    requires tree.Length0 == |str1| && tree.Length1 == |str2| && RowsFilled(str1, str2, tree, |str1|, z)
    requires HaveCommon(str1, str2, n)
    ensures n <= z
  {
    var i: nat, j: nat :| SameEnding(str1, str2, i, j, n);
    RunIsLongest(str1, str2, i, j, n);
    if n > 0 {
      assert tree[i - 1, j - 1] == Run(str1, str2, i - 1 + 1, j - 1 + 1);
    }
  }

  /** The table loop. */
  method LongestCommon<T(==)>(str1: seq<T>, str2: seq<T>) returns (z: nat)
    ensures IsLongestCommon(str1, str2, z)
  {
    var tree := new nat[|str1|, |str2|]((_, _) => 0);
    z := 0;
    assert SameEnding(str1, str2, 0, 0, 0);
    for i := 0 to |str1|
      invariant HaveCommon(str1, str2, z) && RowsFilled(str1, str2, tree, i, z)
    {
      z := FillRow(str1, str2, tree, i, z);
    }
    forall m: nat | HaveCommon(str1, str2, m) ensures m <= z {
      CellsBound(str1, str2, tree, z, m);
    }
  }

  lemma {:induction false} LongestCommonIsUnique<T>(a: seq<T>, b: seq<T>, n: nat, m: nat)
    requires IsLongestCommon(a, b, n) && IsLongestCommon(a, b, m)
    ensures n == m
  {
  }

  method RelativeSimilarity<T(==)>(str1: seq<T>, str2: seq<T>) returns (similarity: real)
    ensures forall n :: IsLongestCommon(str1, str2, n) ==> similarity == Share(n, |str1|, |str2|)
    // as many characters are shared as the similarity says of the longer text
    ensures forall n :: IsLongestCommon(str1, str2, n) ==>
      similarity * (Max(1, Max(|str1|, |str2|)) as real) == n as real
    ensures 0.0 <= similarity <= 1.0 && (similarity == 1.0 <==> str1 == str2 && str1 != [])
  {
    var z := LongestCommon(str1, str2);
    forall n | IsLongestCommon(str1, str2, n) ensures n == z {
      LongestCommonIsUnique(str1, str2, n, z);
    }
    SimilarityIsShare(str1, str2, z);
    ShareTimesLength(z, |str1|, |str2|);
    similarity := Share(z, |str1|, |str2|);
  }

  lemma {:induction false} ShareTimesLength(z: nat, len1: nat, len2: nat)
    ensures Share(z, len1, len2) * (Max(1, Max(len1, len2)) as real) == z as real
  {
  }

  lemma {:induction false} CommonIsSymmetric<T>(a: seq<T>, b: seq<T>, n: nat)
    requires HaveCommon(a, b, n)
    ensures HaveCommon(b, a, n)
  {
    var i: nat, j: nat :| SameEnding(a, b, i, j, n);
    assert SameEnding(b, a, j, i, n);
  }

  /** The order of the texts does not matter. */
  lemma {:induction false} SimilarityIsSymmetric<T>(a: seq<T>, b: seq<T>, n: nat, m: nat)
    requires IsLongestCommon(a, b, n) && IsLongestCommon(b, a, m)
    ensures Share(n, |a|, |b|) == Share(m, |b|, |a|)
  {
    CommonIsSymmetric(a, b, n);
    CommonIsSymmetric(b, a, m);
  }

  /** The similarity is between 0 and 1, and it is 1 exactly for equal texts that are not empty. */
  lemma {:induction false} SimilarityIsShare<T>(a: seq<T>, b: seq<T>, n: nat)
    requires IsLongestCommon(a, b, n)
    ensures 0.0 <= Share(n, |a|, |b|) <= 1.0
    ensures Share(n, |a|, |b|) == 1.0 <==> a == b && a != []
  {
    CommonFits(a, b, n);
    if n > 0 {
      ShareBounds(n, Max(1, Max(|a|, |b|)));
    }
  }

  /** A common substring is no longer than the shorter text, and as long as both only if they are equal. */
  lemma {:induction false} CommonFits<T>(a: seq<T>, b: seq<T>, n: nat)
    requires IsLongestCommon(a, b, n)
    ensures n <= |a| && n <= |b|
    ensures n == Max(|a|, |b|) <==> a == b
  {
    var i: nat, j: nat :| SameEnding(a, b, i, j, n);
    if n == Max(|a|, |b|) {
      WholeEnding(a, i, n);
      WholeEnding(b, j, n);
    } else if a == b {
      assert SameEnding(a, a, |a|, |a|, |a|);
      assert HaveCommon(a, b, |a|);
    }
  }

  lemma {:induction false} WholeEnding<T>(s: seq<T>, i: nat, n: nat)
    requires n <= i <= |s| <= n
    ensures s[i - n..i] == s
  {
  }

  lemma {:induction false} ShareBounds(n: nat, d: nat)
    requires 0 < n <= d
    ensures 0.0 < n as real / d as real <= 1.0
    ensures n as real / d as real == 1.0 <==> n == d
  {
    QuotientBounds(n as real / d as real, n as real, d as real);
  }

  lemma {:induction false} QuotientBounds(r: real, m: real, e: real)
    requires r * e == m && 0.0 < m <= e
    ensures 0.0 < r <= 1.0 && (r == 1.0 <==> m == e)
  {
    if r <= 0.0 {
      NotPositiveProduct(r, e);
    } else if r < 1.0 {
      SmallerProduct(r, 1.0, e);
    } else if r > 1.0 {
      SmallerProduct(1.0, r, e);
    }
  }

  lemma {:induction false} SmallerProduct(x: real, y: real, e: real)
    requires x < y && e > 0.0
    ensures x * e < y * e
  {
    assert (y - x) * e > 0.0;
  }

  lemma {:induction false} NotPositiveProduct(x: real, e: real)
    requires x <= 0.0 && e > 0.0
    ensures x * e <= 0.0
  {
    assert -x * e >= 0.0;
  }
}
