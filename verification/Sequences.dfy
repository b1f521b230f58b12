/** Edits of lists that several parts of the model share. */
module Sequences {
  function InsertAt<T>(s: seq<T>, i: nat, x: T): (r: seq<T>)
    requires i <= |s|
    ensures |r| == |s| + 1
  {
    s[..i] + [x] + s[i..]
  }

  function RemoveAt<T>(s: seq<T>, i: nat): (r: seq<T>)
    requires i < |s|
    ensures |r| == |s| - 1
  {
    s[..i] + s[i + 1..]
  }

  lemma {:induction false} InsertAtIndices<T>(s: seq<T>, i: nat, x: T)
    requires i <= |s|
    ensures forall j :: 0 <= j <= |s| ==>
      InsertAt(s, i, x)[j] == if j < i then s[j] else if j == i then x else s[j - 1]
  {
    assert InsertAt(s, i, x) == s[..i] + [x] + s[i..];
  }

  lemma {:induction false} InsertAtConcat<T>(s: seq<T>, i: nat, x: T, t: seq<T>)
    requires i <= |s|
    ensures InsertAt(s, i, x) + t == InsertAt(s + t, i, x)
  {
  }

  lemma {:induction false} InsertAtBack<T>(s: seq<T>, t: seq<T>, i: nat, x: T)
    requires i <= |t|
    ensures InsertAt(s + t, |s| + i, x) == s + InsertAt(t, i, x)
  {
    assert (s + t)[..|s| + i] == s + t[..i] && (s + t)[|s| + i..] == t[i..];
  }

  lemma {:induction false} DropConcat<T>(s: seq<T>, t: seq<T>, i: nat)
    requires i <= |s|
    ensures (s + t)[i..] == s[i..] + t
  {
  }

  lemma {:induction false} UpdateConcat<T>(s: seq<T>, t: seq<T>, i: nat, x: T)
    requires i < |s|
    ensures (s + t)[i := x] == s[i := x] + t
  {
  }

  lemma {:induction false} UpdateLast<T>(s: seq<T>, y: T, x: T)
    ensures (s + [y])[|s| := x] == s + [x]
  {
  }

  lemma {:induction false} SnocCounts<T>(s: seq<T>, x: T)
    ensures multiset(s + [x]) == multiset(s) + multiset{x}
  {
  }

  /** What was put in comes out again, and the rest is what it was. */
  lemma {:induction false} RemoveUndoesInsert<T>(s: seq<T>, i: nat, x: T)
    requires i <= |s|
    ensures RemoveAt(InsertAt(s, i, x), i) == s
  {
  }

  lemma {:induction false} InsertUndoesRemove<T>(s: seq<T>, i: nat, x: T)
    requires i < |s|
    ensures InsertAt(RemoveAt(s, i), i, x) == s[i := x]
  {
  }

  lemma {:induction false} InsertAddsOne<T>(s: seq<T>, i: nat, x: T)
    requires i <= |s|
    ensures multiset(InsertAt(s, i, x)) == multiset(s) + multiset{x}
  {
    assert s == s[..i] + s[i..];
  }

  lemma {:induction false} RemoveTakesOne<T>(s: seq<T>, i: nat)
    requires i < |s|
    ensures multiset(RemoveAt(s, i)) + multiset{s[i]} == multiset(s)
  {
    assert s == s[..i] + [s[i]] + s[i + 1..];
  }

  lemma {:induction false} SliceGrows<T>(s: seq<T>, i: nat, j: nat)
    requires i <= j < |s|
    ensures s[i..j] + [s[j]] == s[i..j + 1]
  {
  }

  lemma {:induction false} ConcatAssociates<T>(a: seq<T>, b: seq<T>, c: seq<T>)
    ensures (a + b) + c == a + (b + c)
  {
  }

  lemma {:induction false} TailOfConcat<T>(a: seq<T>, b: seq<T>)
    requires a != []
    ensures (a + b)[0] == a[0] && (a + b)[1..] == a[1..] + b
  {
  }

  lemma {:induction false} WholeSuffix<T>(s: seq<T>, i: nat)
    requires i <= |s|
    ensures s[i..|s|] == s[i..]
  {
  }

  lemma {:induction false} FrontAndLast<T>(s: seq<T>)
    requires s != []
    ensures s == s[..|s| - 1] + [s[|s| - 1]]
  {
  }
}
