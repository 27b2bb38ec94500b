/** Facts about slicing and concatenating sequences, stated once for any
    element type so that the bit and byte proofs can cite them. */
module SeqFacts {

  lemma {:induction false} SliceOfSlice<T>(s: seq<T>, a: nat, b: nat, c: nat, d: nat)
    requires a <= b <= |s| && c <= d <= b - a
    ensures s[a .. b][c .. d] == s[a + c .. a + d]
  {
    forall j | 0 <= j < d - c
      ensures s[a .. b][c .. d][j] == s[a + c .. a + d][j]
    {
    }
  }

  lemma {:induction false} PrefixAndRest<T>(s: seq<T>, i: nat, rest: seq<T>)
    requires i <= |s| && s[i..] == rest
    ensures s == s[..i] + rest
  {
  }

  lemma {:induction false} SuffixPastFirst<T>(a: seq<T>, b: seq<T>, j: nat)
    requires j <= |b|
    ensures (a + b)[|a| + j..] == b[j..]
  {
  }

  lemma {:induction false} AppendAssoc<T>(a: seq<T>, b: seq<T>, c: seq<T>)
    ensures a + (b + c) == a + b + c
  {
  }

  lemma {:induction false} SplitThree<T>(s: seq<T>, i: nat, j: nat)
    requires i <= j <= |s|
    ensures s == s[..i] + s[i .. j] + s[j..]
  {
  }

  lemma {:induction false} MiddleOfThree<T>(a: seq<T>, b: seq<T>, c: seq<T>)
    ensures (a + b + c)[|a| .. |a| + |b|] == b
  {
  }

  /** A prefix that reaches past the first part keeps all of it. */
  lemma {:induction false} PrefixPastFirst<T>(a: seq<T>, b: seq<T>, j: nat)
    requires j <= |b|
    ensures (a + b)[..|a| + j] == a + b[..j]
  {
  }

  lemma {:induction false} DropTwo<T>(a: seq<T>, b: seq<T>, c: seq<T>)
    ensures (a + b + c)[|a| + |b|..] == c
    ensures (a + b + c)[..|a| + |b|] == a + b
  {
  }

  /** Updating the element at p leaves the elements before it alone. */
  lemma {:induction false} UpdateKeepsPrefix<T>(s: seq<T>, p: nat, x: T)
    requires p < |s|
    ensures s[p := x][..p] == s[..p]
  {
  }

  /** A run inside a piece that sits at a .. b in s is the run at a + o of s. */
  lemma {:induction false} SliceWithin<T>(s: seq<T>, a: nat, b: nat, piece: seq<T>, o: nat, k: nat)
    requires a <= b <= |s| && s[a .. b] == piece && o + k <= b - a
    ensures s[a + o .. a + o + k] == piece[o .. o + k]
  {
    SliceOfSlice(s, a, b, o, o + k);
  }

  /** A run inside the first part of a concatenation. */
  lemma {:induction false} RunInFirst<T>(a: seq<T>, b: seq<T>, i: nat, k: nat)
    requires i + k <= |a|
    ensures (a + b)[i .. i + k] == a[i .. i + k]
  {
  }

  /** A run inside the second part of a concatenation, at offset j of it. */
  lemma {:induction false} RunInSecond<T>(a: seq<T>, b: seq<T>, i: nat, j: nat, k: nat)
    requires i == |a| + j && j + k <= |b|
    ensures (a + b)[i .. i + k] == b[j .. j + k]
  {
  }

  /** A run split at an inner point is its two halves. */
  lemma {:induction false} SplitRun<T>(s: seq<T>, a: nat, b: nat, c: nat)
    requires a <= b <= c <= |s|
    ensures s[a .. c] == s[a .. b] + s[b .. c]
  {
  }

  /** A run inside a prefix of s is the same run of s. */
  lemma {:induction false} RunInPrefix<T>(s: seq<T>, n: nat, a: nat, b: nat)
    requires a <= b <= n <= |s|
    ensures s[..n][a .. b] == s[a .. b]
  {
    forall j | 0 <= j < b - a
      ensures s[..n][a .. b][j] == s[a .. b][j]
    {
    }
  }

  /** The second part of a concatenation, found at its offset. */
  lemma {:induction false} LastPart<T>(a: seq<T>, b: seq<T>)
    ensures (a + b)[|a| .. |a| + |b|] == b
  {
  }

  /** The first part of a concatenation. */
  lemma {:induction false} FirstPart<T>(a: seq<T>, b: seq<T>)
    ensures (a + b)[0 .. |a|] == a
  {
  }

  /** Five runs regrouped: the first four as one, then all five as one.
      The three shapes are the ones the scenario proofs meet (committed bits
      starting from `[]`, and a read of the whole run); stating them here
      keeps that sequence reasoning out of the larger proofs. */
  lemma {:induction false} RegroupRuns<T>(a: seq<T>, b: seq<T>, c: seq<T>, d: seq<T>, e: seq<T>, h: seq<T>, g: seq<T>)
    requires a + b + c + d == h && h + e == g
    ensures [] + a + b + c + d + e == [] + h + e
    ensures [] + a + b + c + d + e == [] + g + []
    ensures [] + a + b + c + d + e == h + e
  {
    assert [] + a == a;
  }

  /** The run over all of a sequence is the sequence. */
  lemma {:induction false} WholeRun<T>(s: seq<T>, n: nat)
    requires n == |s|
    ensures s[0 .. n] == s
  {
  }
}
