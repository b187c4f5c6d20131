/** Sequence helpers used across the model. */
module SeqUtil {

  predicate Distinct<T(==)>(s: seq<T>) {
    forall i, j | 0 <= i < j < |s| :: s[i] != s[j]
  }

  function Reverse<T>(s: seq<T>): (r: seq<T>)
    ensures |r| == |s|
    ensures forall i | 0 <= i < |s| :: r[i] == s[|s| - 1 - i]
  {
    if s == [] then [] else Reverse(s[1..]) + [s[0]]
  }

  lemma ReverseConcat<T>(a: seq<T>, b: seq<T>)
    ensures Reverse(a + b) == Reverse(b) + Reverse(a)
  {
  }

  lemma ReverseReverse<T>(s: seq<T>)
    ensures Reverse(Reverse(s)) == s
  {
  }

  /** The naturals 0 .. n-1 in increasing order. */
  function Iota(n: nat): (r: seq<nat>)
    ensures |r| == n && forall i | 0 <= i < n :: r[i] == i
  {
    seq(n, i => i)
  }

  /** `s` is a permutation of 0 .. n-1: it has n distinct entries, all below n,
      and every value below n occurs. */
  predicate IsPermutationOfRange(s: seq<nat>, n: nat) {
    && |s| == n
    && Distinct(s)
    && (forall k | 0 <= k < |s| :: s[k] < n)
    && (forall x: nat | x < n :: x in s)
  }

  /** A non-empty sequence is its head followed by its tail. */
  lemma HeadTail<T>(s: seq<T>)
    requires s != []
    ensures [s[0]] + s[1..] == s
  {
  }

  /** Appending one element, then the rest, is putting the element in
      front of the rest. */
  lemma AppendOne<T>(s: seq<T>, x: T, rest: seq<T>)
    ensures (s + [x]) + rest == s + ([x] + rest)
  {
  }

  /** The index of the first `c` from i on, or |s| when there is none:
      std::string::find_first_of with |s| standing for npos. */
  function FindChar(s: string, c: char, i: nat): (p: nat)
    requires i <= |s|
    ensures i <= p <= |s|
    ensures p < |s| ==> s[p] == c
    ensures forall k | i <= k < p :: s[k] != c
    decreases |s| - i
  {
    if i == |s| || s[i] == c then i else FindChar(s, c, i + 1)
  }

  /** The search stops at the first occurrence: any q whose character is
      c and which no earlier c precedes is the answer. */
  lemma {:induction false} FindCharFinds(s: string, c: char, i: nat, q: nat)
    requires i <= q < |s| && s[q] == c
    requires forall k | i <= k < q :: s[k] != c
    ensures FindChar(s, c, i) == q
    decreases q - i
  {
    if i < q {
      FindCharFinds(s, c, i + 1, q);
    }
  }

  /** A slice that spells x + y spells x, then y. */
  lemma SliceSplit<T>(s: seq<T>, pos: nat, x: seq<T>, y: seq<T>)
    requires pos + |x| + |y| <= |s| && s[pos..pos + |x| + |y|] == x + y
    ensures s[pos..pos + |x|] == x && s[pos + |x|..pos + |x| + |y|] == y
  {
    var w := s[pos..pos + |x| + |y|];
    assert s[pos..pos + |x|] == w[..|x|];
    assert s[pos + |x|..pos + |x| + |y|] == w[|x|..];
  }

  /** The first element of a slice that spells x is x's first. */
  lemma SliceHead<T>(s: seq<T>, pos: nat, x: seq<T>)
    requires x != [] && pos + |x| <= |s| && s[pos..pos + |x|] == x
    ensures s[pos] == x[0]
  {
    assert s[pos] == s[pos..pos + |x|][0];
  }
}
