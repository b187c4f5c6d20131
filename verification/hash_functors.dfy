/** The hash functors used with HashMap (structures/HashFunctors.hpp).
    Every functor returns a 32-bit unsigned value. */
module HashFunctors {

  const TwoTo32: nat := 0x1_0000_0000

  /** IntHashFunctor: the conversion of a 32-bit int to unsigned. */
  function IntHash(i: int): (h: nat)
    requires -0x8000_0000 <= i < 0x8000_0000
    ensures h < TwoTo32
    ensures i >= 0 ==> h == i
    ensures i < 0 ==> h == i + TwoTo32
  {
    i % TwoTo32
  }

  /** UnsignedIntHashFunctor: the identity. */
  function UnsignedIntHash(u: nat): (h: nat)
    requires u < TwoTo32
    ensures h == u
  {
    u
  }

  /** The value a `char` (signed, 8 bits) contributes to the sum: the low
      byte of the character, read as a two's-complement number. */
  function SignedChar(c: char): (v: int)
    ensures -128 <= v < 128
    ensures v % 256 == (c as int) % 256
  {
    var b := (c as int) % 256;
    if b >= 128 then b - 256 else b
  }

  /** The number of characters the string hash reads: at most 5, and none
      from the first NUL on (std::string::operator[] yields NUL at the end). */
  function HashedLength(s: string): (n: nat)
    ensures n <= 5 && n <= |s|
    ensures forall i | 0 <= i < n :: s[i] != '\0'
    ensures n < 5 && n < |s| ==> s[n] == '\0'
  {
    HashedLengthFrom(s, 0)
  }

  function HashedLengthFrom(s: string, i: nat): (n: nat)
    requires i <= 5 && i <= |s|
    requires forall k | 0 <= k < i :: s[k] != '\0'
    ensures i <= n <= 5 && n <= |s|
    ensures forall k | 0 <= k < n :: s[k] != '\0'
    ensures n < 5 && n < |s| ==> s[n] == '\0'
    decreases 5 - i
  {
    if i < 5 && i < |s| && s[i] != '\0' then HashedLengthFrom(s, i + 1) else i
  }

  /** StringHashFunctor: index = (index << 5) + str[i] in unsigned 32-bit
      arithmetic, over the hashed characters. */
  function StringHash(s: string): (h: nat)
    ensures h < TwoTo32
  {
    HornerHash(s[..HashedLength(s)])
  }

  /** The shift-and-add recurrence over a whole prefix, wrapped to 32 bits. */
  function HornerHash(p: string): (h: nat)
    ensures h < TwoTo32
  {
    if p == [] then 0
    else (HornerHash(p[..|p| - 1]) * 32 + SignedChar(p[|p| - 1])) % TwoTo32
  }

  /** The C++ loop, step by step, agrees with the recurrence. */
  method StringHashLoop(s: string) returns (index: nat)
    ensures index == StringHash(s)
  {
    index := 0;
    var i := 0;
    while i < 5 && i < |s| && s[i] != '\0'
      invariant 0 <= i <= HashedLength(s)
      invariant index == HornerHash(s[..i])
      decreases 5 - i
    {
      assert s[..i + 1][..i] == s[..i];
      index := (index * 32 + SignedChar(s[i])) % TwoTo32;
      i := i + 1;
    }
    assert i == HashedLength(s);
  }

  lemma EmptyStringHashesToZero()
    ensures StringHash("") == 0
  {
  }

  /** Only the first five characters count: strings that agree on them
      hash equally, whatever follows. */
  lemma SamePrefixSameHash(s: string, t: string)
    requires |s| >= 5 && |t| >= 5 && s[..5] == t[..5]
    ensures StringHash(s) == StringHash(t)
  {
    HashedLengthOnPrefix(s, t, 0);
    assert s[..HashedLength(s)] == s[..5][..HashedLength(s)];
    assert t[..HashedLength(t)] == t[..5][..HashedLength(t)];
  }

  lemma {:induction false} HashedLengthOnPrefix(s: string, t: string, i: nat)
    requires |s| >= 5 && |t| >= 5 && s[..5] == t[..5] && i <= 5
    requires forall k | 0 <= k < i :: s[k] != '\0'
    requires forall k | 0 <= k < i :: t[k] != '\0'
    ensures HashedLengthFrom(s, i) == HashedLengthFrom(t, i)
    decreases 5 - i
  {
    if i < 5 {
      assert s[i] == s[..5][i] == t[..5][i] == t[i];
      if s[i] != '\0' {
        HashedLengthOnPrefix(s, t, i + 1);
      }
    }
  }

  /** A string is hashed exactly like its first five characters. */
  lemma HashReadsAtMostFive(s: string)
    requires |s| >= 5
    ensures StringHash(s) == StringHash(s[..5])
  {
    SamePrefixSameHash(s, s[..5]);
  }

  /** Two-character example: "ab" hashes to 97*32 + 98. */
  lemma HashExample()
    ensures StringHash("ab") == 3202
  {
    assert HashedLengthFrom("ab", 2) == 2;
    assert HashedLengthFrom("ab", 1) == 2;
    assert HashedLength("ab") == 2;
    assert "ab"[..2] == "ab";
    assert "ab"[..1] == "a" && "a"[..0] == "";
    assert SignedChar('a') == 97 && SignedChar('b') == 98;
    assert HornerHash("a") == 97;
  }
}
