/** The index computation of the sampled BRDF table
    (materials/SampledMaterial.hpp, getIndex): incidence angle Oi,
    azimuth Pi and wavelength sample lambda are flattened row-major into
    one index of a table of OiSample * PiSample * LambdaSample entries. */
module SampledMaterial {

  import opened IntArith

  /** The sample counts of a loaded table. */
  datatype Sampling = Sampling(oiSample: int, piSample: int, lambdaSample: int)

  const TwoTo32: int := 0x1_0000_0000

  /** The two-step clamp of getIndex: negative values to 0, then values
      at or past the count to count - 1 (so -1 for an empty count). */
  function Clamp(x: int, count: int): (c: int)
    ensures count >= 1 ==> 0 <= c < count
    ensures 0 <= x < count ==> c == x
    ensures x < 0 && count >= 1 ==> c == 0
    ensures x >= count ==> c == count - 1
  {
    var y := if x < 0 then 0 else x;
    if y >= count then count - 1 else y
  }

  /** The index before the conversion to unsigned int. The wavelength
      sample is not clamped. */
  function RawIndex(s: Sampling, oi: int, pi: int, lambda: int): int {
    (Clamp(oi, s.oiSample) * s.piSample + Clamp(pi, s.piSample)) * s.lambdaSample + lambda
  }

  /** getIndex: the raw index converted to a 32-bit unsigned int. */
  function GetIndex(s: Sampling, oi: int, pi: int, lambda: int): (r: nat)
    ensures r < TwoTo32
    ensures 0 <= RawIndex(s, oi, pi, lambda) < TwoTo32 ==> r == RawIndex(s, oi, pi, lambda)
  {
    RawIndex(s, oi, pi, lambda) % TwoTo32
  }

  /** Out-of-range angles read the border entries of the table. */
  lemma AnglesClamped(s: Sampling, oi: int, pi: int, lambda: int)
    requires s.oiSample >= 1 && s.piSample >= 1
    ensures RawIndex(s, oi, pi, lambda) == RawIndex(s, Clamp(oi, s.oiSample), Clamp(pi, s.piSample), lambda)
    ensures oi < 0 ==> RawIndex(s, oi, pi, lambda) == RawIndex(s, 0, pi, lambda)
    ensures oi >= s.oiSample ==> RawIndex(s, oi, pi, lambda) == RawIndex(s, s.oiSample - 1, pi, lambda)
    ensures pi < 0 ==> RawIndex(s, oi, pi, lambda) == RawIndex(s, oi, 0, lambda)
    ensures pi >= s.piSample ==> RawIndex(s, oi, pi, lambda) == RawIndex(s, oi, s.piSample - 1, lambda)
  {
  }

  /** The wavelength is the innermost, unclamped coordinate: the next
      wavelength sample is the next index, even past LambdaSample. */
  lemma LambdaNotClamped(s: Sampling, oi: int, pi: int, lambda: int)
    ensures RawIndex(s, oi, pi, lambda + 1) == RawIndex(s, oi, pi, lambda) + 1
  {
  }

  /** The coordinates of table entry `index`, the inverse of the
      flattening. */
  function Coordinates(s: Sampling, index: nat): (c: (nat, nat, nat))
    requires s.piSample >= 1 && s.lambdaSample >= 1
  {
    DivModNat(index, s.lambdaSample);
    var q: nat := index / s.lambdaSample;
    DivModNat(q, s.piSample);
    (q / s.piSample, q % s.piSample, index % s.lambdaSample)
  }

  /** For in-range coordinates the index lies inside the table and
      decodes back to the same coordinates; hence distinct in-range
      triples never share an entry. */
  lemma {:induction false} IndexRoundTrip(s: Sampling, oi: nat, pi: nat, lambda: nat)
    requires oi < s.oiSample && pi < s.piSample && lambda < s.lambdaSample
    ensures 0 <= RawIndex(s, oi, pi, lambda) < s.oiSample * s.piSample * s.lambdaSample
    ensures Coordinates(s, RawIndex(s, oi, pi, lambda)) == (oi, pi, lambda)
  {
    var p: nat, l: nat := s.piSample, s.lambdaSample;
    var q: nat := oi * p + pi;
    assert RawIndex(s, oi, pi, lambda) == q * l + lambda;
    RowMajorBound(oi, pi, p, s.oiSample);
    RowMajorBound(q, lambda, l, s.oiSample * p);
    assert p * s.oiSample == s.oiSample * p;
    assert l * (s.oiSample * p) == s.oiSample * p * l;
    RowMajorOf(q, lambda, l);
    RowMajorOf(oi, pi, p);
  }

  lemma IndexInjective(s: Sampling, o1: nat, p1: nat, l1: nat, o2: nat, p2: nat, l2: nat)
    requires o1 < s.oiSample && p1 < s.piSample && l1 < s.lambdaSample
    requires o2 < s.oiSample && p2 < s.piSample && l2 < s.lambdaSample
    requires RawIndex(s, o1, p1, l1) == RawIndex(s, o2, p2, l2)
    ensures o1 == o2 && p1 == p2 && l1 == l2
  {
    IndexRoundTrip(s, o1, p1, l1);
    IndexRoundTrip(s, o2, p2, l2);
  }
}
