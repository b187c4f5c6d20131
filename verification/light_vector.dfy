/** The spectral part of a light ray (structures/LightVector.hpp): a
    sequence of bands, kept sorted by band index, merged on addition. */
module LightVectors {

  import opened Wrappers
  import opened Light
  import SeqUtil

  /** An absent data array and an empty one behave alike; both are the
      empty sequence here. */
  datatype LightVector = LightVector(data: seq<LightData>)

  /** The band indices a vector carries. */
  function Indices(s: seq<LightData>): (r: set<int>)
    ensures forall k | 0 <= k < |s| :: s[k].index in r
    ensures forall x | x in r :: exists k | 0 <= k < |s| :: s[k].index == x
  {
    if s == [] then {} else {s[0].index} + Indices(s[1..])
  }

  /** Strictly increasing band indices. */
  predicate IndexSorted(s: seq<LightData>) {
    forall i, j | 0 <= i < j < |s| :: s[i].index < s[j].index
  }

  /** The band with index x, if any. */
  function Find(s: seq<LightData>, x: int): (r: Option<LightData>)
    ensures r.Some? <==> x in Indices(s)
    ensures r.Some? ==> r.value in s && r.value.index == x
  {
    if s == [] then None
    else if s[0].index == x then Some(s[0])
    else Find(s[1..], x)
  }

  /** initSpectralData(wavelength): one dark band for a non-negative
      index, otherwise one dark band per global wavelength, indexed from 0. */
  function InitSpectralData(nbWaveLengths: nat, wavelength: int): (v: LightVector)
    ensures wavelength >= 0 ==> v.data == [SetRadiance(SetIndex(Dark, wavelength), 0.0)]
    ensures wavelength < 0 ==> |v.data| == nbWaveLengths
    ensures wavelength < 0 ==> forall i | 0 <= i < nbWaveLengths :: v.data[i].index == i
    ensures forall i | 0 <= i < |v.data| :: v.data[i].radiance == 0.0 && Unpolarised(v.data[i])
    ensures IndexSorted(v.data)
  {
    if wavelength >= 0 then LightVector([SetRadiance(SetIndex(Dark, wavelength), 0.0)])
    else LightVector(seq(nbWaveLengths, i => SetRadiance(SetIndex(Dark, i), 0.0)))
  }

  /** initSpectralData(original): the bands of `original`, dark. */
  function InitSpectralDataFrom(original: LightVector): (v: LightVector)
    ensures |v.data| == |original.data|
    ensures forall i | 0 <= i < |v.data| ::
              v.data[i].index == original.data[i].index && v.data[i].radiance == 0.0 && Unpolarised(v.data[i])
  {
    LightVector(seq(|original.data|, i requires 0 <= i < |original.data| =>
                      SetRadiance(SetIndex(Dark, original.data[i].index), 0.0)))
  }

  /** clear: every band dark, indices kept. */
  function Clear(v: LightVector): (r: LightVector)
    ensures |r.data| == |v.data|
    ensures forall i | 0 <= i < |r.data| ::
              r.data[i].index == v.data[i].index && r.data[i].radiance == 0.0 && Unpolarised(r.data[i])
  {
    LightVector(seq(|v.data|, i requires 0 <= i < |v.data| => SetRadiance(v.data[i], 0.0)))
  }

  /** A cleared vector has the bands of an initialisation from it. */
  lemma ClearIsInitFrom(v: LightVector)
    ensures Clear(v) == InitSpectralDataFrom(v)
  {
    var a, b := Clear(v), InitSpectralDataFrom(v);
    assert forall i | 0 <= i < |a.data| :: a.data[i] == b.data[i];
  }

  /** The merge loop of add: both sequences walked from the front, the band
      with the smaller index taken first, equal indices summed. */
  function Merge(a: seq<LightData>, b: seq<LightData>): (r: seq<LightData>)
    ensures |r| <= |a| + |b|
    decreases |a| + |b|
  {
    if a == [] then b
    else if b == [] then a
    else if a[0].index > b[0].index then [b[0]] + Merge(a, b[1..])
    else if a[0].index < b[0].index then [a[0]] + Merge(a[1..], b)
    else [Plus(a[0], b[0])] + Merge(a[1..], b[1..])
  }

  /** The loop of changeIncidentPolarisationFramework: every band turned
      by the angle between the two frameworks. The geometry that finds the
      angle is not modelled; the turn comes in as the cosine and sine of
      twice that angle, as LightData::rotate uses them. */
  function RotateAll(v: LightVector, cos2A: real, sin2A: real): (r: LightVector)
    ensures |r.data| == |v.data|
    ensures forall i | 0 <= i < |r.data| :: r.data[i] == Rotate(v.data[i], cos2A, sin2A)
  {
    LightVector(seq(|v.data|, i requires 0 <= i < |v.data| => Rotate(v.data[i], cos2A, sin2A)))
  }

  /** add: the receiver is first turned into the other's framework; then an
      empty operand leaves it so, and an empty receiver is given the
      other's bands, dark, before the merge. */
  function Add(v: LightVector, w: LightVector, cos2A: real, sin2A: real): (r: LightVector)
    ensures Indices(r.data) == Indices(v.data) + Indices(w.data)
  {
    var u := RotateAll(v, cos2A, sin2A);
    RotateKeepsIndices(v, cos2A, sin2A);
    if w.data == [] then u
    else
      var base := if u.data == [] then InitSpectralDataFrom(w) else u;
      MergeIndices(base.data, w.data);
      InitFromKeepsIndices(w);
      LightVector(Merge(base.data, w.data))
  }

  /** A turn keeps every band index, and so the order of the bands. */
  lemma RotateKeepsIndices(v: LightVector, cos2A: real, sin2A: real)
    ensures Indices(RotateAll(v, cos2A, sin2A).data) == Indices(v.data)
    ensures IndexSorted(v.data) ==> IndexSorted(RotateAll(v, cos2A, sin2A).data)
  {
    SameIndices(RotateAll(v, cos2A, sin2A).data, v.data);
  }

  /** A dark copy carries the indices of the original. */
  lemma InitFromKeepsIndices(w: LightVector)
    ensures Indices(InitSpectralDataFrom(w).data) == Indices(w.data)
  {
    SameIndices(InitSpectralDataFrom(w).data, w.data);
  }

  /** Two sequences with the same index at every position carry the same
      indices. */
  lemma {:induction false} SameIndices(a: seq<LightData>, b: seq<LightData>)
    requires |a| == |b| && forall i | 0 <= i < |a| :: a[i].index == b[i].index
    ensures Indices(a) == Indices(b)
    decreases |a|
  {
    if a != [] {
      SameIndices(a[1..], b[1..]);
    }
  }

  /** The band of a turned vector is the turned band. */
  lemma {:induction false} FindRotated(s: seq<LightData>, cos2A: real, sin2A: real, x: int)
    ensures Find(RotateAll(LightVector(s), cos2A, sin2A).data, x)
            == (if Find(s, x).Some? then Some(Rotate(Find(s, x).value, cos2A, sin2A)) else None)
    decreases |s|
  {
    if s != [] {
      var t := RotateAll(LightVector(s), cos2A, sin2A).data;
      assert t[1..] == RotateAll(LightVector(s[1..]), cos2A, sin2A).data;
      FindRotated(s[1..], cos2A, sin2A, x);
    }
  }

  /** Turning by a zero angle changes nothing: the case of two vectors
      already in one framework. */
  lemma RotateZero(v: LightVector)
    ensures RotateAll(v, 1.0, 0.0) == v
  {
    var r := RotateAll(v, 1.0, 0.0);
    assert forall i | 0 <= i < |v.data| :: r.data[i] == v.data[i];
  }

  /** One step of the merge loop at positions i and j. */
  lemma MergeAt(a: seq<LightData>, b: seq<LightData>, i: nat, j: nat)
    requires i <= |a| && j <= |b| && (i < |a| || j < |b|)
    ensures i >= |a| ==> Merge(a[i..], b[j..]) == [b[j]] + Merge(a[i..], b[j + 1..])
    ensures i < |a| && j >= |b| ==> Merge(a[i..], b[j..]) == [a[i]] + Merge(a[i + 1..], b[j..])
    ensures i < |a| && j < |b| && a[i].index > b[j].index ==>
              Merge(a[i..], b[j..]) == [b[j]] + Merge(a[i..], b[j + 1..])
    ensures i < |a| && j < |b| && a[i].index < b[j].index ==>
              Merge(a[i..], b[j..]) == [a[i]] + Merge(a[i + 1..], b[j..])
    ensures i < |a| && j < |b| && a[i].index == b[j].index ==>
              Merge(a[i..], b[j..]) == [Plus(a[i], b[j])] + Merge(a[i + 1..], b[j + 1..])
  {
    var ai, bj := a[i..], b[j..];
    if i < |a| { assert ai[1..] == a[i + 1..]; }
    if j < |b| { assert bj[1..] == b[j + 1..]; }
  }

  /** The merge in the source's loop form. */
  method MergeLoop(a: seq<LightData>, b: seq<LightData>) returns (data: seq<LightData>)
    ensures data == Merge(a, b)
  {
    var i, j := 0, 0;
    data := [];
    while i < |a| || j < |b|
      invariant 0 <= i <= |a| && 0 <= j <= |b|
      invariant data + Merge(a[i..], b[j..]) == Merge(a, b)
      decreases |a| - i + |b| - j
    {
      MergeAt(a, b, i, j);
      if i >= |a| {
        SeqUtil.AppendOne(data, b[j], Merge(a[i..], b[j + 1..]));
        data := data + [b[j]];
        j := j + 1;
      } else if j >= |b| {
        SeqUtil.AppendOne(data, a[i], Merge(a[i + 1..], b[j..]));
        data := data + [a[i]];
        i := i + 1;
      } else if a[i].index > b[j].index {
        SeqUtil.AppendOne(data, b[j], Merge(a[i..], b[j + 1..]));
        data := data + [b[j]];
        j := j + 1;
      } else if a[i].index < b[j].index {
        SeqUtil.AppendOne(data, a[i], Merge(a[i + 1..], b[j..]));
        data := data + [a[i]];
        i := i + 1;
      } else {
        SeqUtil.AppendOne(data, Plus(a[i], b[j]), Merge(a[i + 1..], b[j + 1..]));
        data := data + [Plus(a[i], b[j])];
        i := i + 1;
        j := j + 1;
      }
    }
    assert a[i..] == [] && b[j..] == [];
  }

  /** The merge carries exactly the indices of both operands. */
  lemma {:induction false} MergeIndices(a: seq<LightData>, b: seq<LightData>)
    ensures Indices(Merge(a, b)) == Indices(a) + Indices(b)
    decreases |a| + |b|
  {
    if a == [] || b == [] {
    } else if a[0].index > b[0].index {
      MergeIndices(a, b[1..]);
    } else if a[0].index < b[0].index {
      MergeIndices(a[1..], b);
    } else {
      MergeIndices(a[1..], b[1..]);
    }
  }

  lemma TailSorted(s: seq<LightData>)
    requires IndexSorted(s) && s != []
    ensures IndexSorted(s[1..])
    ensures forall x | x in Indices(s[1..]) :: x > s[0].index
    ensures forall x | x in Indices(s) :: x >= s[0].index
  {
  }

  /** A band below every index of a sorted vector can go in front of it. */
  lemma PrependSorted(head: LightData, rest: seq<LightData>)
    requires IndexSorted(rest) && forall x | x in Indices(rest) :: x > head.index
    ensures IndexSorted([head] + rest)
  {
    assert forall k | 0 <= k < |rest| :: rest[k].index in Indices(rest);
  }

  /** Merging sorted vectors keeps the order. */
  lemma {:induction false} MergeSorted(a: seq<LightData>, b: seq<LightData>)
    requires IndexSorted(a) && IndexSorted(b)
    ensures IndexSorted(Merge(a, b))
    decreases |a| + |b|
  {
    if a == [] || b == [] {
    } else {
      TailSorted(a);
      TailSorted(b);
      if a[0].index > b[0].index {
        MergeSorted(a, b[1..]);
        MergeIndices(a, b[1..]);
        PrependSorted(b[0], Merge(a, b[1..]));
      } else if a[0].index < b[0].index {
        MergeSorted(a[1..], b);
        MergeIndices(a[1..], b);
        PrependSorted(a[0], Merge(a[1..], b));
      } else {
        MergeSorted(a[1..], b[1..]);
        MergeIndices(a[1..], b[1..]);
        PrependSorted(Plus(a[0], b[0]), Merge(a[1..], b[1..]));
      }
    }
  }

  /** What a band of the sum is: the sum of both bands when both operands
      carry the index, otherwise the band of the one that does. */
  function Combine(x: Option<LightData>, y: Option<LightData>): (r: Option<LightData>)
    ensures r.Some? <==> x.Some? || y.Some?
    ensures x.Some? ==> r.Some? && r.value.index == x.value.index
    ensures x.None? ==> r == y
  {
    match (x, y)
    case (Some(p), Some(q)) => Some(Plus(p, q))
    case (Some(p), None) => Some(p)
    case (None, _) => y
  }

  lemma FindAbsent(s: seq<LightData>, x: int)
    requires IndexSorted(s) && (s == [] || x < s[0].index)
    ensures Find(s, x) == None
  {
  }

  /** The merge of sorted vectors is their sorted union, equal indices
      summed. */
  lemma {:induction false} MergeFind(a: seq<LightData>, b: seq<LightData>, x: int)
    requires IndexSorted(a) && IndexSorted(b)
    ensures Find(Merge(a, b), x) == Combine(Find(a, x), Find(b, x))
    decreases |a| + |b|
  {
    if a == [] || b == [] {
    } else {
      TailSorted(a);
      TailSorted(b);
      if a[0].index > b[0].index {
        MergeFind(a, b[1..], x);
        if x == b[0].index { FindAbsent(a, x); }
      } else if a[0].index < b[0].index {
        MergeFind(a[1..], b, x);
        if x == a[0].index { FindAbsent(b, x); }
      } else {
        MergeFind(a[1..], b[1..], x);
      }
    }
  }

  /** add on sorted vectors: the sorted union of the bands, the
      receiver's bands turned into the other's framework, equal indices
      summed. */
  lemma AddIsSortedUnion(v: LightVector, w: LightVector, cos2A: real, sin2A: real, x: int)
    requires IndexSorted(v.data) && IndexSorted(w.data) && v.data != []
    ensures IndexSorted(Add(v, w, cos2A, sin2A).data)
    ensures Find(Add(v, w, cos2A, sin2A).data, x)
            == Combine(Find(RotateAll(v, cos2A, sin2A).data, x), Find(w.data, x))
    ensures Find(RotateAll(v, cos2A, sin2A).data, x)
            == (if Find(v.data, x).Some? then Some(Rotate(Find(v.data, x).value, cos2A, sin2A)) else None)
  {
    var u := RotateAll(v, cos2A, sin2A);
    RotateKeepsIndices(v, cos2A, sin2A);
    FindRotated(v.data, cos2A, sin2A, x);
    assert LightVector(v.data) == v;
    if w.data != [] {
      MergeSorted(u.data, w.data);
      MergeFind(u.data, w.data, x);
    } else {
      assert Find(w.data, x) == None;
    }
  }

  /** Merging a vector with itself made dark gives it back: the sum of
      dark bands and bands of light is the light. */
  lemma {:induction false} MergeDark(z: seq<LightData>, w: seq<LightData>)
    requires |z| == |w|
    requires forall i | 0 <= i < |z| :: z[i].index == w[i].index && z[i].radiance == 0.0 && Unpolarised(z[i])
    ensures Merge(z, w) == w
  {
    if z != [] {
      MergeDark(z[1..], w[1..]);
      assert Plus(z[0], w[0]) == w[0];
    }
  }

  /** Adding to an empty vector copies the other; adding an empty vector
      only turns the receiver into the other's framework, which changes
      nothing when both already share it. */
  lemma AddEmpty(v: LightVector, w: LightVector, cos2A: real, sin2A: real)
    ensures Add(v, LightVector([]), cos2A, sin2A) == RotateAll(v, cos2A, sin2A)
    ensures Add(v, LightVector([]), 1.0, 0.0) == v
    ensures Add(LightVector([]), w, cos2A, sin2A) == w
  {
    RotateZero(v);
    if w.data != [] {
      MergeDark(InitSpectralDataFrom(w).data, w.data);
    }
  }

  /** mul: every band scaled. */
  function Mul(v: LightVector, factor: real): (r: LightVector)
    ensures |r.data| == |v.data|
    ensures forall i | 0 <= i < |r.data| :: r.data[i] == Light.Mul(v.data[i], factor)
  {
    LightVector(seq(|v.data|, i requires 0 <= i < |v.data| => Light.Mul(v.data[i], factor)))
  }

  /** Scaling a sum of sorted vectors is the sum of the scaled vectors. */
  lemma {:induction false} MulDistributes(a: seq<LightData>, b: seq<LightData>, f: real)
    ensures Mul(LightVector(Merge(a, b)), f) == LightVector(Merge(Mul(LightVector(a), f).data, Mul(LightVector(b), f).data))
    decreases |a| + |b|
  {
    var ma, mb := Mul(LightVector(a), f).data, Mul(LightVector(b), f).data;
    if a == [] || b == [] {
    } else {
      MulCons(a[0], a[1..], f);
      MulCons(b[0], b[1..], f);
      assert [a[0]] + a[1..] == a && [b[0]] + b[1..] == b;
      if a[0].index > b[0].index {
        MulDistributes(a, b[1..], f);
        MulCons(b[0], Merge(a, b[1..]), f);
      } else if a[0].index < b[0].index {
        MulDistributes(a[1..], b, f);
        MulCons(a[0], Merge(a[1..], b), f);
      } else {
        MulDistributes(a[1..], b[1..], f);
        Light.MulDistributes(a[0], b[0], f);
        MulCons(Plus(a[0], b[0]), Merge(a[1..], b[1..]), f);
      }
    }
  }

  /** Scaling a vector scales its first band and then the rest. */
  lemma MulCons(x: LightData, rest: seq<LightData>, f: real)
    ensures Mul(LightVector([x] + rest), f).data == [Light.Mul(x, f)] + Mul(LightVector(rest), f).data
  {
    var l, r := Mul(LightVector([x] + rest), f).data, [Light.Mul(x, f)] + Mul(LightVector(rest), f).data;
    assert forall i | 0 <= i < |l| :: l[i] == r[i];
  }

  /** flip: every band flipped (the framework is not modelled). */
  function Flip(v: LightVector): (r: LightVector)
    ensures |r.data| == |v.data|
    ensures forall i | 0 <= i < |r.data| :: r.data[i] == Light.Flip(v.data[i])
  {
    LightVector(seq(|v.data|, i requires 0 <= i < |v.data| => Light.Flip(v.data[i])))
  }

  lemma FlipTwice(v: LightVector)
    ensures Flip(Flip(v)) == v
  {
    var r := Flip(Flip(v));
    forall i | 0 <= i < |v.data| ensures r.data[i] == v.data[i] {
      FlipInvolution(v.data[i], v.data[i]);
    }
  }
}
