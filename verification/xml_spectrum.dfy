/** The spectrum helpers of the solar scripts (python/solar/XMLSpectrum.py):
    normalisation of a light source to 100 at about 560 nm, the
    wavelength window of the XML writers, and the reading of an XML
    spectrum back into (wavelength, power) pairs. Python's float() and
    str() on numbers are parameters: their text formats are not modelled. */
module XmlSpectrum {

  import opened Wrappers
  import SeqUtil

  datatype Sample = Sample(wavelength: real, power: real)

  const ReferenceWavelength: real := 560.0

  // ---------------------------------------------------------------------
  // normaliser

  /** `i` is the first sample at or above 560 nm. */
  predicate IsReference(data: seq<Sample>, i: nat) {
    && i < |data|
    && data[i].wavelength >= ReferenceWavelength
    && forall j | 0 <= j < i :: data[j].wavelength < ReferenceWavelength
  }

  /** The scan of normaliser's while loop from sample i on: the first
      sample from i at or above 560 nm, if any. */
  function ScanFrom(data: seq<Sample>, i: nat): (r: Option<nat>)
    requires i <= |data|
    requires forall j | 0 <= j < i :: data[j].wavelength < ReferenceWavelength
    ensures r.Some? ==> IsReference(data, r.value)
    ensures r.None? ==> forall j | 0 <= j < |data| :: data[j].wavelength < ReferenceWavelength
    decreases |data| - i
  {
    if i == |data| then None
    else if data[i].wavelength >= ReferenceWavelength then Some(i)
    else ScanFrom(data, i + 1)
  }

  function Reference(data: seq<Sample>): (r: Option<nat>)
    ensures r.Some? ==> IsReference(data, r.value)
    ensures r.None? ==> forall j | 0 <= j < |data| :: data[j].wavelength < ReferenceWavelength
  {
    ScanFrom(data, 0)
  }

  /** Every power multiplied by the same factor, wavelengths kept. */
  function Scale(data: seq<Sample>, coeff: real): (r: seq<Sample>)
    ensures |r| == |data|
    ensures forall k | 0 <= k < |data| ::
              r[k].wavelength == data[k].wavelength && r[k].power == data[k].power * coeff
  {
    seq(|data|, k requires 0 <= k < |data| => Sample(data[k].wavelength, data[k].power * coeff))
  }

  /** normaliser: scales the spectrum so that its first sample at or
      above 560 nm (which may be the very first sample) has power 100.
      Python fails with an IndexError on an empty spectrum or one that
      stays below 560 nm, and with a ZeroDivisionError on a zero
      reference power. */
  function Normaliser(data: seq<Sample>): (r: Result<seq<Sample>>)
    ensures r.Failure? <==> Reference(data).None? || data[Reference(data).value].power == 0.0
    ensures r.Success? ==>
              var i := Reference(data).value;
              && IsReference(r.value, i)
              && r.value[i].power == 100.0
              && r.value == Scale(data, 100.0 / data[i].power)
  {
    match Reference(data)
    case None => Failure("IndexError: no wavelength reaches 560 nm")
    case Some(i) =>
      if data[i].power == 0.0 then Failure("ZeroDivisionError: zero power at the reference")
      else
        var r := Scale(data, 100.0 / data[i].power);
        assert r[i].power == data[i].power * (100.0 / data[i].power);
        Success(r)
  }

  lemma SameReference(data: seq<Sample>, other: seq<Sample>)
    requires |other| == |data|
    requires forall k | 0 <= k < |data| :: other[k].wavelength == data[k].wavelength
    ensures Reference(other) == Reference(data)
  {
    match Reference(data)
    case None =>
      assert forall j | 0 <= j < |other| :: other[j].wavelength < ReferenceWavelength;
    case Some(i) =>
      assert IsReference(other, i);
  }

  /** A normalised spectrum is its own normalisation. */
  lemma {:induction false} NormaliserIdempotent(data: seq<Sample>)
    requires Normaliser(data).Success?
    ensures Normaliser(Normaliser(data).value) == Normaliser(data)
  {
    var n := Normaliser(data).value;
    SameReference(data, n);
    var i := Reference(data).value;
    assert n[i].power == 100.0;
    assert 100.0 / n[i].power == 1.0;
    assert Scale(n, 1.0) == n;
  }

  // ---------------------------------------------------------------------
  // The wavelength window of toXMLSpectrum and ArraytoXML

  /** Both writers keep a sample only strictly inside (lo, hi), by default
      (380, 780). */
  predicate Inside(wavelength: real, lo: real, hi: real) {
    lo < wavelength && wavelength < hi
  }

  function KeepInterval(data: seq<Sample>, lo: real, hi: real): (r: seq<Sample>)
    ensures |r| <= |data|
    ensures forall k | 0 <= k < |r| :: Inside(r[k].wavelength, lo, hi)
  {
    if data == [] then []
    else if Inside(data[0].wavelength, lo, hi) then [data[0]] + KeepInterval(data[1..], lo, hi)
    else KeepInterval(data[1..], lo, hi)
  }

  /** The window keeps exactly the samples inside it, in their order: it
      distributes over concatenation, and a sample is kept iff it lies
      inside. */
  lemma {:induction false} KeepIntervalConcat(a: seq<Sample>, b: seq<Sample>, lo: real, hi: real)
    ensures KeepInterval(a + b, lo, hi) == KeepInterval(a, lo, hi) + KeepInterval(b, lo, hi)
  {
    if a == [] {
      assert a + b == b;
    } else {
      assert (a + b)[1..] == a[1..] + b;
      KeepIntervalConcat(a[1..], b, lo, hi);
    }
  }

  lemma {:induction false} KeepIntervalMembers(data: seq<Sample>, lo: real, hi: real, x: Sample)
    ensures x in KeepInterval(data, lo, hi) <==> x in data && Inside(x.wavelength, lo, hi)
  {
    if data != [] {
      KeepIntervalMembers(data[1..], lo, hi, x);
      assert data == [data[0]] + data[1..];
    }
  }

  lemma {:induction false} KeepIntervalIdempotent(data: seq<Sample>, lo: real, hi: real)
    ensures KeepInterval(KeepInterval(data, lo, hi), lo, hi) == KeepInterval(data, lo, hi)
  {
    if data != [] {
      KeepIntervalIdempotent(data[1..], lo, hi);
      if Inside(data[0].wavelength, lo, hi) {
        var rest := KeepInterval(data[1..], lo, hi);
        assert ([data[0]] + rest)[1..] == rest;
      }
    }
  }

  // ---------------------------------------------------------------------
  // Python's str.split with a separator

  /** `sep` occurs in `s` at position p. */
  predicate OccursAt(s: string, sep: string, p: nat) {
    p + |sep| <= |s| && s[p..p + |sep|] == sep
  }

  /** `sep` does not occur anywhere in `s`. */
  ghost predicate Free(s: string, sep: string) {
    forall p: nat :: !OccursAt(s, sep, p)
  }

  /** The first occurrence of `sep` in `s` at or after i. */
  function FindFrom(s: string, sep: string, i: nat): (r: Option<nat>)
    requires i <= |s|
    ensures r.Some? ==> i <= r.value && OccursAt(s, sep, r.value)
    ensures r.Some? ==> forall p | i <= p < r.value :: !OccursAt(s, sep, p)
    ensures r.None? ==> forall p: nat | i <= p :: !OccursAt(s, sep, p)
    decreases |s| - i
  {
    if i + |sep| > |s| then None
    else if s[i..i + |sep|] == sep then Some(i)
    else if i == |s| then None
    else FindFrom(s, sep, i + 1)
  }

  /** s.split(sep): the pieces between the successive leftmost
      occurrences of sep. */
  function Split(s: string, sep: string): (r: seq<string>)
    requires |sep| > 0
    ensures |r| >= 1
    decreases |s|
  {
    match FindFrom(s, sep, 0)
    case None => [s]
    case Some(p) => [s[..p]] + Split(s[p + |sep|..], sep)
  }

  /** sep.join(parts), the inverse of Split. */
  function Join(parts: seq<string>, sep: string): string
    requires |parts| >= 1
  {
    if |parts| == 1 then parts[0] else parts[0] + sep + Join(parts[1..], sep)
  }

  /** Joining the pieces with the separator gives the text back, and no
      piece holds the separator. */
  lemma {:induction false} SplitJoin(s: string, sep: string)
    requires |sep| > 0
    ensures Join(Split(s, sep), sep) == s
    ensures forall k | 0 <= k < |Split(s, sep)| :: Free(Split(s, sep)[k], sep)
    decreases |s|
  {
    match FindFrom(s, sep, 0)
    case None =>
      assert Split(s, sep) == [s];
    case Some(p) =>
      var rest := s[p + |sep|..];
      var pieces := Split(s, sep);
      SplitJoin(rest, sep);
      SplitStep(s, sep, p, s[..p], rest);
      assert s == s[..p] + sep + rest;
      PieceBeforeFree(s, sep, p);
      forall k | 0 <= k < |pieces| ensures Free(pieces[k], sep) {
        if k > 0 {
          assert pieces[k] == Split(rest, sep)[k - 1];
        }
      }
  }

  /** The text before the first occurrence of the separator holds none. */
  lemma PieceBeforeFree(s: string, sep: string, p: nat)
    requires |sep| > 0 && FindFrom(s, sep, 0) == Some(p)
    ensures Free(s[..p], sep)
  {
    forall q: nat ensures !OccursAt(s[..p], sep, q) {
      if q + |sep| <= p {
        assert s[..p][q..q + |sep|] == s[q..q + |sep|];
        assert !OccursAt(s, sep, q);
      }
    }
  }

  /** A separator whose first character appears nowhere else in it. */
  predicate HeadUnique(sep: string) {
    |sep| > 0 && forall j | 1 <= j < |sep| :: sep[j] != sep[0]
  }

  lemma SplitFree(a: string, sep: string)
    requires |sep| > 0 && Free(a, sep)
    ensures Split(a, sep) == [a]
  {
  }

  /** A piece free of the separator is split off at the separator that
      follows it. */
  lemma SplitCons(a: string, sep: string, b: string)
    requires HeadUnique(sep) && Free(a, sep)
    ensures Split(a + (sep + b), sep) == [a] + Split(b, sep)
  {
    var s := a + (sep + b);
    FirstOccurrence(a, sep, b);
    ConcatSlices(a, sep, b);
    SplitStep(s, sep, |a|, a, b);
  }

  /** One step of Split: the piece before the first occurrence p, then
      the split of what follows the separator. */
  lemma SplitStep(s: string, sep: string, p: nat, a: string, b: string)
    requires |sep| > 0 && p + |sep| <= |s| && FindFrom(s, sep, 0) == Some(p)
    requires s[..p] == a && s[p + |sep|..] == b
    ensures Split(s, sep) == [a] + Split(b, sep)
  {
  }

  lemma ConcatSlices(a: string, sep: string, b: string)
    ensures (a + (sep + b))[..|a|] == a
    ensures (a + (sep + b))[|a| + |sep|..] == b
  {
  }

  /** The separator after a piece free of it is its first occurrence. */
  lemma FirstOccurrence(a: string, sep: string, b: string)
    requires HeadUnique(sep) && Free(a, sep)
    ensures FindFrom(a + (sep + b), sep, 0) == Some(|a|)
  {
    var s := a + (sep + b);
    assert s[|a|..|a| + |sep|] == sep;
    assert OccursAt(s, sep, |a|);
    forall p | 0 <= p < |a| ensures !OccursAt(s, sep, p) {
      NotBefore(a, sep, b, p);
    }
  }

  /** No occurrence starts inside the piece: one inside it is excluded by
      freedom, one overlapping the separator by its unique first character. */
  lemma NotBefore(a: string, sep: string, b: string, p: nat)
    requires HeadUnique(sep) && Free(a, sep) && p < |a|
    ensures !OccursAt(a + (sep + b), sep, p)
  {
    var s := a + (sep + b);
    if p + |sep| <= |a| {
      assert s[p..p + |sep|] == a[p..p + |sep|];
      assert !OccursAt(a, sep, p);
    } else if p + |sep| <= |s| {
      var j := |a| - p;
      assert s[p..p + |sep|][j] == s[|a|] == sep[0] != sep[j];
    }
  }

  /** Splitting pieces joined by a separator that none of them holds
      gives the pieces back. */
  lemma {:induction false} SplitOfJoin(parts: seq<string>, sep: string)
    requires |parts| >= 1 && HeadUnique(sep)
    requires forall k | 0 <= k < |parts| :: Free(parts[k], sep)
    ensures Split(Join(parts, sep), sep) == parts
  {
    if |parts| == 1 {
      SplitFree(parts[0], sep);
    } else {
      var rest := Join(parts[1..], sep);
      SplitOfJoin(parts[1..], sep);
      assert parts[0] + sep + rest == parts[0] + (sep + rest);
      SplitCons(parts[0], sep, rest);
      assert [parts[0]] + parts[1..] == parts;
    }
  }

  /** `c` is never directly followed by `d` in `a`. */
  predicate NoPair(a: string, c: char, d: char) {
    forall p | 0 <= p < |a| - 1 :: !(a[p] == c && a[p + 1] == d)
  }

  lemma NoPairFree(a: string, sep: string)
    requires |sep| >= 2 && NoPair(a, sep[0], sep[1])
    ensures Free(a, sep)
  {
    forall p: nat ensures !OccursAt(a, sep, p) {
      if p + |sep| <= |a| {
        assert a[p..p + |sep|][0] == a[p] && a[p..p + |sep|][1] == a[p + 1];
      }
    }
  }

  lemma NoPairConcat(a: string, b: string, c: char, d: char)
    requires NoPair(a, c, d) && NoPair(b, c, d)
    requires a != [] && b != [] ==> !(a[|a| - 1] == c && b[0] == d)
    ensures NoPair(a + b, c, d)
  {
    forall p | 0 <= p < |a + b| - 1 ensures !((a + b)[p] == c && (a + b)[p + 1] == d) {
      if p + 1 < |a| {
        assert (a + b)[p] == a[p] && (a + b)[p + 1] == a[p + 1];
      } else if p >= |a| {
        assert (a + b)[p] == b[p - |a|] && (a + b)[p + 1] == b[p - |a| + 1];
      }
    }
  }

  lemma NoPairWithout(a: string, c: char, d: char)
    requires c !in a
    ensures NoPair(a, c, d)
  {
    forall p | 0 <= p < |a| - 1 ensures a[p] != c {
      assert a[p] in a;
    }
  }

  // ---------------------------------------------------------------------
  // XMLtoArray

  const EntryTag: string := "<entry"
  const Quote: string := "\""

  /** The characters that make a field count as a number. */
  predicate NumberStart(c: char) {
    '0' <= c <= '9' || c == '.'
  }

  /** The fields of a piece that look like numbers, in order. Python
      fails with an IndexError on an empty field (v[0]). */
  function NumericFields(fields: seq<string>): (r: Result<seq<string>>)
    ensures r.Success? <==> forall k | 0 <= k < |fields| :: fields[k] != []
    ensures r.Success? ==> forall k | 0 <= k < |r.value| :: r.value[k] in fields && NumberStart(r.value[k][0])
  {
    if fields == [] then Success([])
    else if fields[0] == [] then Failure("IndexError: empty field")
    else
      var rest :- NumericFields(fields[1..]);
      assert forall k | 0 <= k < |rest| :: rest[k] in fields;
      if NumberStart(fields[0][0]) then Success([fields[0]] + rest) else Success(rest)
  }

  /** map(float, values): a ValueError on the first text that is not a
      number. */
  function ToFloats(values: seq<string>, toFloat: string -> Option<real>): (r: Result<seq<real>>)
    ensures r.Success? <==> forall k | 0 <= k < |values| :: toFloat(values[k]).Some?
    ensures r.Success? ==> |r.value| == |values|
    ensures r.Success? ==> forall k | 0 <= k < |values| :: toFloat(values[k]) == Some(r.value[k])
  {
    if values == [] then Success([])
    else
      match toFloat(values[0])
      case None => Failure("ValueError: not a number")
      case Some(x) =>
        var rest :- ToFloats(values[1..], toFloat);
        assert forall k | 1 <= k < |values| :: values[k] == values[1..][k - 1];
        Success([x] + rest)
  }

  /** One piece of the text cut at "<entry": a sample when exactly two of
      its quote-separated fields are numbers, nothing otherwise. */
  function EntryOf(piece: string, toFloat: string -> Option<real>): (r: Result<Option<Sample>>)
  {
    var numeric :- NumericFields(Split(piece, Quote));
    var values :- ToFloats(numeric, toFloat);
    if |values| == 2 then Success(Some(Sample(values[0], values[1]))) else Success(None)
  }

  function ReadEntries(pieces: seq<string>, toFloat: string -> Option<real>): (r: Result<seq<Sample>>)
    ensures r.Success? ==> |r.value| <= |pieces|
  {
    if pieces == [] then Success([])
    else
      var e :- EntryOf(pieces[0], toFloat);
      var rest :- ReadEntries(pieces[1..], toFloat);
      match e
      case Some(x) => Success([x] + rest)
      case None => Success(rest)
  }

  /** XMLtoArray on the text of a file. */
  function XmlToArray(text: string, toFloat: string -> Option<real>): (r: Result<seq<Sample>>)
    ensures r.Success? ==> |r.value| <= |Split(text, EntryTag)|
  {
    ReadEntries(Split(text, EntryTag), toFloat)
  }

  // ---------------------------------------------------------------------
  // ArraytoXML, and XMLtoArray reading it back

  const WavelengthAttribute: string := " wavelength="
  const ValueAttribute: string := " value="
  const EntryEnd: string := " />  "
  const Footer: string := "</illuminant>"

  /** The comment line and the opening tag. */
  function Head(comment: string): string {
    "<!-- " + comment + " -->" + "<illuminant>  "
  }

  /** The quote-separated fields of one entry, up to `tail`. */
  function Fields(w: string, v: string, tail: string): string {
    WavelengthAttribute + (Quote + (w + (Quote + (ValueAttribute + (Quote + (v + (Quote + tail)))))))
  }

  /** The text after "<entry" that ArraytoXML writes for one sample. */
  function EntryBody(x: Sample, str: real -> string): string {
    Fields(str(x.wavelength), str(x.power), EntryEnd)
  }

  /** The entries of `xs`, then the closing tag. */
  function Body(xs: seq<Sample>, str: real -> string): string {
    if xs == [] then Footer else EntryTag + (EntryBody(xs[0], str) + Body(xs[1..], str))
  }

  /** ArraytoXML: the comment, the opening tag, one entry per sample
      inside the window, the closing tag. */
  function ArrayToXml(data: seq<Sample>, lo: real, hi: real, comment: string, str: real -> string): string {
    Head(comment) + Body(KeepInterval(data, lo, hi), str)
  }

  /** A number text that XMLtoArray reads back: it starts with a digit (a
      negative number would be skipped) and holds no quote or '<'. */
  predicate Printable(t: string) {
    |t| > 0 && '0' <= t[0] <= '9' && '"' !in t && '<' !in t
  }

  predicate Writable(x: Sample, str: real -> string, toFloat: string -> Option<real>) {
    && Printable(str(x.wavelength)) && toFloat(str(x.wavelength)) == Some(x.wavelength)
    && Printable(str(x.power)) && toFloat(str(x.power)) == Some(x.power)
  }

  lemma SeparatorsHeadUnique()
    ensures HeadUnique(Quote) && HeadUnique(EntryTag)
  {
  }

  lemma NoQuoteFree(a: string)
    requires '"' !in a
    ensures Free(a, Quote)
  {
    forall p: nat ensures !OccursAt(a, Quote, p) {
      if p + 1 <= |a| {
        assert a[p..p + 1][0] == a[p];
        assert a[p] in a;
      }
    }
  }

  /** Cutting an entry at its quotes gives back its five fields. */
  lemma FieldsSplit(w: string, v: string, tail: string)
    requires '"' !in w && '"' !in v && '"' !in tail
    ensures Split(Fields(w, v, tail), Quote) == [WavelengthAttribute, w, ValueAttribute, v, tail]
  {
    var parts := [WavelengthAttribute, w, ValueAttribute, v, tail];
    SeparatorsHeadUnique();
    forall k | 0 <= k < |parts| ensures Free(parts[k], Quote) {
      NoQuoteFree(parts[k]);
    }
    FieldsJoin(w, v, tail);
    SplitOfJoin(parts, Quote);
  }

  /** The five fields are joined by quotes. */
  lemma FieldsJoin(w: string, v: string, tail: string)
    ensures Join([WavelengthAttribute, w, ValueAttribute, v, tail], Quote) == Fields(w, v, tail)
  {
    var p4 := [tail];
    var p3 := [v] + p4;
    var p2 := [ValueAttribute] + p3;
    var p1 := [w] + p2;
    var p0 := [WavelengthAttribute] + p1;
    assert p0[1..] == p1 && p1[1..] == p2 && p2[1..] == p3 && p3[1..] == p4;
    var j3 := v + Quote + tail;
    assert Join(p3, Quote) == j3;
    var j2 := ValueAttribute + Quote + j3;
    assert Join(p2, Quote) == j2;
    var j1 := w + Quote + j2;
    assert Join(p1, Quote) == j1;
    assert Join(p0, Quote) == WavelengthAttribute + Quote + j1;
    assert p0 == [WavelengthAttribute, w, ValueAttribute, v, tail];
  }

  lemma FieldsAppend(w: string, v: string, tail: string, post: string)
    ensures Fields(w, v, tail) + post == Fields(w, v, tail + post)
  {
    var t3 := Quote + tail;
    var t2 := v + t3;
    var t1 := Quote + t2;
    var t0 := ValueAttribute + t1;
    assert t3 + post == Quote + (tail + post);
    assert t2 + post == v + (t3 + post);
    assert t1 + post == Quote + (t2 + post);
    assert t0 + post == ValueAttribute + (t1 + post);
    var u3 := Quote + t0;
    var u2 := w + u3;
    var u1 := Quote + u2;
    assert u3 + post == Quote + (t0 + post);
    assert u2 + post == w + (u3 + post);
    assert u1 + post == Quote + (u2 + post);
    assert (WavelengthAttribute + u1) + post == WavelengthAttribute + (u1 + post);
  }

  lemma NumericEntryFields(w: string, v: string, tail: string)
    requires |w| > 0 && '0' <= w[0] <= '9' && |v| > 0 && '0' <= v[0] <= '9'
    requires |tail| > 0 && tail[0] == ' '
    ensures NumericFields([WavelengthAttribute, w, ValueAttribute, v, tail]) == Success([w, v])
  {
    var f := [WavelengthAttribute, w, ValueAttribute, v, tail];
    assert [tail][1..] == [];
    assert NumericFields([tail]) == Success([]);
    assert [v, tail][1..] == [tail] && [v] + [] == [v];
    assert NumericFields([v, tail]) == Success([v]);
    assert [ValueAttribute, v, tail][1..] == [v, tail];
    assert NumericFields([ValueAttribute, v, tail]) == Success([v]);
    assert [w, ValueAttribute, v, tail][1..] == [ValueAttribute, v, tail] && [w] + [v] == [w, v];
    assert NumericFields([w, ValueAttribute, v, tail]) == Success([w, v]);
    assert f[1..] == [w, ValueAttribute, v, tail];
  }

  /** An entry body, possibly followed by the closing tag, reads as its
      sample. */
  lemma EntryBodyRead(x: Sample, str: real -> string, toFloat: string -> Option<real>, post: string)
    requires Writable(x, str, toFloat)
    requires post == "" || post == Footer
    ensures EntryOf(EntryBody(x, str) + post, toFloat) == Success(Some(x))
  {
    var w, v := str(x.wavelength), str(x.power);
    var tail := EntryEnd + post;
    FieldsAppend(w, v, EntryEnd, post);
    assert '"' !in tail by {
      assert forall c | c in tail :: c in EntryEnd || c in post;
    }
    FieldsSplit(w, v, tail);
    NumericEntryFields(w, v, tail);
    ToFloatsPair(w, v, toFloat, x.wavelength, x.power);
  }

  lemma ToFloatsPair(w: string, v: string, toFloat: string -> Option<real>, a: real, b: real)
    requires toFloat(w) == Some(a) && toFloat(v) == Some(b)
    ensures ToFloats([w, v], toFloat) == Success([a, b])
  {
    assert [v][1..] == [] && [b] + [] == [b];
    assert ToFloats([v], toFloat) == Success([b]);
    assert [w, v][1..] == [v] && [a] + [b] == [a, b];
  }

  /** A piece that starts with '<' and holds no quote reads as nothing. */
  lemma TagRead(h: string, toFloat: string -> Option<real>)
    requires |h| > 0 && h[0] == '<' && '"' !in h
    ensures EntryOf(h, toFloat) == Success(None)
  {
    NoQuoteFree(h);
    SplitFree(h, Quote);
    assert NumericFields([h]) == Success([]);
  }

  lemma BodyFree(x: Sample, str: real -> string, toFloat: string -> Option<real>, post: string)
    requires Writable(x, str, toFloat)
    requires post == "" || post == Footer
    ensures Free(EntryBody(x, str) + post, EntryTag)
  {
    var w, v := str(x.wavelength), str(x.power);
    var front := Fields(w, v, "");
    var tail := EntryEnd + post;
    FieldsAppend(w, v, "", tail);
    FieldsAppend(w, v, EntryEnd, post);
    assert "" + tail == tail && EntryEnd + post == tail;
    FieldsNoAngle(w, v);
    NoPairWithout(front, '<', 'e');
    TailNoPair(post);
    assert front[|front| - 1] in front;
    NoPairConcat(front, tail, '<', 'e');
    assert |EntryTag| >= 2 && EntryTag[0] == '<' && EntryTag[1] == 'e';
    NoPairFree(front + tail, EntryTag);
  }

  /** The fields of an entry hold no '<' when the numbers hold none. */
  lemma FieldsNoAngle(w: string, v: string)
    requires '<' !in w && '<' !in v
    ensures '<' !in Fields(w, v, "") && Fields(w, v, "") != []
  {
    assert forall c | c in Fields(w, v, "") ::
      c in WavelengthAttribute || c in Quote || c in w || c in ValueAttribute || c in v;
  }

  /** The end of an entry, alone or before the closing tag, never holds
      "<e". */
  lemma TailNoPair(post: string)
    requires post == "" || post == Footer
    ensures NoPair(EntryEnd + post, '<', 'e')
  {
    NoPairWithout(EntryEnd, '<', 'e');
    assert NoPair(Footer, '<', 'e');
    NoPairConcat(EntryEnd, post, '<', 'e');
  }

  function Found(first: Option<Sample>): seq<Sample> {
    if first.Some? then [first.value] else []
  }

  lemma ReadEntriesCons(piece: string, rest: seq<string>, toFloat: string -> Option<real>,
                        first: Option<Sample>, xs: seq<Sample>)
    requires EntryOf(piece, toFloat) == Success(first) && ReadEntries(rest, toFloat) == Success(xs)
    ensures ReadEntries([piece] + rest, toFloat) == Success(Found(first) + xs)
  {
    assert ([piece] + rest)[1..] == rest;
    assert [] + xs == xs;
  }

  /** One entry body, alone or before the closing tag, holds no "<entry"
      and reads as its sample. */
  lemma EntryPiece(x: Sample, str: real -> string, toFloat: string -> Option<real>)
    requires Writable(x, str, toFloat)
    ensures Free(EntryBody(x, str), EntryTag) && Free(EntryBody(x, str) + Footer, EntryTag)
    ensures EntryOf(EntryBody(x, str), toFloat) == Success(Some(x))
    ensures EntryOf(EntryBody(x, str) + Footer, toFloat) == Success(Some(x))
  {
    BodyFree(x, str, toFloat, "");
    BodyFree(x, str, toFloat, Footer);
    EntryBodyRead(x, str, toFloat, "");
    EntryBodyRead(x, str, toFloat, Footer);
    assert EntryBody(x, str) + "" == EntryBody(x, str);
  }

  /** Cutting `pre` followed by the entries of xs and the closing tag at
      "<entry", and reading every piece, gives the samples xs, preceded
      by what the first piece reads as. */
  lemma {:induction false} ReadPieces(pre: string, xs: seq<Sample>, str: real -> string,
                                      toFloat: string -> Option<real>, first: Option<Sample>)
    requires Free(pre, EntryTag) && Free(pre + Footer, EntryTag)
    requires EntryOf(pre, toFloat) == Success(first) && EntryOf(pre + Footer, toFloat) == Success(first)
    requires forall x | x in xs :: Writable(x, str, toFloat)
    ensures ReadEntries(Split(pre + Body(xs, str), EntryTag), toFloat) == Success(Found(first) + xs)
    decreases |xs|
  {
    if xs == [] {
      SplitFree(pre + Footer, EntryTag);
      ReadEntriesCons(pre + Footer, [], toFloat, first, []);
    } else {
      var x := xs[0];
      var body := EntryBody(x, str);
      var after := body + Body(xs[1..], str);
      assert Body(xs, str) == EntryTag + after;
      EntryPiece(x, str, toFloat);
      assert forall y | y in xs[1..] :: y in xs;
      ReadPieces(body, xs[1..], str, toFloat, Some(x));
      assert Found(Some(x)) == [x];
      SeqUtil.HeadTail(xs);
      ReadAfterTag(pre, after, toFloat, first, xs);
    }
  }

  /** A first piece free of "<entry" reads on its own before the pieces
      of what follows the tag. */
  lemma ReadAfterTag(pre: string, after: string, toFloat: string -> Option<real>,
                     first: Option<Sample>, ys: seq<Sample>)
    requires Free(pre, EntryTag) && EntryOf(pre, toFloat) == Success(first)
    requires ReadEntries(Split(after, EntryTag), toFloat) == Success(ys)
    ensures ReadEntries(Split(pre + (EntryTag + after), EntryTag), toFloat) == Success(Found(first) + ys)
  {
    SeparatorsHeadUnique();
    SplitCons(pre, EntryTag, after);
    ReadEntriesCons(pre, Split(after, EntryTag), toFloat, first, ys);
  }

  lemma HeadFree(comment: string)
    requires '"' !in comment && '<' !in comment
    ensures Free(Head(comment), EntryTag) && Free(Head(comment) + Footer, EntryTag)
    ensures '"' !in Head(comment) && '"' !in Head(comment) + Footer
    ensures Head(comment)[0] == '<' && (Head(comment) + Footer)[0] == '<'
  {
    HeadNoPair(comment);
    assert |EntryTag| >= 2 && EntryTag[0] == '<' && EntryTag[1] == 'e';
    NoPairFree(Head(comment), EntryTag);
    NoPairFree(Head(comment) + Footer, EntryTag);
    HeadNoQuote(comment);
  }

  /** The head, alone or before the closing tag, never holds "<e". */
  lemma HeadNoPair(comment: string)
    requires '<' !in comment
    ensures NoPair(Head(comment), '<', 'e') && NoPair(Head(comment) + Footer, '<', 'e')
  {
    var h0, h1, h2 := "<!-- ", " -->", "<illuminant>  ";
    assert NoPair(h0, '<', 'e');
    NoPairWithout(comment, '<', 'e');
    NoPairWithout(h1, '<', 'e');
    assert NoPair(h2, '<', 'e');
    assert NoPair(Footer, '<', 'e');
    NoPairConcat(h0, comment, '<', 'e');
    if comment != [] {
      assert comment[|comment| - 1] in comment;
    }
    NoPairConcat(h0 + comment, h1, '<', 'e');
    NoPairConcat(h0 + comment + h1, h2, '<', 'e');
    NoPairConcat(Head(comment), Footer, '<', 'e');
  }

  lemma HeadNoQuote(comment: string)
    requires '"' !in comment
    ensures '"' !in Head(comment) && '"' !in Head(comment) + Footer
    ensures Head(comment)[0] == '<' && (Head(comment) + Footer)[0] == '<'
  {
    assert forall c | c in Head(comment) + Footer ::
      c in "<!-- " || c in comment || c in " -->" || c in "<illuminant>  " || c in Footer;
  }

  /** XMLtoArray reads back exactly the samples ArraytoXML kept, provided
      the comment holds no quote or '<' and every number prints as a
      non-negative text that float() reads back. */
  lemma ArrayToXmlRoundTrip(data: seq<Sample>, lo: real, hi: real, comment: string,
                            str: real -> string, toFloat: string -> Option<real>)
    requires '"' !in comment && '<' !in comment
    requires forall x | x in data :: Writable(x, str, toFloat)
    ensures XmlToArray(ArrayToXml(data, lo, hi, comment, str), toFloat) == Success(KeepInterval(data, lo, hi))
  {
    var kept := KeepInterval(data, lo, hi);
    forall x | x in kept ensures Writable(x, str, toFloat) {
      KeepIntervalMembers(data, lo, hi, x);
    }
    HeadFree(comment);
    TagRead(Head(comment), toFloat);
    TagRead(Head(comment) + Footer, toFloat);
    ReadPieces(Head(comment), kept, str, toFloat, None);
    assert Found(None) + kept == kept;
  }
}
