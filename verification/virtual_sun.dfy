/** The virtual sun of the solar scripts (python/solar/VirtualSun.py):
    the state of a Soleil, the day predicate, the Julian day of an
    instant, the azimuth quadrant of placer and the sun source that
    genererXML describes. The ephemeris of placer (sines, arc sines and
    sidereal time) and the exponential attenuation of genererSpectre are
    parameters. Python 2 semantics are followed where they change a
    result: None compares below every number, and an int divided by an
    int floors, which is why a distance is an int or a float. */
module VirtualSun {

  import opened Wrappers
  import opened RealArith
  import opened PosixPath
  import XmlSpectrum
  import opened IntArith

  /** A Soleil: altitude and azimut in degrees, None until placed. */
  datatype Sun = Sun(altitude: Option<real>, azimut: Option<real>)

  /** Soleil(): a sun not yet placed. */
  function NewSun(): Sun {
    Sun(None, None)
  }

  predicate Placed(s: Sun) {
    s.altitude.Some? && s.azimut.Some?
  }

  /** jour: the sun is above -0.25 degrees. Python 2 orders None below
      every number, so an unplaced sun counts as night. */
  predicate Jour(s: Sun) {
    s.altitude.Some? && s.altitude.value > -0.25
  }

  /** A new sun is unplaced, and it is night. */
  lemma NewSunUnplaced()
    ensures !Placed(NewSun()) && !Jour(NewSun())
  {
  }

  /** A higher sun is no less in the day. */
  lemma JourMonotone(s: Sun, t: Sun)
    requires s.altitude.Some? && t.altitude.Some? && s.altitude.value <= t.altitude.value
    ensures Jour(s) ==> Jour(t)
  {
  }

  // ---------------------------------------------------------------------
  // _jourJulien

  /** The fields of a datetime. */
  datatype Instant = Instant(year: int, month: int, day: int, hour: int, minute: int, second: int, microsecond: int)

  /** The ranges a datetime guarantees (the day is not checked against
      the length of its month). */
  predicate ValidInstant(i: Instant) {
    && 1 <= i.year <= 9999 && 1 <= i.month <= 12 && 1 <= i.day <= 31
    && 0 <= i.hour < 24 && 0 <= i.minute < 60 && 0 <= i.second < 60 && 0 <= i.microsecond < 1000000
  }

  /** The day with the time of day folded in as a fraction. */
  function FractionalDay(i: Instant): (d: real)
    ensures ValidInstant(i) ==> i.day as real <= d < i.day as real + 1.0
  {
    i.day as real + i.hour as real / 24.0 + i.minute as real / 1440.0
    + i.second as real / 86400.0 + i.microsecond as real / 86400000000.0
  }

  /** January and February count as months 13 and 14 of the year
      before; the month count 12 * year + month is unchanged. */
  function ShiftedYearMonth(year: int, month: int): (r: (int, int))
    ensures 12 * r.0 + r.1 == 12 * year + month
    ensures 1 <= month <= 12 ==> 3 <= r.1 <= 14
  {
    if month == 1 || month == 2 then (year - 1, month + 12) else (year, month)
  }

  /** The Gregorian correction b = 2 - a + int(a / 4), a = int(year / 100);
      the year is never negative, where int() and Python 2's integer
      division agree with Dafny's. */
  function GregorianCorrection(year: nat): int {
    var a := year / 100;
    2 - a + a / 4
  }

  /** _jourJulien. */
  function JulianDay(i: Instant): real
    requires ValidInstant(i)
  {
    var (y, m) := ShiftedYearMonth(i.year, i.month);
    Trunc(365.25 * (y as real + 4716.0)) as real + Trunc(30.6001 * (m as real + 1.0)) as real
    + FractionalDay(i) + GregorianCorrection(y) as real - 1524.5
  }

  /** Noon of 1 January 2000 is Julian day 2451545, the epoch that placer
      subtracts. */
  lemma J2000()
    ensures JulianDay(Instant(2000, 1, 1, 12, 0, 0, 0)) == 2451545.0
  {
    assert Trunc(365.25 * (1999 as real + 4716.0)) == 2452653;
    assert Trunc(30.6001 * (13 as real + 1.0)) == 428;
    assert GregorianCorrection(1999) == -13;
  }

  /** The next day of the same month is exactly one Julian day later. */
  lemma NextDay(i: Instant)
    requires ValidInstant(i) && i.day < 31
    ensures JulianDay(i.(day := i.day + 1)) == JulianDay(i) + 1.0
  {
  }

  function Midnight(i: Instant): Instant {
    i.(hour := 0, minute := 0, second := 0, microsecond := 0)
  }

  /** The time of day moves the Julian day inside one day from
      midnight. */
  lemma TimeOfDay(i: Instant)
    requires ValidInstant(i)
    ensures JulianDay(Midnight(i)) <= JulianDay(i) < JulianDay(Midnight(i)) + 1.0
  {
  }

  /** Gregorian leap years. */
  predicate GregorianLeap(n: int) {
    n % 4 == 0 && (n % 100 != 0 || n % 400 == 0)
  }

  lemma Floor365(y: nat)
    ensures Trunc(365.25 * (y as real)) == 365 * y + y / 4
  {
    var q, r := y / 4, y % 4;
    assert y as real == 4.0 * q as real + r as real;
    assert 365.25 * (y as real) == (365 * y + q) as real + r as real / 4.0;
  }

  /** The correction drops by one at a century year, except every
      fourth. */
  lemma CorrectionStep(y: nat)
    ensures GregorianCorrection(y + 1) - GregorianCorrection(y)
            == if (y + 1) % 100 != 0 then 0 else if (y + 1) % 400 == 0 then 0 else -1
  {
    var a, a' := y / 100, (y + 1) / 100;
    if (y + 1) % 100 == 0 {
      assert a' == a + 1;
      if (y + 1) % 400 == 0 {
        assert a' % 4 == 0;
        assert a' / 4 == a / 4 + 1;
      } else {
        assert a' % 4 != 0;
        assert a' / 4 == a / 4;
      }
    } else {
      assert a' == a;
    }
  }

  /** The Julian day with the year term written as integer arithmetic. */
  lemma JulianDayTerms(i: Instant, y: int, m: int, t: int)
    requires ValidInstant(i) && (y, m) == ShiftedYearMonth(i.year, i.month)
    requires t == Trunc(30.6001 * (m as real + 1.0))
    ensures y >= 0
    ensures JulianDay(i) == (365 * (y + 4716) + (y + 4716) / 4 + t + GregorianCorrection(y)) as real
                            + FractionalDay(i) - 1524.5
  {
    var big: nat := y + 4716;
    assert y as real + 4716.0 == big as real;
    Floor365(big);
  }

  /** The year terms of consecutive shifted years differ by the length of
      the Gregorian year that ends with the February between them. */
  lemma YearTermStep(y: nat)
    ensures var big := y + 4716;
            (365 * (big + 1) + (big + 1) / 4 + GregorianCorrection(y + 1))
            - (365 * big + big / 4 + GregorianCorrection(y))
            == if GregorianLeap(y + 1) then 366 else 365
  {
    var big := y + 4716;
    var c := GregorianCorrection(y + 1) - GregorianCorrection(y);
    var q := (big + 1) / 4 - big / 4;
    CorrectionStep(y);
    QuarterStep(big);
    ShiftKeepsQuarter(y);
    LeapTerms(y + 1);
    assert q + c == if GregorianLeap(y + 1) then 1 else 0;
  }

  /** 4716 is a multiple of 4. */
  lemma ShiftKeepsQuarter(y: nat)
    ensures (y + 4716 + 1) % 4 == (y + 1) % 4
  {
  }

  /** The leap-year rule as the sum of the quarter and century terms. */
  lemma LeapTerms(n: nat)
    ensures (if GregorianLeap(n) then 1 else 0)
            == (if n % 4 == 0 then 1 else 0) + (if n % 100 != 0 then 0 else if n % 400 == 0 then 0 else -1)
  {
    if n % 100 == 0 {
      CenturyIsQuarter(n);
    }
    if n % 400 == 0 {
      QuadricentennialIsCentury(n);
    }
    LeapCases(n % 4 == 0, n % 100 == 0, n % 400 == 0);
  }

  lemma CenturyIsQuarter(n: nat)
    requires n % 100 == 0
    ensures n % 4 == 0
  {
    var k := n / 100;
    assert n == (25 * k) * 4 + 0;
    RowMajorOf(25 * k, 0, 4);
  }

  lemma QuadricentennialIsCentury(n: nat)
    requires n % 400 == 0
    ensures n % 100 == 0
  {
    var k := n / 400;
    assert n == (4 * k) * 100 + 0;
    RowMajorOf(4 * k, 0, 100);
  }

  /** The case analysis of the leap-year rule on its three divisibility
      facts. */
  lemma LeapCases(by4: bool, by100: bool, by400: bool)
    requires by100 ==> by4
    requires by400 ==> by100
    ensures (if by4 && (!by100 || by400) then 1 else 0)
            == (if by4 then 1 else 0) + (if !by100 then 0 else if by400 then 0 else -1)
  {
  }

  lemma QuarterStep(x: nat)
    ensures (x + 1) / 4 - x / 4 == if (x + 1) % 4 == 0 then 1 else 0
  {
  }

  /** The same date one year later is 366 Julian days later when a
      Gregorian 29 February lies in between, 365 otherwise. */
  lemma YearLength(i: Instant)
    requires ValidInstant(i) && i.year < 9999
    ensures var n := if i.month <= 2 then i.year else i.year + 1;
            JulianDay(i.(year := i.year + 1)) - JulianDay(i) == if GregorianLeap(n) then 366.0 else 365.0
  {
    var j := i.(year := i.year + 1);
    var (y, m) := ShiftedYearMonth(i.year, i.month);
    assert ShiftedYearMonth(j.year, j.month) == (y + 1, m);
    assert y + 1 == if i.month <= 2 then i.year else i.year + 1;
    var big := y + 4716;
    var t := Trunc(30.6001 * (m as real + 1.0));
    var f := FractionalDay(i);
    assert FractionalDay(j) == f;
    var a := 365 * big + big / 4 + GregorianCorrection(y);
    var b := 365 * (big + 1) + (big + 1) / 4 + GregorianCorrection(y + 1);
    JulianDayTerms(i, y, m, t);
    JulianDayTerms(j, y + 1, m, t);
    YearTermStep(y);
    DayDifference(JulianDay(j), JulianDay(i), a, b, t, f, GregorianLeap(y + 1));
  }

  /** Two Julian days that share their month and time terms differ by
      their year terms. */
  lemma DayDifference(dj: real, di: real, a: int, b: int, t: int, f: real, leap: bool)
    requires di == (a + t) as real + f - 1524.5 && dj == (b + t) as real + f - 1524.5
    requires b - a == if leap then 366 else 365
    ensures dj - di == if leap then 366.0 else 365.0
  {
  }

  // ---------------------------------------------------------------------
  // placer

  /** The azimuth of placer: acos gives a value in [0, 180] degrees, and
      a negative sine of the azimuth moves it to 360 minus that value. */
  function Azimuth(acosDegrees: real, sinAzimut: real): (az: real)
    requires 0.0 <= acosDegrees <= 180.0
    ensures 0.0 <= az <= 360.0
    ensures sinAzimut < 0.0 ==> 180.0 <= az
    ensures sinAzimut >= 0.0 ==> az <= 180.0
  {
    if sinAzimut < 0.0 then 360.0 - acosDegrees else acosDegrees
  }

  /** Opposite sines give azimuths mirrored across the north-south
      axis. */
  lemma AzimuthMirror(acosDegrees: real, sinAzimut: real)
    requires 0.0 <= acosDegrees <= 180.0 && sinAzimut != 0.0
    ensures Azimuth(acosDegrees, sinAzimut) + Azimuth(acosDegrees, -sinAzimut) == 360.0
  {
  }

  /** placer with the ephemeris given: the altitude, the acos of the
      azimuth and the sign of its sine. */
  function Place(s: Sun, altitude: real, acosDegrees: real, sinAzimut: real): (r: Sun)
    requires 0.0 <= acosDegrees <= 180.0
    ensures Placed(r) && r.altitude == Some(altitude)
    ensures Jour(r) <==> altitude > -0.25
    ensures 0.0 <= r.azimut.value <= 360.0
  {
    Sun(Some(altitude), Some(Azimuth(acosDegrees, sinAzimut)))
  }

  // ---------------------------------------------------------------------
  // genererXML

  /** The numbers of the source block genererXML writes. */
  datatype SunSource = SunSource(radius: real, x: real, y: real, z: real, power: real, comment: string, spectrum: string)

  /** A Python 2 number: an int, or a float (modelled as an exact real). */
  datatype PyNumber = PyInt(i: int) | PyFloat(f: real)

  /** The number's value as a float. */
  function Value(n: PyNumber): real {
    match n
    case PyInt(i) => i as real
    case PyFloat(f) => f
  }

  /** The radius of the sun's sphere as written: distance * 16 / 360
      degrees, in radians, evaluated left to right. For an int distance
      `distance * 16 / 360` is Python 2's floor division of ints (Dafny's
      `/` with a positive divisor also floors); pi is a float, so the rest
      is float arithmetic. */
  function RadiusAsWritten(distance: PyNumber, pi: real): real {
    match distance
    case PyInt(i) => ((i * 16) / 360) as real * pi / 180.0
    case PyFloat(f) => f * 16.0 / 360.0 * pi / 180.0
  }

  /** The radius for the apparent diameter of 32 arc minutes named in
      the comment: a half-angle of 16 / 60 degrees. */
  function Radius(distance: real, pi: real): real {
    distance * 16.0 / 60.0 * pi / 180.0
  }

  /** The apparent diameter, in arc minutes, of a sphere of the given
      radius at the given distance (small angles). */
  function ApparentDiameter(radius: real, distance: real, pi: real): real
    requires distance != 0.0 && pi != 0.0
  {
    2.0 * radius / distance * 180.0 / pi * 60.0
  }

  /** As written, the sun looks 16/3 arc minutes wide: six times too
      small. */
  lemma RadiusAsWrittenTooSmall(distance: real, pi: real)
    requires distance > 0.0 && pi > 0.0
    ensures ApparentDiameter(RadiusAsWritten(PyFloat(distance), pi), distance, pi) == 16.0 / 3.0
    ensures 6.0 * RadiusAsWritten(PyFloat(distance), pi) == Radius(distance, pi)
  {
    var u := distance * pi;
    assert RadiusAsWritten(PyFloat(distance), pi) == u / 4050.0;
    assert 2.0 * (u / 4050.0) / distance == pi / 2025.0;
    assert pi / 2025.0 * 180.0 / pi == 180.0 / 2025.0;
  }

  /** For an int distance below 23 (the usage example of the module docstring passes 10),
      `distance * 16 / 360` floors to 0 and the sun has no radius at all;
      from 23 on it grows by whole multiples of a degree's worth. */
  lemma IntDistanceRadius(i: int, pi: real)
    ensures 0 <= i < 23 ==> RadiusAsWritten(PyInt(i), pi) == 0.0
    ensures RadiusAsWritten(PyInt(i), pi) == ((i * 16) / 360) as real * (pi / 180.0)
    ensures i >= 23 && pi > 0.0 ==> RadiusAsWritten(PyInt(i), pi) >= pi / 180.0
  {
    var q := (i * 16) / 360;
    if 0 <= i < 23 {
      assert q == 0;
    }
    if i >= 23 {
      assert q >= 1;
      if pi > 0.0 {
        assert q as real * pi >= pi;
      }
    }
  }

  /** The apparent size of the radius as written, for both kinds of
      distance. */
  lemma RadiusAsWrittenFacts(distance: PyNumber, pi: real)
    ensures distance.PyFloat? && distance.f > 0.0 && pi > 0.0 ==>
              ApparentDiameter(RadiusAsWritten(distance, pi), distance.f, pi) == 16.0 / 3.0
    ensures distance.PyInt? && 0 <= distance.i < 23 ==> RadiusAsWritten(distance, pi) == 0.0
  {
    match distance
    case PyFloat(f) =>
      if f > 0.0 && pi > 0.0 {
        RadiusAsWrittenTooSmall(f, pi);
      }
    case PyInt(i) => IntDistanceRadius(i, pi);
  }

  /** The corrected radius gives the 32 arc minutes of the comment. */
  lemma RadiusApparentDiameter(distance: real, pi: real)
    requires distance > 0.0 && pi > 0.0
    ensures ApparentDiameter(Radius(distance, pi), distance, pi) == 32.0
  {
    var u := distance * pi;
    assert Radius(distance, pi) == u / 675.0;
    assert 2.0 * (u / 675.0) / distance == pi / 337.5;
    assert pi / 337.5 * 180.0 / pi == 180.0 / 337.5;
  }

  /** The power of the source: 4 * 3.14 * 200 * distance^2. */
  function SourcePower(distance: real): real {
    4.0 * 3.14 * 200.0 * distance * distance
  }

  /** Spread over the sphere of the distance (with pi taken as 3.14), the
      power gives 200 per unit area whatever the distance. */
  lemma PowerIrradiance(distance: real)
    ensures SourcePower(distance) == 200.0 * (4.0 * 3.14 * Square(distance))
    ensures SourcePower(2.0 * distance) == 4.0 * SourcePower(distance)
  {
  }

  /** genererXML, with sine and cosine of degrees and pi given: the sphere
      of the sun centred at the given distance in the direction of its
      azimuth and altitude (x east, y north, z up), with the radius as
      written. */
  function GenererXml(s: Sun, distance: PyNumber, comment: string, spectre: string,
                      sinDeg: real -> real, cosDeg: real -> real, pi: real): (r: Result<SunSource>)
    ensures r.Failure? <==> !Placed(s)
    ensures r.Success? ==> r.value.power == SourcePower(Value(distance))
    ensures r.Success? ==> r.value.comment == comment && r.value.spectrum == spectre
    ensures r.Success? && distance.PyFloat? && distance.f > 0.0 && pi > 0.0 ==>
              ApparentDiameter(r.value.radius, distance.f, pi) == 16.0 / 3.0
    ensures r.Success? && distance.PyInt? && 0 <= distance.i < 23 ==> r.value.radius == 0.0
  {
    if s.altitude.None? || s.azimut.None? then Failure("Le soleil doit avoir été placé !")
    else
      var alt, az, d := s.altitude.value, s.azimut.value, Value(distance);
      var x := cosDeg(alt) * d * sinDeg(az);
      var y := cosDeg(alt) * d * cosDeg(az);
      var z := sinDeg(alt) * d;
      RadiusAsWrittenFacts(distance, pi);
      Success(SunSource(RadiusAsWritten(distance, pi), x, y, z, SourcePower(d), comment, spectre))
  }

  /** The centre of the sun lies at the given distance from the origin,
      given the Pythagorean identity of the sine and cosine. */
  lemma CenterAtDistance(s: Sun, distance: PyNumber, comment: string, spectre: string,
                         sinDeg: real -> real, cosDeg: real -> real, pi: real)
    requires Placed(s)
    requires Square(sinDeg(s.altitude.value)) + Square(cosDeg(s.altitude.value)) == 1.0
    requires Square(sinDeg(s.azimut.value)) + Square(cosDeg(s.azimut.value)) == 1.0
    ensures var c := GenererXml(s, distance, comment, spectre, sinDeg, cosDeg, pi).value;
            Square(c.x) + Square(c.y) + Square(c.z) == Square(Value(distance))
  {
    var c := GenererXml(s, distance, comment, spectre, sinDeg, cosDeg, pi).value;
    var sa, ca := sinDeg(s.altitude.value), cosDeg(s.altitude.value);
    var sz, cz := sinDeg(s.azimut.value), cosDeg(s.azimut.value);
    SphericalNorm(sa, ca, sz, cz, Value(distance), c.x, c.y, c.z);
  }

  /** Spherical coordinates: (ca d sz, ca d cz, sa d) lies at distance d
      from the origin when both angles satisfy sin^2 + cos^2 = 1. */
  lemma SphericalNorm(sa: real, ca: real, sz: real, cz: real, d: real, x: real, y: real, z: real)
    requires Square(sa) + Square(ca) == 1.0 && Square(sz) + Square(cz) == 1.0
    requires x == ca * d * sz && y == ca * d * cz && z == sa * d
    ensures Square(x) + Square(y) + Square(z) == Square(d)
  {
    var h := ca * d;
    assert Square(h * sz) + Square(h * cz) == Square(h) * (Square(sz) + Square(cz));
    assert Square(h) == Square(ca) * Square(d);
    assert Square(sa * d) == Square(sa) * Square(d);
    assert Square(ca) * Square(d) + Square(sa) * Square(d) == (Square(sa) + Square(ca)) * Square(d);
  }

  // ---------------------------------------------------------------------
  // genererSpectre

  /** The attenuation of each power by the atmosphere, as a factor that
      depends on the wavelength. */
  function Attenuate(data: seq<XmlSpectrum.Sample>, transmission: real -> real): (r: seq<XmlSpectrum.Sample>)
    ensures |r| == |data|
    ensures forall k | 0 <= k < |data| ::
              r[k].wavelength == data[k].wavelength && r[k].power == data[k].power * transmission(data[k].wavelength)
  {
    seq(|data|, k requires 0 <= k < |data| =>
      XmlSpectrum.Sample(data[k].wavelength, data[k].power * transmission(data[k].wavelength)))
  }

  /** genererSpectre with the reference spectrum and the attenuation
      given: the file name and the attenuated, normalised spectrum. */
  function GenererSpectre(s: Sun, reference: seq<XmlSpectrum.Sample>, transmission: real -> real,
                          dossierData: string, indice: string): (r: Result<(string, seq<XmlSpectrum.Sample>)>)
    ensures !Placed(s) ==> r.Failure?
    ensures Placed(s) ==> (r.Failure? <==> XmlSpectrum.Normaliser(Attenuate(reference, transmission)).Failure?)
    ensures r.Success? ==> r.value.0 == Join(dossierData, "Soleil" + indice + ".xml")
    ensures r.Success? ==>
              var i := XmlSpectrum.Reference(reference).value;
              XmlSpectrum.IsReference(r.value.1, i) && r.value.1[i].power == 100.0
  {
    if s.altitude.None? || s.azimut.None? then Failure("Le soleil doit avoir été placé !")
    else
      var attenuated := Attenuate(reference, transmission);
      XmlSpectrum.SameReference(reference, attenuated);
      var normalised :- XmlSpectrum.Normaliser(attenuated);
      Success((Join(dossierData, "Soleil" + indice + ".xml"), normalised))
  }
}
