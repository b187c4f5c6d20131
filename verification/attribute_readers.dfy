/** The typed attribute readers of io/Parser.hpp. An attribute that is
    missing reads as "" and then yields the caller's default. */
module AttributeReaders {

  import opened Wrappers
  import opened OpenHashMap
  import opened XmlTree
  import XmlParser

  const TwoTo31: int := 0x8000_0000
  const TwoTo32: int := 0x1_0000_0000
  const LongMax: int := 0x7FFF_FFFF_FFFF_FFFF
  const LongMin: int := -0x8000_0000_0000_0000

  /** The text an attribute reads as: its value, or "" when it is missing. */
  function AttributeText(n: Node, name: string): string {
    Scan(n.attributes.slots, name).GetOr("")
  }

  // ---------------------------------------------------------------------
  // strtol(text, NULL, 10) on a 64-bit long, then narrowed to int

  function DigitValue(c: char): (d: nat)
    requires XmlParser.IsDigit(c)
    ensures d < 10
  {
    (c as int) - ('0' as int)
  }

  predicate AllDigits(t: string) {
    forall k | 0 <= k < |t| :: XmlParser.IsDigit(t[k])
  }

  /** The value of a string of decimal digits. */
  function DigitsValue(t: string): nat
    requires AllDigits(t)
  {
    if t == [] then 0 else DigitsValue(t[..|t| - 1]) * 10 + DigitValue(t[|t| - 1])
  }

  /** The end of the run of digits starting at i. */
  function DigitRun(s: string, i: nat): (e: nat)
    requires i <= |s|
    ensures i <= e <= |s| && AllDigits(s[i..e])
    ensures e == |s| || !XmlParser.IsDigit(s[e])
    decreases |s| - i
  {
    if i < |s| && XmlParser.IsDigit(s[i]) then
      var e := DigitRun(s, i + 1);
      assert forall k | 0 <= k < |s[i..e]| :: s[i..e][k] == s[i + k];
      e
    else i
  }

  /** strtol in base 10: leading blanks, an optional sign, the longest run
      of digits (none reads as 0), saturated to the range of a long. */
  function Strtol(s: string): (v: int)
    ensures LongMin <= v <= LongMax
  {
    var p := XmlParser.ReadWhiteSpace(s, 0);
    var negative := p < |s| && s[p] == '-';
    var q := if p < |s| && (s[p] == '-' || s[p] == '+') then p + 1 else p;
    var magnitude: int := DigitsValue(s[q..DigitRun(s, q)]);
    if negative then (if -magnitude < LongMin then LongMin else -magnitude)
    else (if magnitude > LongMax then LongMax else magnitude)
  }

  /** The conversion of a long to a 32-bit int (two's complement wrap). */
  function ToInt32(v: int): (r: int)
    ensures -TwoTo31 <= r < TwoTo31
    ensures (r - v) % TwoTo32 == 0
    ensures -TwoTo31 <= v < TwoTo31 ==> r == v
  {
    var w := v % TwoTo32;
    if w >= TwoTo31 then w - TwoTo32 else w
  }

  /** Decimal digits of n, most significant first, no leading zero. */
  function NatDigits(n: nat): (t: string)
    ensures |t| >= 1 && AllDigits(t)
    ensures DigitsValue(t) == n
  {
    var d := ['0' + (n % 10) as char];
    if n < 10 then
      assert DigitsValue(d) == DigitsValue(d[..0]) * 10 + n;
      d
    else
      var t := NatDigits(n / 10) + d;
      assert t[..|t| - 1] == NatDigits(n / 10);
      t
  }

  /** The usual decimal form of an integer. */
  function Decimal(i: int): string {
    if i < 0 then "-" + NatDigits(-i) else NatDigits(i)
  }

  lemma DigitRunCoversDigits(s: string, q: nat)
    requires q <= |s| && AllDigits(s[q..])
    ensures DigitRun(s, q) == |s|
    decreases |s| - q
  {
    if q < |s| {
      assert s[q..][0] == s[q];
      assert s[q + 1..] == s[q..][1..];
      DigitRunCoversDigits(s, q + 1);
    }
  }

  /** strtol reads back the decimal form of any int. */
  lemma StrtolDecimal(i: int)
    requires -TwoTo31 <= i < TwoTo31
    ensures ToInt32(Strtol(Decimal(i))) == i
  {
    var s := Decimal(i);
    var t := if i < 0 then NatDigits(-i) else NatDigits(i);
    var q := if i < 0 then 1 else 0;
    assert s[q..] == t;
    assert s[0] == '-' || XmlParser.IsDigit(s[0]);
    assert XmlParser.ReadWhiteSpace(s, 0) == 0;
    DigitRunCoversDigits(s, q);
    assert s[q..DigitRun(s, q)] == t;
    assert XmlParser.ReadWhiteSpace(s, 0) == 0;
    if i < 0 {
      assert s[0] == '-';
      assert Strtol(s) == 0 - DigitsValue(t) == i;
    } else {
      assert s[0] != '-' && s[0] != '+';
      assert Strtol(s) == DigitsValue(t) == i;
    }
  }

  // ---------------------------------------------------------------------
  // The readers

  /** getRealValue. strtod is a parameter: its parsing of decimal and
      exponent forms is not modelled. */
  function GetRealValue(n: Node, name: string, default: real, strtod: string -> real): (r: Result<real>)
    requires Valid(n.attributes)
    ensures r.Success? && AttributeText(n, name) == "" ==> r.value == default
    ensures r.Success? && AttributeText(n, name) != "" ==> r.value == strtod(AttributeText(n, name))
    ensures Scan(n.attributes.slots, name).Some? ==> r.Success?
  {
    var text :- GetAttributeValue(n, name);
    if text == "" then Success(default) else Success(strtod(text))
  }

  /** getIntegerValue. */
  function GetIntegerValue(n: Node, name: string, default: int): (r: Result<int>)
    requires Valid(n.attributes)
    ensures r.Success? && AttributeText(n, name) == "" ==> r.value == default
    ensures r.Success? ==> -TwoTo31 <= r.value < TwoTo31 || r.value == default
    ensures Scan(n.attributes.slots, name).Some? ==> r.Success?
  {
    var text :- GetAttributeValue(n, name);
    if text == "" then Success(default) else Success(ToInt32(Strtol(text)))
  }

  /** The spellings getBooleanValue accepts as true. */
  predicate IsTrueSpelling(t: string) {
    t == "true" || t == "TRUE" || t == "True" || t == "1"
  }

  /** getBooleanValue: the default for an empty text, otherwise true
      exactly for the four accepted spellings. */
  function GetBooleanValue(n: Node, name: string, default: bool): (r: Result<bool>)
    requires Valid(n.attributes)
    ensures r.Success? && AttributeText(n, name) == "" ==> r.value == default
    ensures r.Success? && AttributeText(n, name) != "" ==> (r.value <==> IsTrueSpelling(AttributeText(n, name)))
    ensures Scan(n.attributes.slots, name).Some? ==> r.Success?
  {
    var text :- GetAttributeValue(n, name);
    if text == "" then Success(default)
    else Success(text == "true" || text == "TRUE" || text == "True" || text == "1")
  }

  /** An attribute written in decimal reads back as the same int. */
  lemma IntegerAttributeRoundTrip(n: Node, name: string, i: int, default: int)
    requires Valid(n.attributes) && -TwoTo31 <= i < TwoTo31
    requires Scan(n.attributes.slots, name) == Some(Decimal(i))
    ensures GetIntegerValue(n, name, default) == Success(i)
  {
    StrtolDecimal(i);
    assert Decimal(i) != "";
  }

  /** A missing attribute gives the default for all three readers. */
  lemma MissingGivesDefault(n: Node, name: string, dr: real, di: int, db: bool, strtod: string -> real)
    requires Valid(n.attributes) && Scan(n.attributes.slots, name).None?
    ensures GetRealValue(n, name, dr, strtod).Success? ==> GetRealValue(n, name, dr, strtod).value == dr
    ensures GetIntegerValue(n, name, di).Success? ==> GetIntegerValue(n, name, di).value == di
    ensures GetBooleanValue(n, name, db).Success? ==> GetBooleanValue(n, name, db).value == db
  {
  }

  /** "false", "0" and "yes" are all read as false. */
  lemma OtherSpellingsAreFalse()
    ensures !IsTrueSpelling("false") && !IsTrueSpelling("0") && !IsTrueSpelling("yes")
    ensures !IsTrueSpelling("tRUE")
  {
  }
}
