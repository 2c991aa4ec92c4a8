/**
 * Natal-chart formatting of Starbutts.py: the mapping of an ecliptic
 * longitude to a zodiac sign, the planet table filled by calculate_chart and
 * the house labels built by calculate_houses.  Longitudes are inputs: the
 * ephemeris that computes them is not part of this model.  Longitudes are
 * exact reals; Python's floating-point rounding is not modelled.
 */
module Zodiac {
  import opened Wrappers

  /** The sign table of degree_to_sign, Aries to Pisces. */
  const Signs: seq<string> :=
    ["Овен", "Телец", "Близнецы", "Рак",
     "Лев", "Дева", "Весы", "Скорпион",
     "Стрелец", "Козерог", "Водолей", "Рыбы"]

  /** The planets of calculate_chart, in the order of its dictionary. */
  const Planets: seq<string> :=
    ["Солнце", "Луна", "Меркурий", "Венера", "Марс",
     "Юпитер", "Сатурн", "Уран", "Нептун", "Плутон"]

  /** The IndexError raised by signs[sign_index] for an index outside -12..11. */
  datatype LookupError = SignIndexOutOfRange(index: int)

  /** What degree_to_sign formats: the table entry used and the degree within
      the sign (the "%.2f°" text rendering is left out). */
  datatype SignPosition = SignPosition(sign: nat, name: string, degreeInSign: real)

  /** One entry of an ordered dictionary: a planet or house label and its sign. */
  datatype Entry = Entry(key: string, position: SignPosition)

  /** Python's int(degree // 30): floor division of a float. */
  function SignIndex(degree: real): (q: int)
    ensures 30.0 * q as real <= degree < 30.0 * q as real + 30.0
  {
    (degree / 30.0).Floor
  }

  /** degree_to_sign: the floor of degree / 30 indexes the table the
      Python way (a negative index counts from the end), degree % 30 is
      Python's remainder, which takes the sign of the divisor. */
  function DegreeToSign(degree: real): (r: Result<SignPosition, LookupError>)
    ensures r.Ok? <==> -360.0 <= degree < 360.0
    ensures r.Err? ==> r.error == SignIndexOutOfRange(SignIndex(degree))
    ensures r.Ok? ==> r.value.sign < |Signs| && r.value.name == Signs[r.value.sign]
    ensures r.Ok? ==> 0.0 <= r.value.degreeInSign < 30.0
    ensures r.Ok? && 0.0 <= degree ==> 30.0 * r.value.sign as real + r.value.degreeInSign == degree
    ensures r.Ok? && degree < 0.0 ==> 30.0 * r.value.sign as real + r.value.degreeInSign == degree + 360.0
  {
    var q := SignIndex(degree);
    if -12 <= q < 12 then
      var sign := if q < 0 then q + 12 else q;
      Ok(SignPosition(sign, Signs[sign], degree - 30.0 * q as real))
    else
      Err(SignIndexOutOfRange(q))
  }

  /** For an ecliptic longitude in [0, 360), the sign is the 30-degree
      segment holding it: sign k exactly on [30k, 30k + 30). */
  lemma SignSegment(degree: real, k: nat)
    requires 0.0 <= degree < 360.0 && k < 12
    ensures DegreeToSign(degree).Ok?
    ensures DegreeToSign(degree).value.sign == k <==> 30.0 * k as real <= degree < 30.0 * k as real + 30.0
  {
  }

  // ------------------------------------------------------ calculate_chart

  ghost predicate AllInRange(degrees: seq<real>) {
    forall i :: 0 <= i < |degrees| ==> DegreeToSign(degrees[i]).Ok?
  }

  /** calculate_chart: for each planet in table order, look up its longitude
      (swe.calc_ut, here the parameter `longitude`) and store its sign under
      the planet's name.  The first out-of-range longitude raises. */
  method CalculateChart(longitude: string -> real) returns (chart: Result<seq<Entry>, LookupError>)
    ensures chart.Ok? <==> forall i :: 0 <= i < |Planets| ==> DegreeToSign(longitude(Planets[i])).Ok?
    ensures chart.Ok? ==> |chart.value| == |Planets|
    ensures chart.Ok? ==> forall i :: 0 <= i < |Planets| ==>
      chart.value[i] == Entry(Planets[i], DegreeToSign(longitude(Planets[i])).value)
    ensures chart.Err? ==> exists i :: (0 <= i < |Planets| && DegreeToSign(longitude(Planets[i])) == Err(chart.error)
      && forall k :: 0 <= k < i ==> DegreeToSign(longitude(Planets[k])).Ok?)
  {
    var entries: seq<Entry> := [];
    var i := 0;
    while i < |Planets|
      invariant 0 <= i <= |Planets|
      invariant |entries| == i
      invariant forall j :: 0 <= j < i ==> DegreeToSign(longitude(Planets[j])).Ok?
      invariant forall j :: 0 <= j < i ==> entries[j] == Entry(Planets[j], DegreeToSign(longitude(Planets[j])).value)
    {
      var name := Planets[i];
      var position := DegreeToSign(longitude(name));
      if position.Err? {
        return Err(position.error);
      }
      entries := entries + [Entry(name, position.value)];
      i := i + 1;
    }
    return Ok(entries);
  }

  // ----------------------------------------------------- calculate_houses

  /** Decimal digits of a natural number, as f"{n}" writes it. */
  function NatToString(n: nat): (s: string)
    ensures |s| > 0
    decreases n
  {
    if n < 10 then [DigitChar(n)] else NatToString(n / 10) + [DigitChar(n % 10)]
  }

  function DigitChar(d: nat): char
    requires d < 10
  {
    ('0' as int + d) as char
  }

  /** The value of a string of decimal digits (inverse of NatToString). */
  function DecimalValue(s: string): int
    decreases |s|
  {
    if s == [] then 0 else 10 * DecimalValue(s[..|s| - 1]) + (s[|s| - 1] as int - '0' as int)
  }

  /** Reading back the digits f"{n}" writes gives n. */
  lemma {:induction false} DecimalRoundTrip(n: nat)
    ensures DecimalValue(NatToString(n)) == n
    decreases n
  {
    var s := NatToString(n);
    if n >= 10 {
      DecimalRoundTrip(n / 10);
      assert s[..|s| - 1] == NatToString(n / 10);
    } else {
      assert s[..0] == [];
    }
  }

  lemma NatToStringInjective(m: nat, n: nat)
    ensures NatToString(m) == NatToString(n) ==> m == n
  {
    DecimalRoundTrip(m);
    DecimalRoundTrip(n);
  }

  /** The dictionary key f"Дом {i}". */
  function HouseKey(i: nat): (key: string)
    ensures |key| > 4 && key[..4] == "Дом " && DecimalValue(key[4..]) == i
  {
    DecimalRoundTrip(i);
    var key := "Дом " + NatToString(i);
    assert key[4..] == NatToString(i);
    key
  }

  lemma HouseKeyInjective(i: nat, j: nat)
    requires i != j
    ensures HouseKey(i) != HouseKey(j)
  {
    assert NatToString(i) == HouseKey(i)[4..];
    assert NatToString(j) == HouseKey(j)[4..];
    NatToStringInjective(i, j);
  }

  /** The dictionary comprehension of calculate_houses: house i + 1 gets the
      sign of cusp i, in cusp order; the first out-of-range cusp raises. */
  function HouseLabels(cusps: seq<real>): (r: Result<seq<Entry>, LookupError>)
    ensures r.Ok? <==> AllInRange(cusps)
    ensures r.Ok? ==> |r.value| == |cusps|
    ensures r.Ok? ==> forall i :: 0 <= i < |cusps| ==>
      r.value[i] == Entry(HouseKey(i + 1), DegreeToSign(cusps[i]).value)
    ensures r.Err? ==> exists i :: (0 <= i < |cusps| && DegreeToSign(cusps[i]) == Err(r.error)
      && forall k :: 0 <= k < i ==> DegreeToSign(cusps[k]).Ok?)
  {
    HouseLabelsFrom(cusps, 0)
  }

  /** The comprehension from cusp i on. */
  function HouseLabelsFrom(cusps: seq<real>, i: nat): (r: Result<seq<Entry>, LookupError>)
    requires i <= |cusps|
    ensures r.Ok? <==> forall j :: i <= j < |cusps| ==> DegreeToSign(cusps[j]).Ok?
    ensures r.Ok? ==> |r.value| == |cusps| - i
    ensures r.Ok? ==> forall j :: i <= j < |cusps| ==>
      r.value[j - i] == Entry(HouseKey(j + 1), DegreeToSign(cusps[j]).value)
    ensures r.Err? ==> exists j :: (i <= j < |cusps| && DegreeToSign(cusps[j]) == Err(r.error)
      && forall k :: i <= k < j ==> DegreeToSign(cusps[k]).Ok?)
    decreases |cusps| - i
  {
    if i == |cusps| then Ok([])
    else
      var first := DegreeToSign(cusps[i]);
      if first.Err? then Err(first.error)
      else
        var rest := HouseLabelsFrom(cusps, i + 1);
        if rest.Err? then Err(rest.error)
        else Ok([Entry(HouseKey(i + 1), first.value)] + rest.value)
  }

  /** Keys of a list of entries, as a set. */
  function Keys(entries: seq<Entry>): set<string> {
    set i | 0 <= i < |entries| :: entries[i].key
  }

  /** The house labels are pairwise distinct, so the dictionary built from
      them has exactly one entry per cusp. */
  lemma HouseKeysDistinct(cusps: seq<real>, houses: seq<Entry>)
    requires HouseLabels(cusps) == Ok(houses)
    ensures forall i, j :: 0 <= i < j < |houses| ==> houses[i].key != houses[j].key
    ensures |Keys(houses)| == |cusps|
  {
    NumberedKeysDistinct(houses);
    DistinctKeysCount(houses);
  }

  lemma NumberedKeysDistinct(houses: seq<Entry>)
    requires forall i :: 0 <= i < |houses| ==> houses[i].key == HouseKey(i + 1)
    ensures forall i, j :: 0 <= i < j < |houses| ==> houses[i].key != houses[j].key
  {
    forall i, j | 0 <= i < j < |houses| ensures houses[i].key != houses[j].key {
      HouseKeyInjective(i + 1, j + 1);
    }
  }

  lemma {:induction false} DistinctKeysCount(entries: seq<Entry>)
    requires forall i, j :: 0 <= i < j < |entries| ==> entries[i].key != entries[j].key
    ensures |Keys(entries)| == |entries|
    decreases |entries|
  {
    if entries != [] {
      var init := entries[..|entries| - 1];
      var last := entries[|entries| - 1];
      DistinctKeysCount(init);
      assert Keys(entries) == Keys(init) + {last.key};
      assert last.key !in Keys(init);
    }
  }
}
