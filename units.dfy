/** Output-unit selection and the two output shapes of `main`.
    `formato` starts at 0; each `-c` adds 1 and each `-f` adds 10. */
module Units {

  /** The value of `formato` after `celsiusFlags` times `-c` and `fahrenheitFlags` times `-f`. */
  function Formato(celsiusFlags: nat, fahrenheitFlags: nat): (formato: nat)
    ensures formato == 0 <==> celsiusFlags == 0 && fahrenheitFlags == 0
    ensures formato >= 10 <==> fahrenheitFlags > 0 || celsiusFlags >= 10
  {
    celsiusFlags + 10 * fahrenheitFlags
  }

  /** Human-readable output prints the Fahrenheit value. `formato` is never
      negative, so C's `%` and Dafny's agree wherever it is used. */
  predicate ShowsFahrenheit(formato: nat)
  {
    formato >= 10 || formato == 0
  }

  /** Human-readable output prints the Celsius value. */
  predicate ShowsCelsius(formato: nat)
  {
    formato % 10 == 1 || formato == 0
  }

  /** Monitoring output reports Fahrenheit rather than Celsius. */
  predicate MonitorsFahrenheit(formato: nat)
  {
    formato >= 10
  }

  /** `9.0 / 5.0 * tempc + 32.0`, exactly; its inverse recovers the Celsius value. */
  function Fahrenheit(celsius: real): (f: real)
    ensures (f - 32.0) * 5.0 / 9.0 == celsius
  {
    9.0 / 5.0 * celsius + 32.0
  }

  /** The units printed, in terms of how often each flag was given: Celsius when
      `-c` was given a number of times ending in 1, Fahrenheit when `-f` was given
      (or `-c` ten times or more), both when neither flag was given. */
  lemma UnitsFromFlags(c: nat, f: nat)
    ensures ShowsCelsius(Formato(c, f)) <==> c % 10 == 1 || (c == 0 && f == 0)
    ensures ShowsFahrenheit(Formato(c, f)) <==> f > 0 || c >= 10 || (c == 0 && f == 0)
    ensures MonitorsFahrenheit(Formato(c, f)) <==> f > 0 || c >= 10
  {
    var formato := Formato(c, f);
    assert formato % 10 == c % 10 by {
      TensVanish(c, f);
    }
    assert ShowsCelsius(formato) <==> formato % 10 == 1 || formato == 0;
  }

  lemma {:induction false} TensVanish(c: nat, f: nat)
    ensures (c + 10 * f) % 10 == c % 10
  {
    if f > 0 {
      TensVanish(c, f - 1);
      assert c + 10 * f == (c + 10 * (f - 1)) + 10;
    }
  }

  /** Each flag given at most once: `-c` alone prints only Celsius, `-f` alone
      only Fahrenheit, and no flag or both flags print both units. */
  lemma SingleFlags(c: nat, f: nat)
    requires c <= 1 && f <= 1
    ensures ShowsCelsius(Formato(c, f)) <==> c == 1 || f == 0
    ensures ShowsFahrenheit(Formato(c, f)) <==> f == 1 || c == 0
  {
    UnitsFromFlags(c, f);
  }

  /** `-c` given twice makes `formato` 2, and then neither unit is printed. */
  lemma RepeatedCelsiusFlag()
    ensures !ShowsCelsius(Formato(2, 0)) && !ShowsFahrenheit(Formato(2, 0))
  {
    UnitsFromFlags(2, 0);
  }

  datatype TempUnit = DegF | DegC

  /** A piece of the human-readable line. */
  datatype Part =
    | Stamp                                  // "YYYY/MM/DD HH:MM:SS "
    | Location(bus: string, device: string)  // "Bus %s Device %s "
    | Word                                   // "Temperature"
    | Reading(value: real, unit: TempUnit)   // " %.2fF" or " %.2fC"

  /** A line printed for one polled device. */
  datatype Line =
    | Value(value: real)       // "%.2f"
    | Clock                    // "HH:MM"
    | Tag(name: string)        // "pcsensor"
    | Parts(parts: seq<Part>)  // the human-readable line

  /** The lines printed for a device whose reading is `celsius`. */
  function Present(formato: nat, mrtg: bool, devlist: bool, celsius: real, bus: string, device: string): (lines: seq<Line>)
    ensures mrtg ==> |lines| == 4 && lines[0] == lines[1] && lines[2] == Clock && lines[3] == Tag("pcsensor")
    ensures mrtg ==> lines[0] == Value(if MonitorsFahrenheit(formato) then Fahrenheit(celsius) else celsius)
    ensures !mrtg ==> |lines| == 1 && lines[0].Parts? && |lines[0].parts| > 1 && lines[0].parts[0] == Stamp && Word in lines[0].parts
    ensures !mrtg ==> (Location(bus, device) in lines[0].parts <==> devlist)
    ensures !mrtg ==> (Reading(Fahrenheit(celsius), DegF) in lines[0].parts <==> ShowsFahrenheit(formato))
    ensures !mrtg ==> (Reading(celsius, DegC) in lines[0].parts <==> ShowsCelsius(formato))
    ensures !mrtg ==> forall p :: p in lines[0].parts && p.Reading? ==> p.value == if p.unit == DegF then Fahrenheit(celsius) else celsius
  {
    if mrtg then
      var v := Value(if MonitorsFahrenheit(formato) then Fahrenheit(celsius) else celsius);
      [v, v, Clock, Tag("pcsensor")]
    else
      var location := if devlist then [Location(bus, device)] else [];
      var f := if ShowsFahrenheit(formato) then [Reading(Fahrenheit(celsius), DegF)] else [];
      var c := if ShowsCelsius(formato) then [Reading(celsius, DegC)] else [];
      [Parts([Stamp] + location + [Word] + f + c)]
  }

  /** The readable line in order: the stamp, the location when asked for,
      "Temperature", then the Fahrenheit reading before the Celsius one, each
      part at most once. */
  lemma ReadableLineLayout(formato: nat, devlist: bool, celsius: real, bus: string, device: string)
    ensures var parts := Present(formato, false, devlist, celsius, bus, device)[0].parts;
      var w := if devlist then 2 else 1;
      |parts| == w + 1 + (if ShowsFahrenheit(formato) then 1 else 0) + (if ShowsCelsius(formato) then 1 else 0) &&
      parts[0] == Stamp && (devlist ==> parts[1] == Location(bus, device)) && parts[w] == Word &&
      (forall i :: 0 <= i < |parts| && i != w ==> parts[i] != Word) &&
      (forall i, j ::
        (0 <= i < |parts| && 0 <= j < |parts| && parts[i].Reading? && parts[j].Reading? &&
         parts[i].unit == DegF && parts[j].unit == DegC) ==> w < i < j)
  {
    var location := if devlist then [Location(bus, device)] else [];
    var f := if ShowsFahrenheit(formato) then [Reading(Fahrenheit(celsius), DegF)] else [];
    var c := if ShowsCelsius(formato) then [Reading(celsius, DegC)] else [];
    ReadableParts(formato, devlist, celsius, bus, device);
    PartsOrder(location, f, c);
  }

  lemma ReadableParts(formato: nat, devlist: bool, celsius: real, bus: string, device: string)
    ensures Present(formato, false, devlist, celsius, bus, device)[0].parts ==
      [Stamp] + (if devlist then [Location(bus, device)] else []) + [Word] +
      (if ShowsFahrenheit(formato) then [Reading(Fahrenheit(celsius), DegF)] else []) +
      (if ShowsCelsius(formato) then [Reading(celsius, DegC)] else [])
  {
  }

  lemma PartsOrder(location: seq<Part>, f: seq<Part>, c: seq<Part>)
    requires |location| <= 1 && |f| <= 1 && |c| <= 1
    requires forall p :: p in location ==> p.Location?
    requires forall p :: p in f ==> p.Reading? && p.unit == DegF
    requires forall p :: p in c ==> p.Reading? && p.unit == DegC
    ensures var parts := [Stamp] + location + [Word] + f + c;
      var w := |location| + 1;
      |parts| == w + 1 + |f| + |c| && parts[w] == Word &&
      (forall i :: 0 <= i < |parts| && i != w ==> parts[i] != Word) &&
      (forall i, j ::
        (0 <= i < |parts| && 0 <= j < |parts| && parts[i].Reading? && parts[j].Reading? &&
         parts[i].unit == DegF && parts[j].unit == DegC) ==> w < i < j)
  {
    var parts := [Stamp] + location + [Word] + f + c;
    var w := |location| + 1;
    forall i | 0 <= i < |parts|
      ensures i < w ==> parts[i] == Stamp || parts[i] in location
      ensures w < i < w + 1 + |f| ==> parts[i] in f
      ensures w + |f| < i ==> parts[i] in c
    {
    }
  }
}
