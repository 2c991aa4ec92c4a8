/**
 * The birth-data format the chart, financial and compatibility handlers of
 * Starbutts.py accept: "Name, DD.MM.YYYY, HH:MM, City".  Input is split on
 * "," and accepted only when that gives exactly four fields, each of which
 * is then stripped; the date, time and city are not checked here (the
 * geocoder and the time parser that reject them are not part of this model).
 */
module Intake {
  import opened Wrappers
  import opened Text

  datatype Record = Record(name: string, date: string, time: string, location: string)

  /** The "wrong format" reply: the split did not give four fields. */
  datatype ParseError = WrongFieldCount(fields: nat)

  function Fields(r: Record): seq<string> {
    [r.name, r.date, r.time, r.location]
  }

  /** The text is split at every comma; anything but exactly four parts is
      rejected, otherwise the four parts, stripped, are the record. */
  function ParseRecord(text: string): (r: Result<Record, ParseError>)
    ensures r.Ok? <==> Count(text, ',') == 3
    ensures r.Err? ==> r.error == WrongFieldCount(Count(text, ',') + 1)
    ensures r.Ok? ==> Clean(r.value)
  {
    var data := Split(text, ',');
    if |data| != 4 then Err(WrongFieldCount(|data|))
    else
      StripKeepsOut(data[0], ',');
      StripKeepsOut(data[1], ',');
      StripKeepsOut(data[2], ',');
      StripKeepsOut(data[3], ',');
      Ok(Record(Strip(data[0]), Strip(data[1]), Strip(data[2]), Strip(data[3])))
  }

  /** A field as it leaves the parse: stripped and free of commas. */
  predicate CleanField(f: string) {
    Trimmed(f) && ',' !in f
  }

  predicate Clean(r: Record) {
    CleanField(r.name) && CleanField(r.date) && CleanField(r.time) && CleanField(r.location)
  }

  /** Stripping never introduces a character: one absent before is absent after. */
  lemma StripKeepsOut(s: string, c: char)
    requires c !in s
    ensures c !in Strip(s)
  {
    var t := TrimStart(s);
    SliceKeepsOut(s, |s| - |t|, |s|, c);
    SliceKeepsOut(t, 0, |TrimEnd(t)|, c);
  }

  lemma SliceKeepsOut(s: string, i: nat, j: nat, c: char)
    requires i <= j <= |s| && c !in s
    ensures c !in s[i..j]
  {
    forall k | 0 <= k < j - i
      ensures s[i..j][k] != c
    {
      assert s[i..j][k] == s[i + k];
    }
  }

  /** A message written in the expected format, with any whitespace around
      the commas, parses back to its four fields. */
  lemma ParseFormatted(rec: Record, pads: seq<string>, text: string)
    requires Clean(rec)
    requires |pads| == 8 && forall i :: 0 <= i < 8 ==> AllSpace(pads[i])
    requires forall i :: 0 <= i < 4 ==> Fields(rec)[i] == [] ==> pads[2 * i + 1] == []
    requires text == Join(Padded(Fields(rec), pads), ',')
    ensures ParseRecord(text) == Ok(rec)
  {
    var fields := Fields(rec);
    var parts := Padded(fields, pads);
    forall i | 0 <= i < 4 ensures ',' !in parts[i] && Strip(parts[i]) == fields[i] {
      assert CleanField(fields[i]);
      assert parts[i] == pads[2 * i] + fields[i] + pads[2 * i + 1];
      StripSurrounded(pads[2 * i], fields[i], pads[2 * i + 1]);
    }
    SplitJoin(parts, ',');
    assert Split(text, ',') == parts;
  }

  /** Each field surrounded by its two pads. */
  function Padded(fields: seq<string>, pads: seq<string>): (parts: seq<string>)
    requires |pads| == 2 * |fields|
    ensures |parts| == |fields|
  {
    seq(|fields|, i requires 0 <= i < |fields| => pads[2 * i] + fields[i] + pads[2 * i + 1])
  }
}
