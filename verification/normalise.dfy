/** Row normalisation: one decoded CSV row (header name to raw text) becomes a
    typed trip record, or a failure whose message the loader prints before it
    skips the row. The timestamp, integer and decimal conversions belong to
    .NET and CsvHelper and are parameters here. */
module Normalise {
  import opened Results
  import opened Trips

  /** One decoded row: the raw text of each field, by header name. */
  type RawRow = map<string, string>

  const PickupColumn: string := "tpep_pickup_datetime"
  const DropoffColumn: string := "tpep_dropoff_datetime"
  const PassengerColumn: string := "passenger_count"
  const DistanceColumn: string := "trip_distance"
  const FlagColumn: string := "store_and_fwd_flag"
  const PuColumn: string := "PULocationID"
  const DoColumn: string := "DOLocationID"
  const FareColumn: string := "fare_amount"
  const TipColumn: string := "tip_amount"

  /** The field conversions the loader relies on, each a partial function:
      `dateTime` parses the civil US-Eastern text and converts it to UTC,
      `int32` and `decimal` are CsvHelper's typed field reads. */
  datatype Parsers = Parsers(
    dateTime: string -> Result<Instant>,
    int32: string -> Result<Int32>,
    decimal: string -> Result<Decimal>)

  // ---------------------------------------------------------------------
  // String.Trim

  /** `char.IsWhiteSpace`: the space separators, the line and paragraph
      separators, U+0009..U+000D and U+0085. */
  predicate IsWhiteSpace(c: char) {
    || c == ' '
    || '\t' <= c <= '\r'
    || c == '\U{85}'
    || c == '\U{A0}'
    || c == '\U{1680}'
    || '\U{2000}' <= c <= '\U{200A}'
    || c == '\U{2028}'
    || c == '\U{2029}'
    || c == '\U{202F}'
    || c == '\U{205F}'
    || c == '\U{3000}'
  }

  predicate AllWhite(s: string) {
    forall k :: 0 <= k < |s| ==> IsWhiteSpace(s[k])
  }

  /** The number of white-space characters at the start of `s`. */
  function LeadingWhite(s: string): (n: nat)
    ensures n <= |s|
    ensures AllWhite(s[..n])
    ensures n < |s| ==> !IsWhiteSpace(s[n])
  {
    if s == [] || !IsWhiteSpace(s[0]) then 0
    else
      var n := 1 + LeadingWhite(s[1..]);
      assert s[..n] == [s[0]] + s[1..][..n - 1];
      n
  }

  /** The number of white-space characters at the end of `s`. */
  function TrailingWhite(s: string): (n: nat)
    ensures n <= |s|
    ensures AllWhite(s[|s| - n..])
    ensures n < |s| ==> !IsWhiteSpace(s[|s| - 1 - n])
  {
    if s == [] || !IsWhiteSpace(s[|s| - 1]) then 0
    else
      var n := 1 + TrailingWhite(s[..|s| - 1]);
      assert s[|s| - n..] == s[..|s| - 1][|s| - n..] + [s[|s| - 1]];
      n
  }

  /** `String.Trim()`: `s` without its leading and trailing white space. */
  function Trim(s: string): (r: string)
    ensures LeadingWhite(s) + |r| <= |s|
    ensures r == s[LeadingWhite(s)..LeadingWhite(s) + |r|]
    ensures AllWhite(s[LeadingWhite(s) + |r|..])
    ensures r == [] || (!IsWhiteSpace(r[0]) && !IsWhiteSpace(r[|r| - 1]))
  {
    var t := s[LeadingWhite(s)..];
    t[..|t| - TrailingWhite(t)]
  }

  lemma {:induction false} LeadingWhiteOfPadded(a: string, m: string)
    requires AllWhite(a)
    requires m == [] || !IsWhiteSpace(m[0])
    ensures LeadingWhite(a + m) == |a| + LeadingWhite(m)
    decreases |a|
  {
    if a != [] {
      assert (a + m)[1..] == a[1..] + m;
      LeadingWhiteOfPadded(a[1..], m);
    } else {
      assert a + m == m;
    }
  }

  lemma {:induction false} TrailingWhiteOfPadded(m: string, b: string)
    requires AllWhite(b)
    requires m == [] || !IsWhiteSpace(m[|m| - 1])
    ensures TrailingWhite(m + b) == |b| + TrailingWhite(m)
    decreases |b|
  {
    if b != [] {
      assert (m + b)[..|m + b| - 1] == m + b[..|b| - 1];
      TrailingWhiteOfPadded(m, b[..|b| - 1]);
    } else {
      assert m + b == m;
    }
  }

  /** Trim is characterised by its result: any string made of white space,
      then a core that neither starts nor ends with white space, then white
      space again, trims to that core. */
  lemma {:induction false} TrimUnique(a: string, m: string, b: string)
    requires AllWhite(a) && AllWhite(b)
    requires m == [] || (!IsWhiteSpace(m[0]) && !IsWhiteSpace(m[|m| - 1]))
    ensures Trim(a + m + b) == m
  {
    var s := a + m + b;
    if m == [] {
      assert s == a + b;
      assert AllWhite(s) by {
        forall k | 0 <= k < |s| ensures IsWhiteSpace(s[k]) {
          if k < |a| { assert s[k] == a[k]; } else { assert s[k] == b[k - |a|]; }
        }
      }
      AllWhiteLeading(s);
      assert LeadingWhite(s) == |s|;
    } else {
      LeadingWhiteOfPadded(a, m + b);
      assert LeadingWhite(m + b) == 0;
      assert a + (m + b) == s;
      var t := s[|a|..];
      assert t == m + b;
      TrailingWhiteOfPadded(m, b);
      assert TrailingWhite(m) == 0;
    }
  }

  lemma {:induction false} AllWhiteLeading(s: string)
    requires AllWhite(s)
    ensures LeadingWhite(s) == |s|
    decreases |s|
  {
    if s != [] {
      assert AllWhite(s[1..]) by {
        forall k | 0 <= k < |s[1..]| ensures IsWhiteSpace(s[1..][k]) {
          assert s[1..][k] == s[k + 1];
        }
      }
      AllWhiteLeading(s[1..]);
    }
  }

  /** Trimming twice is trimming once. */
  lemma TrimIdempotent(s: string)
    ensures Trim(Trim(s)) == Trim(s)
  {
    var m := Trim(s);
    TrimUnique([], m, []);
    assert [] + m + [] == m;
  }

  // ---------------------------------------------------------------------
  // MapFlag

  /** `MapFlag`: the one-letter input code to the stored flag text; every
      other input fails, other letter case included. */
  function MapFlag(flag: string): (r: Result<string>)
    ensures r.Ok? <==> flag == "N" || flag == "Y"
    ensures r.Ok? ==> r.value == FlagNo || r.value == FlagYes
    ensures r.Ok? ==> flag == r.value[..1]
    ensures r.Err? ==> r.msg == "Invalid store_and_fwd_flag value: " + flag
  {
    match flag
    case "N" => Ok(FlagNo)
    case "Y" => Ok(FlagYes)
    case _ => Err("Invalid store_and_fwd_flag value: " + flag)
  }

  /** The input code of a stored flag: its first letter. MapFlag inverts it. */
  lemma MapFlagRoundTrip(v: string)
    requires v == FlagNo || v == FlagYes
    ensures MapFlag(v[..1]) == Ok(v)
  {
    if v == FlagNo { assert v[..1] == "N"; } else { assert v[..1] == "Y"; }
  }

  /** A flag field is accepted exactly when, once trimmed, it is one of the
      two codes: surrounding white space is allowed, anything else is not. */
  lemma MapFlagTrimmed(a: string, code: string, b: string)
    requires AllWhite(a) && AllWhite(b)
    requires code == "N" || code == "Y"
    ensures MapFlag(Trim(a + code + b)).Ok?
    ensures MapFlag(Trim(a + code + b)).value[..1] == code
  {
    TrimUnique(a, code, b);
  }

  /** Lower-case codes are rejected. */
  lemma MapFlagCaseSensitive(a: string, b: string)
    requires AllWhite(a) && AllWhite(b)
    ensures MapFlag(Trim(a + "n" + b)).Err?
    ensures MapFlag(Trim(a + "y" + b)).Err?
  {
    TrimUnique(a, "n", b);
    TrimUnique(a, "y", b);
  }

  // ---------------------------------------------------------------------
  // Row normalisation

  /** CsvHelper's read of a field by header name; an absent column throws. */
  function Field(row: RawRow, name: string): (r: Result<string>)
    ensures r.Ok? <==> name in row
    ensures r.Ok? ==> r.value == row[name]
  {
    if name in row then Ok(row[name]) else Err("Field with name '" + name + "' does not exist.")
  }

  predicate AllColumnsPresent(row: RawRow) {
    && PickupColumn in row && DropoffColumn in row && PassengerColumn in row
    && DistanceColumn in row && FlagColumn in row && PuColumn in row
    && DoColumn in row && FareColumn in row && TipColumn in row
  }

  /** Every field of the row converts. */
  predicate FieldsParse(row: RawRow, p: Parsers)
    requires AllColumnsPresent(row)
  {
    && p.dateTime(row[PickupColumn]).Ok?
    && p.dateTime(row[DropoffColumn]).Ok?
    && p.int32(row[PassengerColumn]).Ok?
    && p.decimal(row[DistanceColumn]).Ok?
    && MapFlag(Trim(row[FlagColumn])).Ok?
    && p.int32(row[PuColumn]).Ok?
    && p.int32(row[DoColumn]).Ok?
    && p.decimal(row[FareColumn]).Ok?
    && p.decimal(row[TipColumn]).Ok?
  }

  /** Each field of `rec` is what its column converts to. */
  predicate Agrees(row: RawRow, p: Parsers, rec: TripRecord)
    requires AllColumnsPresent(row)
  {
    && p.dateTime(row[PickupColumn]) == Ok(rec.pickup)
    && p.dateTime(row[DropoffColumn]) == Ok(rec.dropoff)
    && p.int32(row[PassengerColumn]) == Ok(rec.passengerCount)
    && p.decimal(row[DistanceColumn]) == Ok(rec.tripDistance)
    && MapFlag(Trim(row[FlagColumn])) == Ok(rec.storeAndFwd)
    && p.int32(row[PuColumn]) == Ok(rec.puLocation)
    && p.int32(row[DoColumn]) == Ok(rec.doLocation)
    && p.decimal(row[FareColumn]) == Ok(rec.fareAmount)
    && p.decimal(row[TipColumn]) == Ok(rec.tipAmount)
  }

  /** The body of the per-row `try` up to `dataTable.Rows.Add`: the fields are
      read and converted in column order, and the first failure is the row's
      failure. */
  function NormaliseRow(row: RawRow, p: Parsers): (r: Result<TripRecord>)
    ensures r.Ok? <==> AllColumnsPresent(row) && FieldsParse(row, p)
    ensures r.Ok? ==> AllColumnsPresent(row) && Agrees(row, p, r.value)
    ensures r.Ok? ==> r.value.storeAndFwd == FlagNo || r.value.storeAndFwd == FlagYes
  {
    var pickupText :- Field(row, PickupColumn);
    var pickup :- p.dateTime(pickupText);
    var dropoffText :- Field(row, DropoffColumn);
    var dropoff :- p.dateTime(dropoffText);
    var passengerText :- Field(row, PassengerColumn);
    var passengers :- p.int32(passengerText);
    var distanceText :- Field(row, DistanceColumn);
    var distance :- p.decimal(distanceText);
    var flagText :- Field(row, FlagColumn);
    var flag :- MapFlag(Trim(flagText));
    var puText :- Field(row, PuColumn);
    var pu :- p.int32(puText);
    var doText :- Field(row, DoColumn);
    var dropLocation :- p.int32(doText);
    var fareText :- Field(row, FareColumn);
    var fare :- p.decimal(fareText);
    var tipText :- Field(row, TipColumn);
    var tip :- p.decimal(tipText);
    Ok(TripRecord(pickup, dropoff, passengers, distance, flag, pu, dropLocation, fare, tip))
  }

  /** The conversions determine the record: two records that both agree with
      a row are equal. */
  lemma AgreesDetermines(row: RawRow, p: Parsers, rec: TripRecord, r: Result<TripRecord>)
    requires AllColumnsPresent(row) && Agrees(row, p, rec)
    requires r == NormaliseRow(row, p)
    ensures r == Ok(rec)
  {
    assert FieldsParse(row, p);
    assert Agrees(row, p, r.value);
  }

  /** Renderings of typed values as field text (the writer side of a file). */
  datatype Printers = Printers(
    dateTime: Instant -> string,
    int32: Int32 -> string,
    decimal: Decimal -> string)

  /** The conversions read back what the printers write. */
  ghost predicate Inverts(p: Parsers, w: Printers) {
    && (forall t: Instant :: p.dateTime(w.dateTime(t)) == Ok(t))
    && (forall n: Int32 :: p.int32(w.int32(n)) == Ok(n))
    && (forall d: Decimal :: p.decimal(w.decimal(d)) == Ok(d))
  }

  /** The input row that describes `rec`, with the flag as its one-letter code. */
  function RenderRow(rec: TripRecord, w: Printers): (row: RawRow)
    requires rec.storeAndFwd == FlagNo || rec.storeAndFwd == FlagYes
    ensures AllColumnsPresent(row)
    ensures row[PickupColumn] == w.dateTime(rec.pickup)
    ensures row[DropoffColumn] == w.dateTime(rec.dropoff)
    ensures row[PassengerColumn] == w.int32(rec.passengerCount)
    ensures row[DistanceColumn] == w.decimal(rec.tripDistance)
    ensures row[FlagColumn] == rec.storeAndFwd[..1]
    ensures row[PuColumn] == w.int32(rec.puLocation)
    ensures row[DoColumn] == w.int32(rec.doLocation)
    ensures row[FareColumn] == w.decimal(rec.fareAmount)
    ensures row[TipColumn] == w.decimal(rec.tipAmount)
  {
    map[
      PickupColumn := w.dateTime(rec.pickup),
      DropoffColumn := w.dateTime(rec.dropoff),
      PassengerColumn := w.int32(rec.passengerCount),
      DistanceColumn := w.decimal(rec.tripDistance),
      FlagColumn := rec.storeAndFwd[..1],
      PuColumn := w.int32(rec.puLocation),
      DoColumn := w.int32(rec.doLocation),
      FareColumn := w.decimal(rec.fareAmount),
      TipColumn := w.decimal(rec.tipAmount)]
  }

  /** Normalisation reads back every record whose fields the conversions can
      parse: rendering a record as an input row and normalising it gives the
      record again. */
  lemma NormaliseRoundTrip(rec: TripRecord, p: Parsers, w: Printers)
    requires Inverts(p, w)
    requires rec.storeAndFwd == FlagNo || rec.storeAndFwd == FlagYes
    ensures NormaliseRow(RenderRow(rec, w), p) == Ok(rec)
  {
    var row := RenderRow(rec, w);
    var code := rec.storeAndFwd[..1];
    MapFlagRoundTrip(rec.storeAndFwd);
    TrimUnique([], code, []);
    assert [] + code + [] == code;
    assert p.dateTime(row[PickupColumn]) == Ok(rec.pickup);
    assert p.dateTime(row[DropoffColumn]) == Ok(rec.dropoff);
    assert p.int32(row[PassengerColumn]) == Ok(rec.passengerCount);
    assert p.decimal(row[DistanceColumn]) == Ok(rec.tripDistance);
    assert MapFlag(Trim(row[FlagColumn])) == Ok(rec.storeAndFwd);
    assert p.int32(row[PuColumn]) == Ok(rec.puLocation);
    assert p.int32(row[DoColumn]) == Ok(rec.doLocation);
    assert p.decimal(row[FareColumn]) == Ok(rec.fareAmount);
    assert p.decimal(row[TipColumn]) == Ok(rec.tipAmount);
    assert Agrees(row, p, rec);
    AgreesDetermines(row, p, rec, NormaliseRow(row, p));
  }
}
