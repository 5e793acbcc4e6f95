/** The record store: the CSV row mapper (normalisation) and the global year extent. */
module Records {
  import opened Wrappers
  import opened Config
  import opened Strings

  /** One CSV row as the loader hands it to the row mapper. A column that is absent is
      `None`. The numeric coercions of the year and of the precinct text are not modelled:
      the row carries their results (`yearReceived`, `precinctNumber`). */
  datatype RawRow = RawRow(
    yearReceived: int,
    fadoType: Option<string>,
    boardDisposition: Option<string>,
    precinct: Option<string>,
    precinctNumber: int)

  /** A normalised allegation. */
  datatype Record = Record(year: int, fado: string, dispo: string, precinct: Option<int>)

  /** JavaScript truthiness of an optional string: present and non-empty. */
  predicate Truthy(s: Option<string>) {
    s.Some? && s.value != ""
  }

  /** The disposition rule: trim; a missing or blank value becomes "Unknown"; anything
      starting with "Substantiated" becomes exactly "Substantiated"; anything else stays
      trimmed. */
  function NormalizeDisposition(d: Option<string>): (r: string)
    ensures d.None? || AllWhitespace(d.value) ==> r == Unknown
    ensures d.Some? && !AllWhitespace(d.value) && StartsWith(Trim(d.value), Substantiated) ==> r == Substantiated
    ensures d.Some? && !AllWhitespace(d.value) && !StartsWith(Trim(d.value), Substantiated) ==> r == Trim(d.value)
    ensures r != [] && Trimmed(r)
  {
    var t := if d.Some? then TrimEmptyIffWhitespace(d.value); Trim(d.value) else "";
    var dispo := if t == "" then Unknown else t;
    if StartsWith(dispo, Substantiated) then Substantiated else dispo
  }

  /** The category rule: a missing or empty category becomes "Unknown"; any other value is
      kept as it is (the category is not trimmed). */
  function NormalizeFado(f: Option<string>): (r: string)
    ensures r != []
    ensures Truthy(f) ==> r == f.value
    ensures !Truthy(f) ==> r == Unknown
  {
    if Truthy(f) then f.value else Unknown
  }

  /** The row mapper of the loader. */
  function MapRow(row: RawRow): (r: Record)
    ensures r.year == row.yearReceived
    ensures r.fado == NormalizeFado(row.fadoType) && r.dispo == NormalizeDisposition(row.boardDisposition)
    ensures r.precinct.Some? <==> Truthy(row.precinct)
    ensures r.precinct.Some? ==> r.precinct.value == row.precinctNumber
  {
    Record(
      row.yearReceived,
      NormalizeFado(row.fadoType),
      NormalizeDisposition(row.boardDisposition),
      if Truthy(row.precinct) then Some(row.precinctNumber) else None)
  }

  /** Every label the disposition rule can produce is left alone by it. */
  lemma NormalizedDispositionIsFixed(r: string)
    requires r != [] && Trimmed(r)
    requires r == Substantiated || !StartsWith(r, Substantiated)
    ensures NormalizeDisposition(Some(r)) == r
  {
    TrimOfTrimmed(r);
    assert !AllWhitespace(r) by { assert !IsJsWhitespace(r[0]); }
    if r == Substantiated {
      assert StartsWith(Trim(r), Substantiated);
    }
  }

  /** Normalising a disposition twice gives the same label as normalising it once. */
  lemma NormalizeDispositionIdempotent(d: Option<string>)
    ensures NormalizeDisposition(Some(NormalizeDisposition(d))) == NormalizeDisposition(d)
  {
    var r := NormalizeDisposition(d);
    if r == Unknown {
      assert r[0] != Substantiated[0];
    }
    NormalizedDispositionIsFixed(r);
  }

  /** Normalising a category twice gives the same label as normalising it once. */
  lemma NormalizeFadoIdempotent(f: Option<string>)
    ensures NormalizeFado(Some(NormalizeFado(f))) == NormalizeFado(f)
  {
  }

  /** d3.extent over the years: `None` for an empty table, else the least and the greatest
      year, both of which occur. */
  function Extent(data: seq<Record>): (r: Option<(int, int)>)
    ensures r.None? <==> |data| == 0
    ensures r.Some? ==> r.value.0 <= r.value.1
    ensures r.Some? ==> forall i :: 0 <= i < |data| ==> r.value.0 <= data[i].year <= r.value.1
    ensures r.Some? ==> exists i :: 0 <= i < |data| && data[i].year == r.value.0
    ensures r.Some? ==> exists i :: 0 <= i < |data| && data[i].year == r.value.1
  {
    if |data| == 0 then None
    else
      var y := data[|data| - 1].year;
      var prefix := data[..|data| - 1];
      match Extent(prefix)
      case None => Some((y, y))
      case Some((lo, hi)) =>
        assert forall i :: 0 <= i < |prefix| ==> prefix[i] == data[i];
        Some((if y < lo then y else lo, if y > hi then y else hi))
  }
}
