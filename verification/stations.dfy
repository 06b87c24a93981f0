/**
 The per-row step of the station scraper: one table row of the station list
 becomes a skipped row, a fatal "not found" condition or a `Station` whose
 name and coordinates come from the authoritative station registry.
 */
module Stations {
  import opened Wrappers
  import opened Text

  /** A latitude or longitude as the registry gives it. The float parse the
      scraper applies is not modelled; the value is only carried along. */
  datatype Coord = Coord(text: string)

  /** One entry of the station registry. */
  datatype RegistryEntry = RegistryEntry(stationName: string, lat: Coord, lon: Coord)

  /** One scraped table row: the text of its first cell and, for every link
      in its third cell, that link's `title` attribute (`None` when the link
      has none). */
  datatype Row = Row(cellText: string, linkTitles: seq<Option<string>>)

  /** A reconciled station. */
  datatype Station = Station(name: string, lines: seq<string>, lat: Coord, lon: Coord)

  /** A JSON value of the serialised station record. */
  datatype Value = Str(s: string) | StrList(items: seq<string>) | Num(coord: Coord)

  /** The dictionary form of a station, as written to the snapshots. */
  type Record = map<string, Value>

  /** `Station.dict`: the four fields under their JSON keys. */
  function ToRecord(st: Station): (r: Record)
    ensures r.Keys == {"name", "lines", "lat", "lon"}
  {
    map["name" := Str(st.name), "lines" := StrList(st.lines),
        "lat" := Num(st.lat), "lon" := Num(st.lon)]
  }

  /** Reads a station back from its dictionary form. */
  function FromRecord(rec: Record): Option<Station> {
    if && "name" in rec && rec["name"].Str?
       && "lines" in rec && rec["lines"].StrList?
       && "lat" in rec && rec["lat"].Num?
       && "lon" in rec && rec["lon"].Num?
    then Some(Station(rec["name"].s, rec["lines"].items, rec["lat"].coord, rec["lon"].coord))
    else None
  }

  /** The dictionary form loses nothing: the station can be read back. */
  lemma RecordRoundTrip(st: Station)
    ensures FromRecord(ToRecord(st)) == Some(st)
  {
  }

  /** Hence two different stations never serialise to the same record. */
  lemma ToRecordInjective(a: Station, b: Station)
    ensures ToRecord(a) == ToRecord(b) ==> a == b
  {
    RecordRoundTrip(a);
    RecordRoundTrip(b);
  }

  /** Start of a footnote annotation in a station's display name. */
  const FootnoteMarker: char := '['

  /** The one station the scraper refuses to use. */
  const Exclusion: string := "H\U{F8}velte"

  /** The prefix every line link's title carries before the line's label. */
  const LinePrefix: string := "Linje "

  /** The display name of a row: the stripped cell text, cut before its
      first footnote marker. The cut is not stripped again, so whitespace
      in front of the marker stays. */
  function CleanName(cellText: string): (r: string)
    ensures FootnoteMarker !in r
    ensures StartsWith(Strip(cellText), r)
    ensures |r| < |Strip(cellText)| ==> Strip(cellText)[|r|] == FootnoteMarker
    ensures FootnoteMarker !in Strip(cellText) ==> r == Strip(cellText)
  {
    var name := Strip(cellText);
    match IndexOf(name, FootnoteMarker)
    case None => name
    case Some(i) => name[..i]
  }

  /** A name the scraper skips. */
  predicate Excluded(name: string) {
    Contains(name, Exclusion)
  }

  /** The label of a line link: its title with every `LinePrefix` removed. */
  function LineLabel(title: string): string {
    RemoveAll(title, LinePrefix)
  }

  lemma LinePrefixBorderFree()
    ensures BorderFree(LinePrefix)
  {
    forall k | 0 < k < |LinePrefix|
      ensures LinePrefix[..k] != LinePrefix[|LinePrefix| - k..]
    {
      assert LinePrefix[..k][0] == 'L';
      assert LinePrefix[|LinePrefix| - k..][k - 1] == ' ';
      assert LinePrefix[..k][k - 1] != ' ';
    }
  }

  /** What a label is: when the title is some pieces separated by the line
      prefix, none of which contains the prefix, the label is the pieces
      run together. A title "Linje A" has the label "A". */
  lemma LineLabelOfJoin(pieces: seq<string>)
    requires forall k :: 0 <= k < |pieces| ==> !Contains(pieces[k], LinePrefix)
    ensures LineLabel(Join(pieces, LinePrefix)) == Concat(pieces)
  {
    LinePrefixBorderFree();
    RemoveAllJoin(pieces, LinePrefix);
  }

  /** A title without the prefix is its own label. */
  lemma LineLabelWithoutPrefix(title: string)
    requires !Contains(title, LinePrefix)
    ensures LineLabel(title) == title
  {
    RemoveAllAbsent(title, LinePrefix);
  }

  /** Some link of the row has no `title` attribute. */
  predicate MissingTitle(links: seq<Option<string>>) {
    exists k :: 0 <= k < |links| && links[k].None?
  }

  /** The labels of a row's links, one per link and in link order; `None`
      when a link has no title, where the scraper raises `KeyError`. */
  function LineLabels(links: seq<Option<string>>): (r: Option<seq<string>>)
    ensures r.None? <==> MissingTitle(links)
    ensures r.Some? ==> |r.value| == |links|
    ensures r.Some? ==> forall k :: 0 <= k < |links| ==>
              links[k].Some? && r.value[k] == LineLabel(links[k].value)
    decreases |links|
  {
    if |links| == 0 then Some([])
    else match links[0]
      case None => None
      case Some(title) =>
        match LineLabels(links[1..])
        case None => None
        case Some(rest) => Some([LineLabel(title)] + rest)
  }

  /** Entry `i` is the first registry entry whose name contains `name`. */
  predicate IsFirstMatch(registry: seq<RegistryEntry>, name: string, i: int) {
    && 0 <= i < |registry|
    && Contains(registry[i].stationName, name)
    && forall j :: 0 <= j < i ==> !Contains(registry[j].stationName, name)
  }

  /** No registry entry's name contains `name`. */
  predicate Unmatched(registry: seq<RegistryEntry>, name: string) {
    forall j :: 0 <= j < |registry| ==> !Contains(registry[j].stationName, name)
  }

  /** Scans the registry in order from `from` for an entry whose name
      contains `name`. */
  function FindFrom(registry: seq<RegistryEntry>, name: string, from: nat): (r: Option<nat>)
    requires from <= |registry|
    ensures r.Some? ==> from <= r.value < |registry|
                        && Contains(registry[r.value].stationName, name)
                        && forall j :: from <= j < r.value ==> !Contains(registry[j].stationName, name)
    ensures r.None? ==> forall j :: from <= j < |registry| ==> !Contains(registry[j].stationName, name)
    decreases |registry| - from
  {
    if from == |registry| then None
    else if Contains(registry[from].stationName, name) then Some(from)
    else FindFrom(registry, name, from + 1)
  }

  /** The registry lookup: the first entry, in registry order, whose name
      contains `name`, or `None` when there is none. */
  function FindFirst(registry: seq<RegistryEntry>, name: string): (r: Option<nat>)
    ensures r.Some? ==> IsFirstMatch(registry, name, r.value)
    ensures r.None? <==> Unmatched(registry, name)
  {
    FindFrom(registry, name, 0)
  }

  /** The three outcomes of one row. */
  datatype Outcome = Skip | Fatal(name: string) | Ok(station: Station)

  /** `Station.from_row` together with the driver's `except KeyError`: the
      name check comes first, then the link titles, then the registry. */
  function FromRow(row: Row, registry: seq<RegistryEntry>): (r: Outcome)
    ensures r.Skip? <==> Excluded(CleanName(row.cellText)) || MissingTitle(row.linkTitles)
    ensures r.Fatal? <==> !r.Skip? && Unmatched(registry, CleanName(row.cellText))
    ensures r.Fatal? ==> r.name == CleanName(row.cellText)
    ensures r.Ok? ==> LineLabels(row.linkTitles) == Some(r.station.lines)
    ensures r.Ok? ==> exists i :: IsFirstMatch(registry, CleanName(row.cellText), i)
                        && r.station.name == registry[i].stationName
                        && r.station.lat == registry[i].lat
                        && r.station.lon == registry[i].lon
  {
    var name := CleanName(row.cellText);
    if Excluded(name) then Skip
    else match LineLabels(row.linkTitles)
      case None => Skip
      case Some(labels) =>
        match FindFirst(registry, name)
        case None => Fatal(name)
        case Some(i) =>
          var e := registry[i];
          Ok(Station(e.stationName, labels, e.lat, e.lon))
  }

  /** The excluded name wins over everything after it: such a row is skipped
      whatever its links and whatever the registry holds. */
  lemma ExcludedRowSkipped(row: Row, registry: seq<RegistryEntry>)
    requires Contains(CleanName(row.cellText), Exclusion)
    ensures FromRow(row, registry) == Skip
  {
  }

  /** The empty name occurs in every registry name, so a row whose name is
      empty resolves to the first registry entry. */
  lemma EmptyNameResolvesToFirst(row: Row, registry: seq<RegistryEntry>)
    requires CleanName(row.cellText) == [] && |registry| > 0
    requires !MissingTitle(row.linkTitles)
    ensures FromRow(row, registry).Ok?
    ensures FromRow(row, registry).station.name == registry[0].stationName
    ensures FromRow(row, registry).station.lat == registry[0].lat
    ensures FromRow(row, registry).station.lon == registry[0].lon
  {
    EmptyOccursEverywhere(registry[0].stationName);
    assert !Excluded([]) by {
      forall i | 0 <= i <= 0 ensures !StartsWith([][i..], Exclusion) { }
    }
  }

  /** A reconciled station is always a registry entry's name and position,
      never the scraped text. */
  lemma OkStationFromRegistry(row: Row, registry: seq<RegistryEntry>)
    requires FromRow(row, registry).Ok?
    ensures exists j :: 0 <= j < |registry|
              && registry[j].stationName == FromRow(row, registry).station.name
              && registry[j].lat == FromRow(row, registry).station.lat
              && registry[j].lon == FromRow(row, registry).station.lon
  {
  }

  /** The footnote cut is not followed by another strip: the space in front
      of the marker stays part of the name. */
  lemma FootnoteKeepsSpace()
    ensures CleanName("A [1]") == "A "
  {
    var s := "A [1]";
    assert !IsSpace(s[0]) && !IsSpace(s[4]);
    assert SkipSpaces(s, 0) == 0;
    assert SkipSpacesBack(s, 0, 5) == 5;
    assert Strip(s) == s[0..5] == s;
    assert IndexOf(s[2..], '[') == Some(0);
    assert IndexOf(s[1..], '[') == Some(1);
    assert IndexOf(s, '[') == Some(2);
  }

  /** The title "Linje A" labels line "A". */
  lemma LinjeA()
    ensures LineLabel("Linje A") == "A"
  {
    assert "Linje A" == Join(["", "A"], LinePrefix);
    assert !Contains("", LinePrefix);
    assert !Contains("A", LinePrefix);
    LineLabelOfJoin(["", "A"]);
  }
}
