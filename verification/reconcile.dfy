/**
 The scraper's driver loop: every data row goes through `FromRow`, skipped
 rows are dropped, a fatal row aborts the whole run, and every station is
 recorded in the station index (keyed by name, last write wins) and in the
 list of each of its lines (append only, in row order).
 */
module Reconcile {
  import opened Wrappers
  import opened Stations

  /** The two snapshots the run produces: stations by name, and for every
      line label the records of the stations on it. */
  datatype Index = Index(stations: map<string, Record>, lines: map<string, seq<Record>>)

  /** The line list of `line`, empty when the line has none yet. */
  function Lookup(lines: map<string, seq<Record>>, line: string): seq<Record> {
    if line in lines then lines[line] else []
  }

  /** `n` copies of `rec`. */
  function Repeat(rec: Record, n: nat): seq<Record> {
    seq(n, _ => rec)
  }

  lemma RepeatSplit(rec: Record, a: nat, b: nat)
    ensures Repeat(rec, a + b) == Repeat(rec, a) + Repeat(rec, b)
  {
  }

  /** How often `line` occurs among `labels`. */
  function Count(labels: seq<string>, line: string): nat {
    multiset(labels)[line]
  }

  /** The set of labels that occur in `labels`. */
  function LabelSet(labels: seq<string>): set<string> {
    set k | 0 <= k < |labels| :: labels[k]
  }

  lemma LabelSetCons(labels: seq<string>)
    requires |labels| > 0
    ensures LabelSet(labels) == {labels[0]} + LabelSet(labels[1..])
  {
    forall l | l in LabelSet(labels) ensures l in {labels[0]} + LabelSet(labels[1..]) {
      var k :| 0 <= k < |labels| && labels[k] == l;
      if k > 0 { assert labels[1..][k - 1] == l; }
    }
    forall l | l in LabelSet(labels[1..]) ensures l in LabelSet(labels) {
      var k :| 0 <= k < |labels[1..]| && labels[1..][k] == l;
      assert labels[k + 1] == l;
    }
  }

  lemma CountCons(labels: seq<string>, line: string)
    requires |labels| > 0
    ensures Count(labels, line) == (if labels[0] == line then 1 else 0) + Count(labels[1..], line)
  {
    assert labels == [labels[0]] + labels[1..];
    assert multiset(labels) == multiset([labels[0]]) + multiset(labels[1..]);
  }

  /** One step of the inner loop on a single line. */
  lemma AppendOneThenRest(lines: map<string, seq<Record>>, labels: seq<string>, rec: Record,
                          r: map<string, seq<Record>>, l: string)
    requires |labels| > 0
    requires var next := lines[labels[0] := Lookup(lines, labels[0]) + [rec]];
             l in r && r[l] == Lookup(next, l) + Repeat(rec, Count(labels[1..], l))
    ensures r[l] == Lookup(lines, l) + Repeat(rec, Count(labels, l))
  {
    CountCons(labels, l);
    if l == labels[0] {
      RepeatSplit(rec, 1, Count(labels[1..], l));
    }
  }

  /** The inner loop: for each label in order, the line list is created
      empty if absent and `rec` is appended to it. Every list ends up
      extended by one copy of `rec` per occurrence of its label, and no
      other list changes. */
  function AppendLines(lines: map<string, seq<Record>>, labels: seq<string>, rec: Record)
    : (r: map<string, seq<Record>>)
    ensures r.Keys == lines.Keys + LabelSet(labels)
    ensures forall l :: l in r ==> r[l] == Lookup(lines, l) + Repeat(rec, Count(labels, l))
    decreases |labels|
  {
    if |labels| == 0 then lines
    else
      var next := lines[labels[0] := Lookup(lines, labels[0]) + [rec]];
      var r := AppendLines(next, labels[1..], rec);
      AppendLinesCons(lines, labels, rec, r);
      r
  }

  /** The first label's append followed by the rest's is the whole
      loop's effect. */
  lemma AppendLinesCons(lines: map<string, seq<Record>>, labels: seq<string>, rec: Record,
                        r: map<string, seq<Record>>)
    requires |labels| > 0
    requires var next := lines[labels[0] := Lookup(lines, labels[0]) + [rec]];
             && r.Keys == next.Keys + LabelSet(labels[1..])
             && forall l :: l in r ==> r[l] == Lookup(next, l) + Repeat(rec, Count(labels[1..], l))
    ensures r.Keys == lines.Keys + LabelSet(labels)
    ensures forall l :: l in r ==> r[l] == Lookup(lines, l) + Repeat(rec, Count(labels, l))
  {
    LabelSetCons(labels);
    forall l | l in r
      ensures r[l] == Lookup(lines, l) + Repeat(rec, Count(labels, l))
    {
      AppendOneThenRest(lines, labels, rec, r, l);
    }
  }

  /** The loop body for one station (scripts/stations.py:85-89): its
      record replaces any earlier one under its name and is appended to the
      list of each of its labels. */
  function Aggregate(idx: Index, st: Station): (r: Index)
    ensures r.stations.Keys == idx.stations.Keys + {st.name}
    ensures r.stations[st.name] == ToRecord(st)
    ensures forall k :: k in idx.stations && k != st.name ==> r.stations[k] == idx.stations[k]
    ensures r.lines.Keys == idx.lines.Keys + LabelSet(st.lines)
    ensures forall l :: l in r.lines ==>
              r.lines[l] == Lookup(idx.lines, l) + Repeat(ToRecord(st), Count(st.lines, l))
  {
    Index(idx.stations[st.name := ToRecord(st)], AppendLines(idx.lines, st.lines, ToRecord(st)))
  }

  /** What the driver does with one row: `Stations.FromRow` against the
      registry. The loop below is written for any such step, so that its
      properties do not depend on how a row is read. */
  type RowStep = Row -> Outcome

  /** One iteration of the loop over the data rows. Once the run has
      failed it stays failed; otherwise a skipped row leaves the index as
      it was, a fatal row fails the run with its name and a station is
      recorded. */
  function Step(acc: Result<Index, string>, outcome: Outcome): Result<Index, string> {
    match acc
    case Failure(name) => Failure(name)
    case Success(idx) =>
      match outcome
      case Skip => Success(idx)
      case Fatal(name) => Failure(name)
      case Ok(st) => Success(Aggregate(idx, st))
  }

  /** The loop over the data rows, left to right, from an empty index. */
  function Fold(rows: seq<Row>, step: RowStep): Result<Index, string>
    decreases |rows|
  {
    if |rows| == 0 then Success(Index(map[], map[]))
    else Step(Fold(rows[..|rows| - 1], step), step(rows[|rows| - 1]))
  }

  lemma FoldSnoc(rows: seq<Row>, row: Row, step: RowStep)
    ensures Fold(rows + [row], step) == Step(Fold(rows, step), step(row))
  {
    assert (rows + [row])[..|rows|] == rows;
  }

  /** The rows of the table body without its first row, which is the
      header and is never processed. */
  function DataRows(bodyRows: seq<Row>): seq<Row> {
    if |bodyRows| == 0 then [] else bodyRows[1..]
  }

  /** The driver's step: each row is read against the registry. */
  function Reader(registry: seq<RegistryEntry>): RowStep {
    row => FromRow(row, registry)
  }

  /** The whole reconciliation run over the rows of the table body. */
  function Run(bodyRows: seq<Row>, registry: seq<RegistryEntry>): Result<Index, string> {
    Fold(DataRows(bodyRows), Reader(registry))
  }

  // Reference description of a run

  /** The stations of the rows that were not skipped, in row order. */
  function Kept(rows: seq<Row>, step: RowStep): seq<Station>
    decreases |rows|
  {
    if |rows| == 0 then []
    else
      Kept(rows[..|rows| - 1], step)
      + match step(rows[|rows| - 1])
        case Ok(st) => [st]
        case _ => []
  }

  lemma KeptSnoc(rows: seq<Row>, row: Row, step: RowStep)
    ensures Kept(rows + [row], step) == Kept(rows, step) + (if step(row).Ok? then [step(row).station] else [])
  {
    assert (rows + [row])[..|rows|] == rows;
  }

  /** The names of the given stations. */
  ghost function Names(sts: seq<Station>): set<string> {
    set i | 0 <= i < |sts| :: sts[i].name
  }

  /** Every line label of the given stations. */
  ghost function Labels(sts: seq<Station>): set<string> {
    set i, k | 0 <= i < |sts| && 0 <= k < |sts[i].lines| :: sts[i].lines[k]
  }

  /** The list a line should hold: for each station in order, one copy of
      its record per occurrence of `line` among its lines. */
  function Gathered(sts: seq<Station>, line: string): seq<Record>
    decreases |sts|
  {
    if |sts| == 0 then []
    else
      var st := sts[|sts| - 1];
      Gathered(sts[..|sts| - 1], line) + Repeat(ToRecord(st), Count(st.lines, line))
  }

  /** `rec` is the record of the last station named `name`. */
  ghost predicate LastWins(sts: seq<Station>, name: string, rec: Record) {
    exists i :: 0 <= i < |sts| && sts[i].name == name && rec == ToRecord(sts[i])
                && forall j :: i < j < |sts| ==> sts[j].name != name
  }

  /** The station index is what the stations `sts`, recorded in order,
      should produce: one key per name, holding the last record. */
  ghost predicate StationsDescribe(stations: map<string, Record>, sts: seq<Station>) {
    && stations.Keys == Names(sts)
    && forall k :: k in stations ==> LastWins(sts, k, stations[k])
  }

  /** The line index is what the stations `sts`, recorded in order, should
      produce: one key per label, holding the reference list. */
  ghost predicate LinesDescribe(lines: map<string, seq<Record>>, sts: seq<Station>) {
    && lines.Keys == Labels(sts)
    && forall l :: l in lines ==> lines[l] == Gathered(sts, l)
  }

  ghost predicate Describes(idx: Index, sts: seq<Station>) {
    StationsDescribe(idx.stations, sts) && LinesDescribe(idx.lines, sts)
  }

  /** Row `i` is the first fatal row. */
  ghost predicate FirstFatal(rows: seq<Row>, step: RowStep, i: int) {
    && 0 <= i < |rows|
    && step(rows[i]).Fatal?
    && forall j :: 0 <= j < i ==> !step(rows[j]).Fatal?
  }

  // Properties

  lemma NamesSnoc(sts: seq<Station>, st: Station)
    ensures Names(sts + [st]) == Names(sts) + {st.name}
  {
    var s := sts + [st];
    forall n | n in Names(s) ensures n in Names(sts) + {st.name} {
      var i :| 0 <= i < |s| && s[i].name == n;
      if i < |sts| { assert sts[i].name == n; }
    }
    forall n | n in Names(sts) ensures n in Names(s) {
      var i :| 0 <= i < |sts| && sts[i].name == n;
      assert s[i].name == n;
    }
    assert s[|sts|].name == st.name;
  }

  lemma LabelsSnoc(sts: seq<Station>, st: Station)
    ensures Labels(sts + [st]) == Labels(sts) + LabelSet(st.lines)
  {
    var s := sts + [st];
    forall l | l in Labels(s) ensures l in Labels(sts) + LabelSet(st.lines) {
      var i, k :| 0 <= i < |s| && 0 <= k < |s[i].lines| && s[i].lines[k] == l;
      if i < |sts| { assert sts[i].lines[k] == l; }
    }
    forall l | l in Labels(sts) ensures l in Labels(s) {
      var i, k :| 0 <= i < |sts| && 0 <= k < |sts[i].lines| && sts[i].lines[k] == l;
      assert s[i].lines[k] == l;
    }
    forall l | l in LabelSet(st.lines) ensures l in Labels(s) {
      var k :| 0 <= k < |st.lines| && st.lines[k] == l;
      assert s[|sts|].lines[k] == l;
    }
  }

  lemma CountPositiveIff(labels: seq<string>, line: string)
    ensures Count(labels, line) > 0 <==> line in LabelSet(labels)
  {
    if line in LabelSet(labels) {
      var k :| 0 <= k < |labels| && labels[k] == line;
      assert labels[k] in multiset(labels);
    }
  }

  /** A line's reference list is empty exactly when no station has it. */
  lemma {:induction false} GatheredEmptyIff(sts: seq<Station>, line: string)
    ensures Gathered(sts, line) == [] <==> line !in Labels(sts)
    decreases |sts|
  {
    if |sts| > 0 {
      var pre, st := sts[..|sts| - 1], sts[|sts| - 1];
      assert sts == pre + [st];
      GatheredEmptyIff(pre, line);
      LabelsSnoc(pre, st);
      CountPositiveIff(st.lines, line);
    }
  }

  /** Recording one more station keeps the station index last-write-wins. */
  lemma AggregateStations(stations: map<string, Record>, sts: seq<Station>, st: Station)
    requires StationsDescribe(stations, sts)
    ensures StationsDescribe(stations[st.name := ToRecord(st)], sts + [st])
  {
    var r, s := stations[st.name := ToRecord(st)], sts + [st];
    NamesSnoc(sts, st);
    forall k | k in r ensures LastWins(s, k, r[k]) {
      if k == st.name {
        assert s[|sts|].name == k;
      } else {
        var i :| 0 <= i < |sts| && sts[i].name == k && stations[k] == ToRecord(sts[i])
                 && forall j :: i < j < |sts| ==> sts[j].name != k;
        assert s[i] == sts[i];
        forall j | i < j < |s| ensures s[j].name != k {
          if j < |sts| { assert s[j] == sts[j]; }
        }
      }
    }
  }

  /** Recording one more station appends it to the lists of its labels. */
  lemma AggregateLines(lines: map<string, seq<Record>>, sts: seq<Station>, st: Station)
    requires LinesDescribe(lines, sts)
    ensures LinesDescribe(AppendLines(lines, st.lines, ToRecord(st)), sts + [st])
  {
    var r, s := AppendLines(lines, st.lines, ToRecord(st)), sts + [st];
    LabelsSnoc(sts, st);
    assert s[..|sts|] == sts;
    forall l | l in r ensures r[l] == Gathered(s, l) {
      if l !in lines {
        GatheredEmptyIff(sts, l);
      }
    }
  }

  /** Recording one more station keeps the index in line with the reference
      description of the stations recorded so far. */
  lemma AggregateDescribes(idx: Index, sts: seq<Station>, st: Station)
    requires Describes(idx, sts)
    ensures Describes(Aggregate(idx, st), sts + [st])
  {
    AggregateStations(idx.stations, sts, st);
    AggregateLines(idx.lines, sts, st);
  }

  /** A successful fold produces exactly the reference index of the kept
      stations: station keys are their names with the last record winning,
      line keys are their labels, and each line lists its stations in row
      order. */
  lemma {:induction false} FoldDescribes(rows: seq<Row>, step: RowStep)
    ensures Fold(rows, step).Success? ==> Describes(Fold(rows, step).value, Kept(rows, step))
    decreases |rows|
  {
    if |rows| > 0 {
      var pre, row := rows[..|rows| - 1], rows[|rows| - 1];
      FoldDescribes(pre, step);
      assert rows == pre + [row];
      FoldDescribesSnoc(pre, row, step);
    }
  }

  lemma FoldDescribesSnoc(pre: seq<Row>, row: Row, step: RowStep)
    requires Fold(pre, step).Success? ==> Describes(Fold(pre, step).value, Kept(pre, step))
    ensures Fold(pre + [row], step).Success? ==>
              Describes(Fold(pre + [row], step).value, Kept(pre + [row], step))
  {
    FoldSnoc(pre, row, step);
    KeptSnoc(pre, row, step);
    if Fold(pre, step).Success? {
      var idx, sts := Fold(pre, step).value, Kept(pre, step);
      match step(row)
      case Skip =>
        assert Kept(pre + [row], step) == sts;
      case Fatal(_) =>
      case Ok(st) =>
        AggregateDescribes(idx, sts, st);
        assert Fold(pre + [row], step) == Success(Aggregate(idx, st));
        assert Kept(pre + [row], step) == sts + [st];
    }
  }

  /** The run fails exactly when some row is fatal, and then with the name
      of the first fatal row. */
  lemma {:induction false} FoldFailsIff(rows: seq<Row>, step: RowStep)
    ensures Fold(rows, step).Failure? <==> exists i :: 0 <= i < |rows| && step(rows[i]).Fatal?
    ensures Fold(rows, step).Failure? ==>
              exists i :: FirstFatal(rows, step, i) && Fold(rows, step).error == step(rows[i]).name
    decreases |rows|
  {
    if |rows| > 0 {
      var pre, row := rows[..|rows| - 1], rows[|rows| - 1];
      FoldFailsIff(pre, step);
      assert rows == pre + [row];
      FoldFailsSnoc(pre, row, step);
    }
  }

  lemma FoldFailsSnoc(pre: seq<Row>, row: Row, step: RowStep)
    requires Fold(pre, step).Failure? <==> exists i :: 0 <= i < |pre| && step(pre[i]).Fatal?
    requires Fold(pre, step).Failure? ==>
               exists i :: FirstFatal(pre, step, i) && Fold(pre, step).error == step(pre[i]).name
    ensures var s := pre + [row];
            Fold(s, step).Failure? <==> exists i :: 0 <= i < |s| && step(s[i]).Fatal?
    ensures var s := pre + [row];
            Fold(s, step).Failure? ==>
              exists i :: FirstFatal(s, step, i) && Fold(s, step).error == step(s[i]).name
  {
    var s := pre + [row];
    FoldSnoc(pre, row, step);
    assert forall i :: 0 <= i < |pre| ==> s[i] == pre[i];
    assert s[|pre|] == row;
    if Fold(pre, step).Failure? {
      var i :| FirstFatal(pre, step, i) && Fold(pre, step).error == step(pre[i]).name;
      assert FirstFatal(s, step, i);
    } else if step(row).Fatal? {
      assert FirstFatal(s, step, |pre|);
    } else {
      assert forall i :: 0 <= i < |s| ==> !step(s[i]).Fatal?;
    }
  }

  /** A skipped row, wherever it stands, changes nothing in the run. */
  lemma {:induction false} SkippedRowInvisible(a: seq<Row>, row: Row, b: seq<Row>, step: RowStep)
    requires step(row).Skip?
    ensures Fold(a + [row] + b, step) == Fold(a + b, step)
    decreases |b|
  {
    if |b| == 0 {
      assert a + [row] + b == a + [row];
      assert a + b == a;
      FoldSnoc(a, row, step);
    } else {
      var bp, last := b[..|b| - 1], b[|b| - 1];
      SkippedRowInvisible(a, row, bp, step);
      assert a + [row] + b == (a + [row] + bp) + [last];
      assert a + b == (a + bp) + [last];
      FoldSnoc(a + [row] + bp, last, step);
      FoldSnoc(a + bp, last, step);
    }
  }

  /** A fatal row aborts the run: whatever rows follow it, the result is the
      fatal condition with that row's name. */
  lemma {:induction false} FatalRowAborts(a: seq<Row>, row: Row, b: seq<Row>, step: RowStep)
    requires step(row).Fatal? && Fold(a, step).Success?
    ensures Fold(a + [row] + b, step) == Failure(step(row).name)
    decreases |b|
  {
    if |b| == 0 {
      assert a + [row] + b == a + [row];
      FoldSnoc(a, row, step);
    } else {
      var bp, last := b[..|b| - 1], b[|b| - 1];
      FatalRowAborts(a, row, bp, step);
      assert a + [row] + b == (a + [row] + bp) + [last];
      FoldSnoc(a + [row] + bp, last, step);
    }
  }

  /** Every line list of a successful run is non-empty. */
  lemma {:induction false} LinesNeverEmpty(rows: seq<Row>, step: RowStep)
    requires Fold(rows, step).Success?
    ensures forall l :: l in Fold(rows, step).value.lines ==> |Fold(rows, step).value.lines[l]| > 0
  {
    FoldDescribes(rows, step);
    forall l | l in Fold(rows, step).value.lines
      ensures |Fold(rows, step).value.lines[l]| > 0
    {
      GatheredEmptyIff(Kept(rows, step), l);
    }
  }

  /** The header row is never looked at, whatever it holds. */
  lemma HeaderIgnored(header: Row, other: Row, rest: seq<Row>, registry: seq<RegistryEntry>)
    ensures Run([header] + rest, registry) == Run([other] + rest, registry)
  {
    assert ([header] + rest)[1..] == rest;
    assert ([other] + rest)[1..] == rest;
  }

  /** A station without line links is still recorded under its name but
      creates no line list. */
  lemma StationWithoutLines(idx: Index, st: Station)
    requires st.lines == []
    ensures Aggregate(idx, st).lines == idx.lines
    ensures st.name in Aggregate(idx, st).stations
  {
    assert LabelSet([]) == {};
  }

  // The run with the scraper's own row step

  /** The station `st` carries the name and coordinates of a registry
      entry. */
  ghost predicate FromRegistry(st: Station, registry: seq<RegistryEntry>) {
    exists j :: 0 <= j < |registry| && registry[j].stationName == st.name
      && registry[j].lat == st.lat && registry[j].lon == st.lon
  }

  /** Every station a row step yields comes from the registry. */
  ghost predicate StepFromRegistry(step: RowStep, registry: seq<RegistryEntry>) {
    forall row :: step(row).Ok? ==> FromRegistry(step(row).station, registry)
  }

  /** The scraper's own step takes every station from the registry. */
  lemma ReaderFromRegistry(registry: seq<RegistryEntry>)
    ensures StepFromRegistry(Reader(registry), registry)
  {
    forall row | Reader(registry)(row).Ok?
      ensures FromRegistry(Reader(registry)(row).station, registry)
    {
      OkStationFromRegistry(row, registry);
    }
  }

  /** Every station kept by the run comes from the registry. */
  lemma {:induction false} KeptFromRegistry(rows: seq<Row>, step: RowStep, registry: seq<RegistryEntry>)
    requires StepFromRegistry(step, registry)
    ensures forall st :: st in Kept(rows, step) ==> FromRegistry(st, registry)
    decreases |rows|
  {
    if |rows| > 0 {
      var pre, row := rows[..|rows| - 1], rows[|rows| - 1];
      KeptFromRegistry(pre, step, registry);
      assert rows == pre + [row];
      KeptSnoc(pre, row, step);
    }
  }

  /** The record `rec` holds the name and coordinates of entry `e`. */
  predicate RecordOf(rec: Record, e: RegistryEntry) {
    && "name" in rec && rec["name"] == Str(e.stationName)
    && "lat" in rec && rec["lat"] == Num(e.lat)
    && "lon" in rec && rec["lon"] == Num(e.lon)
  }

  /** Every key of the station index of a successful run is a registry
      name, and the record under it carries that entry's name and
      coordinates, never text from the scraped row. */
  lemma StationsFromRegistry(rows: seq<Row>, registry: seq<RegistryEntry>, idx: Index)
    requires Fold(rows, Reader(registry)) == Success(idx)
    ensures forall k :: k in idx.stations ==>
              exists j :: 0 <= j < |registry| && registry[j].stationName == k
                && RecordOf(idx.stations[k], registry[j])
  {
    ReaderFromRegistry(registry);
    IndexFromRegistry(rows, Reader(registry), registry, idx);
  }

  lemma IndexFromRegistry(rows: seq<Row>, step: RowStep, registry: seq<RegistryEntry>, idx: Index)
    requires StepFromRegistry(step, registry)
    requires Fold(rows, step) == Success(idx)
    ensures forall k :: k in idx.stations ==>
              exists j :: 0 <= j < |registry| && registry[j].stationName == k
                && RecordOf(idx.stations[k], registry[j])
  {
    var sts := Kept(rows, step);
    FoldDescribes(rows, step);
    KeptFromRegistry(rows, step, registry);
    forall k | k in idx.stations
      ensures exists j :: 0 <= j < |registry| && registry[j].stationName == k
                && RecordOf(idx.stations[k], registry[j])
    {
      LastWinsFromRegistry(sts, k, idx.stations[k], registry);
    }
  }

  lemma LastWinsFromRegistry(sts: seq<Station>, k: string, rec: Record, registry: seq<RegistryEntry>)
    requires LastWins(sts, k, rec)
    requires forall st :: st in sts ==> FromRegistry(st, registry)
    ensures exists j :: 0 <= j < |registry| && registry[j].stationName == k && RecordOf(rec, registry[j])
  {
    var i :| 0 <= i < |sts| && sts[i].name == k && rec == ToRecord(sts[i])
             && forall j :: i < j < |sts| ==> sts[j].name != k;
    assert sts[i] in sts;
    var j :| 0 <= j < |registry| && registry[j].stationName == sts[i].name
              && registry[j].lat == sts[i].lat && registry[j].lon == sts[i].lon;
    assert RecordOf(rec, registry[j]);
  }

  /** The run aborts exactly when some data row passes the exclusion and
      title checks and matches no registry entry; it then reports the
      cleaned name of the first such row. */
  lemma RunAbortsIff(bodyRows: seq<Row>, registry: seq<RegistryEntry>)
    ensures Run(bodyRows, registry).Failure? <==>
              exists i :: 0 <= i < |DataRows(bodyRows)| && FromRow(DataRows(bodyRows)[i], registry).Fatal?
    ensures Run(bodyRows, registry).Failure? ==>
              Unmatched(registry, Run(bodyRows, registry).error)
  {
    var rows, step := DataRows(bodyRows), Reader(registry);
    FoldFailsIff(rows, step);
    if Run(bodyRows, registry).Failure? {
      var i :| FirstFatal(rows, step, i) && Fold(rows, step).error == step(rows[i]).name;
      assert FromRow(rows[i], registry).Fatal?;
    }
  }

  /** A row naming the excluded station contributes nothing, wherever it
      stands and whatever the registry holds. */
  lemma ExcludedRowInvisible(a: seq<Row>, row: Row, b: seq<Row>, registry: seq<RegistryEntry>)
    requires Excluded(CleanName(row.cellText))
    ensures Fold(a + [row] + b, Reader(registry)) == Fold(a + b, Reader(registry))
  {
    ExcludedRowSkipped(row, registry);
    SkippedRowInvisible(a, row, b, Reader(registry));
  }

  /** Two stations on lines A and C, then A alone: line A lists both in
      order, line C only the first, and each station is listed once per
      line. */
  lemma GroupingExample(s1: Station, s2: Station)
    requires s1.lines == ["A", "C"] && s2.lines == ["A"] && s1.name != s2.name
    ensures var idx := Aggregate(Aggregate(Index(map[], map[]), s1), s2);
            && idx.lines.Keys == {"A", "C"}
            && idx.lines["A"] == [ToRecord(s1), ToRecord(s2)]
            && idx.lines["C"] == [ToRecord(s1)]
            && idx.stations.Keys == {s1.name, s2.name}
  {
    var i1 := Aggregate(Index(map[], map[]), s1);
    assert LabelSet(s1.lines) == {"A", "C"} by {
      assert s1.lines[0] == "A" && s1.lines[1] == "C";
    }
    assert LabelSet(s2.lines) == {"A"} by {
      assert s2.lines[0] == "A";
    }
    assert Count(s1.lines, "A") == 1 && Count(s1.lines, "C") == 1 && Count(s2.lines, "A") == 1;
    assert i1.lines["A"] == [ToRecord(s1)];
  }
}
