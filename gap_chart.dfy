/**
 * Data preparation of the gap chart hook (renderChart in
 * assets/js/hooks/gap_chart.js): a map from lap number to the lap's gap records
 * and the list of driver ids become the chart's lap labels and one dataset per
 * driver holding that driver's gap on every lap, or null where the lap has none.
 * Gap values are carried through untouched, so they are a type parameter.
 */
module GapChart {
  import opened Wrappers
  import opened Decimal
  import Palette
  import DriverLabel

  /** One `{driver_id, gap}` entry of a lap. */
  datatype GapRecord<G> = GapRecord(driverId: string, gap: G)

  /** The parsed `data-gaps` attribute: lap number to that lap's records. */
  type GapData<G> = map<int, seq<GapRecord<G>>>

  datatype Dataset<G> = Dataset(legend: string, data: seq<Option<G>>, borderColor: string, backgroundColor: string)

  /** What is handed to the chart: x-axis labels and the datasets. */
  datatype ChartData<G> = ChartData(labels: seq<string>, datasets: seq<Dataset<G>>)

  /** A missing (or empty) `data-gaps` attribute reads as "{}". */
  function GapsOf<G>(gaps: Option<GapData<G>>): GapData<G> {
    gaps.GetOr(map[])
  }

  /** A missing (or empty) `data-drivers` attribute reads as "[]". */
  function DriversOf(drivers: Option<seq<string>>): seq<string> {
    drivers.GetOr([])
  }

  predicate StrictlyIncreasing(s: seq<int>) {
    forall i, j :: 0 <= i < j < |s| ==> s[i] < s[j]
  }

  lemma {:induction false} HasMinimum(s: set<int>)
    requires s != {}
    ensures exists m :: m in s && forall x :: x in s ==> m <= x
  {
    if forall z :: z !in s {
      assert false;
    }
    var y :| y in s;
    var rest := s - {y};
    if rest == {} {
      assert s == {y};
    } else {
      HasMinimum(rest);
      var m :| m in rest && forall x :: x in rest ==> m <= x;
      var least := if y < m then y else m;
      forall x | x in s
        ensures least <= x
      {
        if x != y {
          assert x in rest;
        }
      }
      assert least in s;
    }
  }

  function Minimum(s: set<int>): (m: int)
    requires s != {}
    ensures m in s && forall x :: x in s ==> m <= x
  {
    HasMinimum(s);
    var m :| m in s && forall x :: x in s ==> m <= x;
    m
  }

  /** The elements of a finite set of lap numbers in ascending order. */
  function SortedLaps(laps: set<int>): (r: seq<int>)
    ensures StrictlyIncreasing(r)
    ensures forall x :: x in r <==> x in laps
    ensures |r| == |laps|
    decreases laps
  {
    if laps == {} then []
    else
      var m := Minimum(laps);
      [m] + SortedLaps(laps - {m})
  }

  /** `Object.keys(gapData).map(Number).sort((a, b) => a - b)`. */
  function LapNumbers<G>(gapData: GapData<G>): (laps: seq<int>)
    ensures StrictlyIncreasing(laps)
    ensures forall lap :: lap in laps <==> lap in gapData
    ensures |laps| == |gapData|
  {
    SortedLaps(gapData.Keys)
  }

  /** Record k is the first of the lap whose driver id is driverId. */
  predicate IsFirstMatch<G>(lapData: seq<GapRecord<G>>, driverId: string, k: nat) {
    k < |lapData| && lapData[k].driverId == driverId
    && forall j :: 0 <= j < k ==> lapData[j].driverId != driverId
  }

  /** The position of the record that `lapData.find(d => d.driver_id === driverId)` returns, as an option. */
  function FindIndex<G>(lapData: seq<GapRecord<G>>, driverId: string): (r: Option<nat>)
    ensures r.Some? ==> IsFirstMatch(lapData, driverId, r.value)
    ensures r.None? <==> forall j :: 0 <= j < |lapData| ==> lapData[j].driverId != driverId
  {
    if lapData == [] then None
    else if lapData[0].driverId == driverId then Some(0)
    else
      match FindIndex(lapData[1..], driverId)
      case None => None
      case Some(k) => Some(k + 1)
  }

  /** The gap of the driver's first record in the lap, or null when the lap has none for that driver. */
  function FindGap<G>(lapData: seq<GapRecord<G>>, driverId: string): (r: Option<G>)
    ensures r.None? <==> forall j :: 0 <= j < |lapData| ==> lapData[j].driverId != driverId
    ensures r.Some? ==> exists k: nat :: IsFirstMatch(lapData, driverId, k) && r.value == lapData[k].gap
  {
    match FindIndex(lapData, driverId)
    case None => None
    case Some(k) => Some(lapData[k].gap)
  }

  /** One driver's gap on each of the given laps. */
  function DriverSeries<G>(gapData: GapData<G>, laps: seq<int>, driverId: string): (data: seq<Option<G>>)
    requires forall j :: 0 <= j < |laps| ==> laps[j] in gapData
  {
    seq(|laps|, j requires 0 <= j < |laps| => FindGap(gapData[laps[j]], driverId))
  }

  /** The x-axis label `Lap ${lap}`. */
  function LapLabel(lap: int): string {
    "Lap " + IntToString(lap)
  }

  /** Different laps get different labels, so the sorted laps give pairwise distinct labels. */
  lemma LapLabelInjective(a: int, b: int)
    ensures LapLabel(a) == LapLabel(b) <==> a == b
  {
    if LapLabel(a) == LapLabel(b) {
      assert LapLabel(a)[4..] == IntToString(a);
      assert LapLabel(b)[4..] == IntToString(b);
      IntToStringInjective(a, b);
    }
  }

  /** `lapNumbers.map(lap => `Lap ${lap}`)`. */
  function LapLabels(laps: seq<int>): seq<string> {
    seq(|laps|, j requires 0 <= j < |laps| => LapLabel(laps[j]))
  }

  /** Ascending laps give pairwise distinct labels. */
  lemma LapLabelsDistinct(laps: seq<int>)
    requires StrictlyIncreasing(laps)
    ensures forall j, k :: 0 <= j < k < |laps| ==> LapLabels(laps)[j] != LapLabels(laps)[k]
  {
    forall j, k | 0 <= j < k < |laps|
      ensures LapLabels(laps)[j] != LapLabels(laps)[k]
    {
      LapLabelInjective(laps[j], laps[k]);
    }
  }

  /** `drivers.map((driverId, index) => ({label, data, borderColor, backgroundColor}))`. */
  function Datasets<G>(gapData: GapData<G>, laps: seq<int>, driverIds: seq<string>, colors: seq<string>): seq<Dataset<G>>
    requires forall j :: 0 <= j < |laps| ==> laps[j] in gapData
    requires |colors| == |driverIds|
  {
    seq(|driverIds|, i requires 0 <= i < |driverIds| =>
      Dataset(DriverLabel.FormatDriverId(driverIds[i]), DriverSeries(gapData, laps, driverIds[i]), colors[i], colors[i] + "33"))
  }

  /** Each dataset carries its driver's label, palette colour and gap series. */
  lemma DatasetsFields<G>(gapData: GapData<G>, laps: seq<int>, driverIds: seq<string>, colors: seq<string>)
    requires forall j :: 0 <= j < |laps| ==> laps[j] in gapData
    requires |colors| == |driverIds|
    requires Palette.FollowsPalette(colors)
    ensures var r := Datasets(gapData, laps, driverIds, colors);
      && |r| == |driverIds|
      && (forall i :: 0 <= i < |r| ==>
        && r[i].legend == DriverLabel.FormatDriverId(driverIds[i])
        && r[i].borderColor == Palette.Entry(i)
        && r[i].backgroundColor == r[i].borderColor + "33"
        && |r[i].data| == |laps|)
      && (forall i, j :: 0 <= i < |r| && 0 <= j < |laps| ==>
        r[i].data[j] == FindGap(gapData[laps[j]], driverIds[i]))
  {
    var r := Datasets(gapData, laps, driverIds, colors);
    forall i | 0 <= i < |r|
      ensures r[i].borderColor == Palette.Entry(i)
      ensures r[i].backgroundColor == r[i].borderColor + "33"
    {
      assert r[i].borderColor == colors[i];
    }
  }

  /**
   * The data-preparation part of renderChart: read the two attributes, sort the
   * laps, pick colours, build one dataset per driver and one label per lap.
   */
  method RenderChart<G>(gaps: Option<GapData<G>>, drivers: Option<seq<string>>) returns (chart: ChartData<G>)
    ensures var laps := LapNumbers(GapsOf(gaps));
      && |chart.labels| == |laps|
      && forall j :: 0 <= j < |laps| ==> chart.labels[j] == LapLabel(laps[j])
    ensures forall j, k :: 0 <= j < k < |chart.labels| ==> chart.labels[j] != chart.labels[k]
    ensures |chart.datasets| == |DriversOf(drivers)|
    ensures forall i :: 0 <= i < |chart.datasets| ==>
      var ds := chart.datasets[i];
      && ds.legend == DriverLabel.FormatDriverId(DriversOf(drivers)[i])
      && ds.borderColor == Palette.Entry(i)
      && ds.backgroundColor == ds.borderColor + "33"
      && |ds.data| == |LapNumbers(GapsOf(gaps))|
    ensures forall i, j :: 0 <= i < |chart.datasets| && 0 <= j < |LapNumbers(GapsOf(gaps))| ==>
      var lap := LapNumbers(GapsOf(gaps))[j];
      chart.datasets[i].data[j] == FindGap(GapsOf(gaps)[lap], DriversOf(drivers)[i])
    ensures GapsOf(gaps) == map[] ==> chart.labels == []
    ensures DriversOf(drivers) == [] ==> chart.datasets == []
  {
    var gapData := GapsOf(gaps);
    var driverIds := DriversOf(drivers);
    var lapNumbers := LapNumbers(gapData);
    assert forall j :: 0 <= j < |lapNumbers| ==> lapNumbers[j] in gapData;
    var colors := Palette.GenerateColors(|driverIds|);
    LapLabelsDistinct(lapNumbers);
    var datasets := Datasets(gapData, lapNumbers, driverIds, colors);
    DatasetsFields(gapData, lapNumbers, driverIds, colors);
    chart := ChartData(LapLabels(lapNumbers), datasets);
  }
}
