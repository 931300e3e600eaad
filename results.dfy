/** The race-results side of race_analysis_app.py: combining the selected
    category tables, the mean/median statistic, the scatter marker of a row and
    the name search that highlights table rows. */
module Results {
  import opened Wrappers
  import opened Text
  import Stats
  import Sorting

  /** The columns of a results row the dashboard computes with. `pos` is None
      when the position is not a number (a blank or a status such as DNF). */
  datatype Row = Row(pos: Option<int>, name: string, swim: Option<real>,
                     t1: Option<real>, run: Option<real>, category: string)

  /** `df.assign(Category=cat)`: every row tagged with its category, order kept. */
  function Tag(table: seq<Row>, cat: string): (r: seq<Row>)
    ensures |r| == |table|
    ensures forall i :: 0 <= i < |r| ==> r[i] == table[i].(category := cat)
  {
    seq(|table|, i requires 0 <= i < |table| => table[i].(category := cat))
  }

  /** Number of rows the first tables of `selected` hold together. */
  function TotalRows(tables: map<string, seq<Row>>, selected: seq<string>): nat
    requires forall c :: c in selected ==> c in tables
  {
    if selected == [] then 0 else |tables[selected[0]]| + TotalRows(tables, selected[1..])
  }

  /** `pd.concat([tables[cat].assign(Category=cat) for cat in selected],
      ignore_index=True)`. */
  function Combine(tables: map<string, seq<Row>>, selected: seq<string>): (r: seq<Row>)
    requires forall c :: c in selected ==> c in tables
    ensures |r| == TotalRows(tables, selected)
    ensures forall i :: 0 <= i < |r| ==> r[i].category in selected
  {
    if selected == [] then []
    else Tag(tables[selected[0]], selected[0]) + Combine(tables, selected[1..])
  }

  /** The combined table is the selected tables one after another, in selection
      order, each keeping its own row order, each row tagged with its category:
      row i of the k-th selected table sits at the rows of the first k tables
      plus i. */
  lemma {:induction false} CombineRows(tables: map<string, seq<Row>>, selected: seq<string>, k: nat, i: nat)
    requires forall c :: c in selected ==> c in tables
    requires k < |selected| && i < |tables[selected[k]]|
    ensures TotalRows(tables, selected[..k]) + i < |Combine(tables, selected)|
    ensures Combine(tables, selected)[TotalRows(tables, selected[..k]) + i]
         == tables[selected[k]][i].(category := selected[k])
  {
    var head := Tag(tables[selected[0]], selected[0]);
    if k == 0 {
      assert selected[..0] == [];
    } else {
      assert selected[..k][0] == selected[0];
      assert selected[..k][1..] == selected[1..][..k - 1];
      CombineRows(tables, selected[1..], k - 1, i);
    }
  }

  /** `stat_type == 'median'` picks the median; every other value the mean. */
  function Statistic(column: seq<Option<real>>, statType: string): (r: Option<real>)
    ensures r.Some? <==> exists i :: 0 <= i < |column| && column[i].Some?
    ensures statType == "median" ==> r == Stats.Median(Stats.Present(column))
    ensures statType != "median" ==> r == Stats.Mean(Stats.Present(column))
  {
    var present := Stats.Present(column);
    Stats.PresentEmpty(column);
    if statType == "median" then Stats.Median(present) else Stats.Mean(present)
  }

  /** The label drawn next to the statistic lines. */
  function StatLabel(statType: string): (caption: string)
    ensures caption == "Median" <==> statType == "median"
    ensures statType != "median" ==> caption == "Avg"
  {
    if statType == "median" then "Median" else "Avg"
  }

  /** Whichever statistic is chosen lies between the smallest and the largest
      present value. */
  lemma StatisticWithin(column: seq<Option<real>>, statType: string, lo: real, hi: real)
    requires forall i :: 0 <= i < |column| && column[i].Some? ==> lo <= column[i].value <= hi
    requires exists i :: 0 <= i < |column| && column[i].Some?
    ensures lo <= Statistic(column, statType).value <= hi
  {
    var present := Stats.Present(column);
    Stats.PresentEmpty(column);
    assert Stats.Within(present, lo, hi) by {
      forall k | 0 <= k < |present| ensures lo <= present[k] <= hi {
        Stats.PresentMembers(column, present[k]);
      }
    }
    if statType == "median" {
      Stats.MedianWithin(present, lo, hi);
    } else {
      Stats.MeanWithin(present, lo, hi);
    }
  }

  /** With present values 1, 2 and 6 the median is 2. */
  lemma StatisticMedianExample()
    ensures Statistic([Some(1.0), None, Some(2.0), Some(6.0)], "median") == Some(2.0)
  {
    ExamplePresent();
    ExampleSorted();
    assert Stats.Median([1.0, 2.0, 6.0]) == Some(2.0);
  }

  /** The same values average 3 under every choice other than "median". */
  lemma StatisticMeanExample(statType: string)
    requires statType != "median"
    ensures Statistic([Some(1.0), None, Some(2.0), Some(6.0)], statType) == Some(3.0)
  {
    ExamplePresent();
    var xs := [1.0, 2.0, 6.0];
    assert xs[..2] == [1.0, 2.0] && xs[..2][..1] == [1.0] && |[1.0][..0]| == 0;
    assert Stats.Sum(xs) == 9.0;
  }

  /** The choice is case-sensitive: "Median" selects the mean. */
  lemma CapitalisedMedianIsMean()
    ensures Statistic([Some(1.0), None, Some(2.0), Some(6.0)], "Median") == Some(3.0)
  {
    assert "Median" != "median" by { assert "Median"[0] != "median"[0]; }
    StatisticMeanExample("Median");
  }

  lemma ExamplePresent()
    ensures Stats.Present([Some(1.0), None, Some(2.0), Some(6.0)]) == [1.0, 2.0, 6.0]
  {
    var c: seq<Option<real>> := [Some(1.0), None, Some(2.0), Some(6.0)];
    assert c[1..] == [None, Some(2.0), Some(6.0)];
    assert c[1..][1..] == [Some(2.0), Some(6.0)];
    assert c[1..][1..][1..] == [Some(6.0)];
    assert |c[1..][1..][1..][1..]| == 0;
  }

  lemma ExampleSorted()
    ensures Sorting.Sort([1.0, 2.0, 6.0], Stats.Identity) == [1.0, 2.0, 6.0]
  {
    ExampleSortedTail();
    var xs := [1.0, 2.0, 6.0];
    assert xs[1..] == [2.0, 6.0];
    assert Sorting.Insert(1.0, [2.0, 6.0], Stats.Identity) == [1.0] + [2.0, 6.0];
  }

  lemma ExampleSortedTail()
    ensures Sorting.Sort([2.0, 6.0], Stats.Identity) == [2.0, 6.0]
  {
    var xs := [2.0, 6.0];
    assert xs[1..] == [6.0] && |[6.0][1..]| == 0;
    assert Sorting.Sort([6.0], Stats.Identity) == [6.0];
    assert Sorting.Insert(2.0, [6.0], Stats.Identity) == [2.0] + [6.0];
  }

  const HighlightColor: string := "#FF0000"
  const DefaultColor: string := "#1f77b4"

  /** PODIUM_COLORS: gold, silver and bronze for places 1 to 3. */
  function PodiumColor(place: int): (c: Option<string>)
    ensures c.Some? <==> 1 <= place <= 3
  {
    if place == 1 then Some("#FFD700")
    else if place == 2 then Some("#C0C0C0")
    else if place == 3 then Some("#CD7F32")
    else None
  }

  /** The marker drawn for one row. */
  datatype Marker = Marker(color: string, size: nat, symbol: string)

  /** The scatter's highlight test: a non-empty search equal to the name once
      both are stripped and lower-cased. */
  predicate ScatterHighlight(name: string, search: string) {
    search != "" && Normalize(name) == Normalize(search)
  }

  /** The table's highlight test: a non-empty search whose stripped,
      lower-cased form occurs in the stripped, lower-cased name. */
  predicate TableHighlight(name: string, search: string) {
    search != "" && IsSubstring(Normalize(search), Normalize(name))
  }

  predicate OnPodium(row: Row) {
    row.pos.Some? && PodiumColor(row.pos.value).Some?
  }

  /** The per-row rule of `create_scatterplot` (an empty search stands for no
      highlighted name): highlight first, then the podium, then the default. */
  function MarkerOf(row: Row, search: string): Marker {
    if ScatterHighlight(row.name, search) then Marker(HighlightColor, 15, "star")
    else match row.pos
      case Some(p) =>
        (match PodiumColor(p)
         case Some(c) => Marker(c, 12, "circle")
         case None => Marker(DefaultColor, 8, "circle"))
      case None => Marker(DefaultColor, 8, "circle")
  }

  /** The precedence of the marker rule: a highlighted row gets the red star
      even when it is on the podium; otherwise a podium row gets its medal
      colour; every other row the default. */
  lemma MarkerPrecedence(row: Row, search: string)
    ensures ScatterHighlight(row.name, search) ==>
      MarkerOf(row, search) == Marker(HighlightColor, 15, "star")
    ensures !ScatterHighlight(row.name, search) && OnPodium(row) ==>
      MarkerOf(row, search) == Marker(PodiumColor(row.pos.value).value, 12, "circle")
    ensures !ScatterHighlight(row.name, search) && !OnPodium(row) ==>
      MarkerOf(row, search) == Marker(DefaultColor, 8, "circle")
  {
  }

  /** The three kinds of marker are told apart by their size alone: 15 exactly
      for a highlighted row (even a winner), 12 exactly for an unhighlighted
      podium row, 8 otherwise. */
  lemma MarkerSizeClassifies(row: Row, search: string)
    ensures MarkerOf(row, search).size == 15 <==> ScatterHighlight(row.name, search)
    ensures MarkerOf(row, search).size == 12 <==> !ScatterHighlight(row.name, search) && OnPodium(row)
    ensures MarkerOf(row, search).size == 8 <==> !ScatterHighlight(row.name, search) && !OnPodium(row)
    ensures MarkerOf(row, search).symbol == "star" <==> ScatterHighlight(row.name, search)
  {
  }

  /** Every row the scatter highlights is highlighted in the table too: equal
      normalised strings contain one another. */
  lemma ScatterImpliesTable(name: string, search: string)
    requires ScatterHighlight(name, search)
    ensures TableHighlight(name, search)
  {
    var n := Normalize(name);
    assert n[0..|n|] == n;
    assert OccursAt(Normalize(search), n, 0);
  }

  /** The converse fails: "ann" marks Joanna's table row but not her point. */
  lemma TableWithoutScatter()
    ensures TableHighlight("Joanna", "ann") && !ScatterHighlight("Joanna", "ann")
  {
    ExampleNames();
    var n := "joanna";
    assert n[2..5] == "ann";
    assert OccursAt("ann", n, 2);
  }

  lemma ExampleNames()
    ensures Normalize("Joanna") == "joanna" && Normalize("ann") == "ann"
  {
    ExampleJoanna();
    StripClean("ann");
    var l := Lower("ann");
    assert l[0] == 'a' && l[1] == 'n' && l[2] == 'n';
  }

  lemma ExampleJoanna()
    ensures Normalize("Joanna") == "joanna"
  {
    StripClean("Joanna");
    LowerJoanna();
  }

  lemma LowerJoanna()
    ensures Lower("Joanna") == "joanna"
  {
    var l := Lower("Joanna");
    assert l[0] == 'j' && l[1] == 'o' && l[2] == 'a' && l[3] == 'n' && l[4] == 'n' && l[5] == 'a';
  }

  /** One scatter point: swim seconds on x, run seconds on y. */
  datatype Point = Point(x: Option<real>, y: Option<real>, marker: Marker)

  /** What `create_scatterplot` draws: the statistic lines, with their label,
      and one point per row. */
  method Scatter(rows: seq<Row>, search: string, statType: string)
    returns (points: seq<Point>, statSwim: Option<real>, statRun: Option<real>, caption: string)
    ensures statSwim == Statistic(SwimColumn(rows), statType)
    ensures statRun == Statistic(RunColumn(rows), statType)
    ensures caption == StatLabel(statType)
    ensures |points| == |rows|
    ensures forall i :: 0 <= i < |rows| ==>
      points[i] == Point(rows[i].swim, rows[i].run, MarkerOf(rows[i], search))
  {
    statSwim := Statistic(SwimColumn(rows), statType);
    statRun := Statistic(RunColumn(rows), statType);
    caption := StatLabel(statType);
    points := PlotRows(rows, search);
    forall i | 0 <= i < |rows|
      ensures points[i] == Point(rows[i].swim, rows[i].run, MarkerOf(rows[i], search))
    {
      PointsAt(rows, search, i);
    }
  }

  /** The points for `rows`, one per row in row order. */
  function Points(rows: seq<Row>, search: string): (ps: seq<Point>)
    ensures |ps| == |rows|
  {
    if rows == [] then []
    else
      var last := rows[|rows| - 1];
      Points(rows[..|rows| - 1], search) + [Point(last.swim, last.run, MarkerOf(last, search))]
  }

  /** Point i is drawn at row i's swim and run seconds with row i's marker. */
  lemma {:induction false} PointsAt(rows: seq<Row>, search: string, i: int)
    requires 0 <= i < |rows|
    ensures Points(rows, search)[i] == Point(rows[i].swim, rows[i].run, MarkerOf(rows[i], search))
  {
    if i < |rows| - 1 {
      PointsAt(rows[..|rows| - 1], search, i);
    }
  }

  /** The points of one more row are those of the rows before it plus its own. */
  lemma PointsSnoc(rows: seq<Row>, search: string, i: int)
    requires 0 <= i < |rows|
    ensures Points(rows[..i + 1], search)
         == Points(rows[..i], search) + [Point(rows[i].swim, rows[i].run, MarkerOf(rows[i], search))]
  {
    assert rows[..i + 1][..i] == rows[..i];
  }

  /** The loop of `create_scatterplot`: one point per row, in row order, with
      the marker the colour rule picks. */
  method PlotRows(rows: seq<Row>, search: string) returns (points: seq<Point>)
    ensures points == Points(rows, search)
  {
    points := [];
    for i := 0 to |rows|
      invariant points == Points(rows[..i], search)
    {
      var row := rows[i];
      var marker := MarkerOf(row, search);
      PointsSnoc(rows, search, i);
      points := points + [Point(row.swim, row.run, marker)];
    }
    assert rows[..|rows|] == rows;
  }

  function SwimColumn(rows: seq<Row>): (col: seq<Option<real>>)
    ensures |col| == |rows| && forall i :: 0 <= i < |rows| ==> col[i] == rows[i].swim
  {
    seq(|rows|, i requires 0 <= i < |rows| => rows[i].swim)
  }

  function RunColumn(rows: seq<Row>): (col: seq<Option<real>>)
    ensures |col| == |rows| && forall i :: 0 <= i < |rows| ==> col[i] == rows[i].run
  {
    seq(|rows|, i requires 0 <= i < |rows| => rows[i].run)
  }
}
