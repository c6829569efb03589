/** The floor aggregator (`Floor`): module grids stitched into one matrix,
    the queue of finished matrices, and the frame text the serial
    messenger sends for each of them. */
module Floors {
  import opened Wrappers
  import opened Text
  import opened CellIndexMap
  import opened LatestQueue
  import opened FloorModules

  /** A floor matrix, `Vec<Vec<i32>>`. */
  type Matrix = seq<seq<i32>>

  /** Every module position of the layout holds a 6x6 grid. */
  predicate AllGrids(grids: seq<seq<Grid>>)
  {
    forall mr, mc :: 0 <= mr < |grids| && 0 <= mc < |grids[mr]| ==> IsGrid(grids[mr][mc])
  }

  /** No layout row is longer than the first one, which sets the width. */
  predicate FitsFirstRow(grids: seq<seq<Grid>>)
    requires |grids| > 0
  {
    forall mr :: 0 <= mr < |grids| ==> |grids[mr]| <= |grids[0]|
  }

  /** The first layout row, from `from` on, that is longer than the first row. */
  function FirstLongRow(grids: seq<seq<Grid>>, from: nat): (mr: nat)
    requires 0 < from <= |grids| && !FitsFirstRow(grids)
    requires forall k :: 0 <= k < from ==> |grids[k]| <= |grids[0]|
    ensures from <= mr < |grids| && |grids[mr]| > |grids[0]|
    ensures forall k :: 0 <= k < mr ==> |grids[k]| <= |grids[0]|
    decreases |grids| - from
  {
    if |grids[from]| > |grids[0]| then from else FirstLongRow(grids, from + 1)
  }

  /** The value the stitched matrix has at (a, b): the module at
      (a / 6, b / 6) supplies its cell (a % 6, b % 6), and a position with no
      module (a row shorter than the first) stays 0. */
  function CellAt(grids: seq<seq<Grid>>, a: nat, b: nat): i32
    requires AllGrids(grids) && a < 6 * |grids|
  {
    var mr, mc := a / 6, b / 6;
    if mc < |grids[mr]| then grids[mr][mc][a % 6][b % 6] else 0
  }

  /** The matrix one turn of the `Floor::new` loop builds, or the panic it
      ends in: `modules[0]` of an empty layout, or a write past the width
      that the first row set. It succeeds exactly on a non-empty layout
      whose rows are no longer than the first, with a 6R by 6C matrix; a
      failure past the empty layout names a row longer than the first. */
  function Stitched(grids: seq<seq<Grid>>): (r: Result<Matrix, Fault>)
    requires AllGrids(grids)
    ensures r.Ok? <==> |grids| > 0 && FitsFirstRow(grids)
    ensures r.Ok? ==> |r.value| == 6 * |grids| && forall a :: 0 <= a < |r.value| ==> |r.value[a]| == 6 * |grids[0]|
    ensures |grids| == 0 ==> r == Err(EmptyLayout)
    ensures r.Err? && |grids| > 0 ==> r.error.RowLongerThanFirst? && r.error.row < |grids| && |grids[r.error.row]| > |grids[0]|
  {
    if |grids| == 0 then Err(EmptyLayout)
    else if !FitsFirstRow(grids) then Err(RowLongerThanFirst(FirstLongRow(grids, 1)))
    else Ok(seq(6 * |grids|, a requires 0 <= a < 6 * |grids| =>
              seq(6 * |grids[0]|, b requires 0 <= b < 6 * |grids[0]| => CellAt(grids, a, b))))
  }

  /** Whether the loops of `Stitch` have written (a, b) by the time they reach
      module (mr, mc), cell (i, j). */
  predicate Written(a: nat, b: nat, mr: nat, mc: nat, i: nat, j: nat)
  {
    var ma, mb, ia, jb := a / 6, b / 6, a % 6, b % 6;
    ma < mr || (ma == mr && (mb < mc || (mb == mc && (ia < i || (ia == i && jb < j)))))
  }

  /** The matrix is `rows` by `width` and holds the stitched value wherever
      the loops have written, 0 elsewhere. */
  ghost predicate Progress(grids: seq<seq<Grid>>, item: Matrix, width: nat, mr: nat, mc: nat, i: nat, j: nat)
    requires AllGrids(grids)
  {
    |item| == 6 * |grids| &&
    (forall a :: 0 <= a < |item| ==> |item[a]| == width) &&
    (forall a: nat, b: nat :: a < |item| && b < width ==>
       item[a][b] == if Written(a, b, mr, mc, i, j) then CellAt(grids, a, b) else 0)
  }

  /** The stitching body of `Floor::new`: an all-zero `6R x 6C` matrix, C
      taken from the first layout row, then four nested loops copying each
      module's grid to rows `6*mr ..` and columns `6*mc ..`. */
  method Stitch(grids: seq<seq<Grid>>) returns (r: Result<Matrix, Fault>)
    requires AllGrids(grids)
    ensures r == Stitched(grids)
  {
    if |grids| == 0 {
      return Err(EmptyLayout);
    }
    var width := 6 * |grids[0]|;
    var item: Matrix := seq(6 * |grids|, _ => seq(width, _ => 0));
    for mr := 0 to |grids|
      invariant Progress(grids, item, width, mr, 0, 0, 0)
      invariant forall k :: 0 <= k < mr ==> |grids[k]| <= |grids[0]|
    {
      for mc := 0 to |grids[mr]|
        invariant Progress(grids, item, width, mr, mc, 0, 0)
        invariant mc <= |grids[0]|
      {
        for i := 0 to 6
          invariant Progress(grids, item, width, mr, mc, i, 0)
          invariant i > 0 ==> mc < |grids[0]|
        {
          for j := 0 to 6
            invariant Progress(grids, item, width, mr, mc, i, j)
            invariant i > 0 || j > 0 ==> mc < |grids[0]|
          {
            var a, b := 6 * mr + i, 6 * mc + j;
            if b >= |item[a]| {
              assert !FitsFirstRow(grids);
              return Err(RowLongerThanFirst(mr));
            }
            item := item[a := item[a][b := grids[mr][mc][i][j]]];
          }
        }
      }
    }
    assert FitsFirstRow(grids);
    var m := Stitched(grids).value;
    forall a | 0 <= a < |item| ensures item[a] == m[a] {
      forall b | 0 <= b < width ensures item[a][b] == m[a][b] {
        assert Written(a, b, |grids|, 0, 0, 0);
      }
    }
    assert |item| == |m|;
    assert item == m;
    assert Ok(item) == Stitched(grids);
    return Ok(item);
  }

  /** Stitching succeeds exactly on a non-empty layout whose rows are no
      longer than the first; the matrix is then 6R by 6C, module (mr, mc)'s
      cell (i, j) sits at (6*mr + i, 6*mc + j), and positions no module
      covers are 0. */
  lemma StitchedPlaces(grids: seq<seq<Grid>>)
    requires AllGrids(grids)
    ensures Stitched(grids).Ok? <==> |grids| > 0 && FitsFirstRow(grids)
    ensures Stitched(grids).Ok? ==>
      var m := Stitched(grids).value;
      |m| == 6 * |grids| && (forall a :: 0 <= a < |m| ==> |m[a]| == 6 * |grids[0]|) &&
      (forall mr, mc, i, j :: 0 <= mr < |grids| && 0 <= mc < |grids[mr]| && 0 <= i < 6 && 0 <= j < 6 ==>
         m[6 * mr + i][6 * mc + j] == grids[mr][mc][i][j]) &&
      (forall a, b :: 0 <= a < |m| && 0 <= b < 6 * |grids[0]| && b / 6 >= |grids[a / 6]| ==> m[a][b] == 0)
  {
    if |grids| > 0 && FitsFirstRow(grids) {
      var m := Stitched(grids).value;
      forall mr, mc, i, j | 0 <= mr < |grids| && 0 <= mc < |grids[mr]| && 0 <= i < 6 && 0 <= j < 6
        ensures m[6 * mr + i][6 * mc + j] == grids[mr][mc][i][j]
      {
        var a, b := 6 * mr + i, 6 * mc + j;
        assert a / 6 == mr && a % 6 == i;
        assert b / 6 == mc && b % 6 == j;
      }
    }
  }

  // -----------------------------------------------------------------------
  // The frame text of `SerialFloorMessanger::create_receiver`

  /** The rows of a matrix as the serial messenger writes them: one text
      per row, none holding the row or epoch separator. */
  function RowTexts(m: Matrix): (t: seq<string>)
    ensures |t| == |m|
    ensures forall a :: 0 <= a < |t| ==> ';' !in t[a] && ':' !in t[a]
  {
    seq(|m|, a requires 0 <= a < |m| => NumbersText(m[a]))
  }

  /** The rows joined by ';' hold no ':'. */
  lemma BodyHasNoColon(m: Matrix)
    ensures ':' !in JoinAll(RowTexts(m), ';')
  {
    if |m| >= 1 {
      JoinHasNo(RowTexts(m), ';', ':');
    }
  }

  /** `format!("{}:{}", epoch, data_str)`, where `data_str` joins the rows
      with ';' and the cells of a row with ','. The frame holds exactly one
      ':', right after the epoch's digits, and what follows it splits on ';'
      into the row texts. */
  function FrameText(epoch: u128, m: Matrix): (s: string)
    ensures Split(s, ':') == [ShowNat(epoch), JoinAll(RowTexts(m), ';')]
    ensures |m| >= 1 ==> Split(Split(s, ':')[1], ';') == RowTexts(m)
  {
    var body := JoinAll(RowTexts(m), ';');
    ShowNatHasNoSeparator(epoch);
    BodyHasNoColon(m);
    SplitAfterPiece(ShowNat(epoch), body, ':');
    SplitWithout(body, ':');
    ShowNat(epoch) + [':'] + body
  }

  /** A reader of the wire format: the epoch before ':', then rows split on
      ';' and cells on ','. */
  function ParseFrame(s: string): Option<(u128, Matrix)>
  {
    var halves := Split(s, ':');
    if |halves| != 2 then None
    else
      match ParseU128(halves[0])
      case None => None
      case Some(epoch) =>
        match ParseRows(Split(halves[1], ';'))
        case None => None
        case Some(m) => Some((epoch, m))
  }

  /** Every row split on ',' and parsed as `i32` numbers. */
  function ParseRows(rows: seq<string>): Option<Matrix>
  {
    if |rows| == 0 then Some([])
    else
      match ParseTokens(Split(rows[0], ','))
      case Err(_) => None
      case Ok(first) =>
        match ParseRows(rows[1..])
        case None => None
        case Some(rest) => Some([first] + rest)
  }

  lemma {:induction false} ParseRowTexts(m: Matrix)
    requires forall a :: 0 <= a < |m| ==> |m[a]| >= 1
    ensures ParseRows(RowTexts(m)) == Some(m)
    ensures forall a :: 0 <= a < |m| ==> ';' !in RowTexts(m)[a] && ':' !in RowTexts(m)[a]
    decreases |m|
  {
    if |m| > 0 {
      ParseRowTexts(m[1..]);
      RowTextsTail(m);
      NumbersRoundTrip(m[0]);
      ParseRowsCons(RowTexts(m), m);
    }
  }

  lemma RowTextsTail(m: Matrix)
    requires |m| > 0
    ensures RowTexts(m)[1..] == RowTexts(m[1..]) && RowTexts(m)[0] == NumbersText(m[0])
  {
  }

  /** A first row that parses in front of rows that parse. */
  lemma ParseRowsCons(t: seq<string>, m: Matrix)
    requires |t| == |m| > 0
    requires ParseTokens(Split(t[0], ',')) == Ok(m[0]) && ParseRows(t[1..]) == Some(m[1..])
    ensures ParseRows(t) == Some(m)
  {
    assert [m[0]] + m[1..] == m;
  }

  /** Splitting a frame back on ':', ';' and ',' and parsing recovers the
      epoch and the matrix, for a matrix with at least one row and no empty
      row. */
  lemma FrameRoundTrip(epoch: u128, m: Matrix)
    requires |m| >= 1 && forall a :: 0 <= a < |m| ==> |m[a]| >= 1
    ensures ParseFrame(FrameText(epoch, m)) == Some((epoch, m))
  {
    var rows := RowTexts(m);
    ParseRowTexts(m);
    var body := Join(rows, ';');
    JoinHasNo(rows, ';', ':');
    SplitJoin(rows, ';');
    ShowNatHasNoSeparator(epoch);
    SplitAfterPiece(ShowNat(epoch), body, ':');
    SplitWithout(body, ':');
    assert Split(FrameText(epoch, m), ':') == [ShowNat(epoch), body];
    ParseShowU128(epoch);
  }

  // -----------------------------------------------------------------------
  // One turn of the producer loop of `Floor::new`

  /** One module position: its newest serial line and its orientation. */
  type Pending = (string, int)

  /** `unwrap` applied in order to every outcome: all the values, or the
      first failure. */
  function Collect<T>(rs: seq<Result<T, Fault>>): (r: Result<seq<T>, Fault>)
    ensures r.Ok? <==> forall k :: 0 <= k < |rs| ==> rs[k].Ok?
    ensures r.Ok? ==> |r.value| == |rs| && forall k :: 0 <= k < |rs| ==> rs[k] == Ok(r.value[k])
    ensures r.Err? ==> exists k :: 0 <= k < |rs| && rs[k] == Err(r.error) && forall j :: 0 <= j < k ==> rs[j].Ok?
    decreases |rs|
  {
    if |rs| == 0 then Ok([])
    else
      var init := rs[..|rs| - 1];
      assert forall k :: 0 <= k < |init| ==> init[k] == rs[k];
      match Collect(init)
      case Err(f) => Err(f)
      case Ok(prefix) =>
        match rs[|rs| - 1]
        case Err(f) => Err(f)
        case Ok(v) =>
          var all := prefix + [v];
          assert forall k :: 0 <= k < |prefix| ==> all[k] == prefix[k];
          Ok(all)
  }

  /** One more success extends the collected prefix by its value. */
  lemma CollectExtend<T>(rs: seq<Result<T, Fault>>, k: nat, prefix: seq<T>, v: T)
    requires k < |rs| && Collect(rs[..k]) == Ok(prefix) && rs[k] == Ok(v)
    ensures Collect(rs[..k + 1]) == Ok(prefix + [v])
  {
    var next := rs[..k + 1];
    assert next[..k] == rs[..k];
  }

  /** A failure after a prefix of successes is the failure of the whole. */
  lemma CollectStop<T>(rs: seq<Result<T, Fault>>, k: nat)
    requires k < |rs| && Collect(rs[..k]).Ok? && rs[k].Err?
    ensures Collect(rs) == Err(rs[k].error)
  {
    var prefix := rs[..k];
    assert forall j :: 0 <= j < k ==> prefix[j] == rs[j];
  }

  /** The index of the first failure in `rs`, or `|rs|` when there is none. */
  function FirstErr<T>(rs: seq<Result<T, Fault>>): (k: nat)
    ensures k <= |rs|
    decreases |rs|
  {
    if |rs| == 0 || rs[0].Err? then 0 else 1 + FirstErr(rs[1..])
  }

  /** `FirstErr` finds a failure, and only successes come before it. */
  lemma {:induction false} FirstErrSpec<T>(rs: seq<Result<T, Fault>>)
    ensures FirstErr(rs) < |rs| ==> rs[FirstErr(rs)].Err?
    ensures forall j :: 0 <= j < FirstErr(rs) ==> rs[j].Ok?
    decreases |rs|
  {
    if |rs| > 0 && rs[0].Ok? {
      FirstErrSpec(rs[1..]);
      assert forall j :: 1 <= j < |rs| ==> rs[j] == rs[1..][j - 1];
    }
  }

  /** A failure after a prefix of successes is the first failure. */
  lemma FirstErrAt<T>(rs: seq<Result<T, Fault>>, y: nat)
    requires y < |rs| && Collect(rs[..y]).Ok? && rs[y].Err?
    ensures FirstErr(rs) == y
  {
    FirstErrSpec(rs);
    assert forall j :: 0 <= j < y ==> rs[..y][j] == rs[j];
  }

  /** With no failure at all, the first failure is past the end. */
  lemma FirstErrNone<T>(rs: seq<Result<T, Fault>>)
    requires Collect(rs).Ok?
    ensures FirstErr(rs) == |rs|
  {
    FirstErrSpec(rs);
  }

  /** What `read_cells().unwrap()` yields for each module of a row. */
  function DecodeAll(row: seq<Pending>): (rs: seq<Result<Grid, Fault>>)
    ensures |rs| == |row|
  {
    seq(|row|, k requires 0 <= k < |row| => Decode(row[k].0, row[k].1))
  }

  /** The grids of one layout row decoded left to right, or the first panic. */
  function DecodeRow(row: seq<Pending>): Result<seq<Grid>, Fault>
  {
    Collect(DecodeAll(row))
  }

  /** The grids of the whole layout decoded row by row, or the first panic. */
  function DecodeLayout(rows: seq<seq<Pending>>): Result<seq<seq<Grid>>, Fault>
  {
    Collect(seq(|rows|, k requires 0 <= k < |rows| => DecodeRow(rows[k])))
  }

  /** A decoded layout has one row of 6x6 grids per layout row, and every
      module's line decoded. */
  lemma LayoutGrids(rows: seq<seq<Pending>>)
    ensures DecodeLayout(rows).Ok? ==> |DecodeLayout(rows).value| == |rows| && AllGrids(DecodeLayout(rows).value)
    ensures DecodeLayout(rows).Ok? ==>
      forall x, y :: 0 <= x < |rows| && 0 <= y < |rows[x]| ==> Decode(rows[x][y].0, rows[x][y].1).Ok?
  {
    var r := DecodeLayout(rows);
    if r.Ok? {
      forall mr, mc | 0 <= mr < |r.value| && 0 <= mc < |r.value[mr]|
        ensures IsGrid(r.value[mr][mc])
      {
        assert DecodeRow(rows[mr]) == Ok(r.value[mr]);
        assert DecodeAll(rows[mr])[mc] == Ok(r.value[mr][mc]);
      }
      forall x, y | 0 <= x < |rows| && 0 <= y < |rows[x]|
        ensures Decode(rows[x][y].0, rows[x][y].1).Ok?
      {
        assert DecodeRow(rows[x]) == Ok(r.value[x]);
        assert DecodeAll(rows[x])[y].Ok?;
      }
    }
  }

  /** What one turn of the loop produces from the modules' newest lines:
      every grid decoded, then stitched. A matrix comes out only when every
      module's line decodes, and it has six rows per layout row. */
  function FloorCycle(rows: seq<seq<Pending>>): (r: Result<Matrix, Fault>)
    ensures r.Ok? ==> forall x, y :: 0 <= x < |rows| && 0 <= y < |rows[x]| ==> Decode(rows[x][y].0, rows[x][y].1).Ok?
    ensures r.Ok? ==> |r.value| == 6 * |rows|
    ensures |rows| == 0 ==> r == Err(EmptyLayout)
  {
    match DecodeLayout(rows)
    case Err(f) => Err(f)
    case Ok(grids) =>
      LayoutGrids(rows);
      Stitched(grids)
  }

  /** The queues of one layout row. */
  ghost function RowQueues(row: seq<FloorModule>): set<Latest<string>>
  {
    set y | 0 <= y < |row| :: row[y].queue
  }

  /** The queues of all modules of a layout. */
  ghost function Queues(modules: seq<seq<FloorModule>>): set<Latest<string>>
  {
    set x, y | 0 <= x < |modules| && 0 <= y < |modules[x]| :: modules[x][y].queue
  }

  lemma QueuesSnoc(modules: seq<seq<FloorModule>>, row: seq<FloorModule>)
    ensures Queues(modules + [row]) == Queues(modules) + RowQueues(row)
  {
    var longer := modules + [row];
    assert longer[|modules|] == row;
    forall q | q in Queues(longer)
      ensures q in Queues(modules) + RowQueues(row)
    {
      var x, y :| 0 <= x < |longer| && 0 <= y < |longer[x]| && longer[x][y].queue == q;
      if x < |modules| {
        assert longer[x] == modules[x];
      }
    }
    forall q | q in Queues(modules)
      ensures q in Queues(longer)
    {
      var x, y :| 0 <= x < |modules| && 0 <= y < |modules[x]| && modules[x][y].queue == q;
      assert longer[x][y] == modules[x][y];
    }
  }

  /** Every module of a row owns its own queue. */
  ghost predicate RowDistinct(row: seq<FloorModule>)
  {
    forall y, y' :: 0 <= y < y' < |row| ==> row[y].queue != row[y'].queue
  }

  /** Every module of a layout owns its own queue. */
  ghost predicate DistinctQueues(modules: seq<seq<FloorModule>>)
  {
    (forall x :: 0 <= x < |modules| ==> RowDistinct(modules[x])) &&
    forall x, x' :: 0 <= x < x' < |modules| ==> RowQueues(modules[x]) !! RowQueues(modules[x'])
  }

  /** The readiness condition of a row. */
  ghost predicate RowAvailable(row: seq<FloorModule>)
    reads RowQueues(row)
  {
    forall y :: 0 <= y < |row| ==> row[y].queue.items != []
  }

  /** The readiness condition that the busy-wait loop waits for. */
  ghost predicate AllAvailable(modules: seq<seq<FloorModule>>)
    reads Queues(modules)
  {
    forall x :: 0 <= x < |modules| ==> RowAvailable(modules[x])
  }

  /** The newest line and the orientation of every module of a row. */
  ghost function RowPending(row: seq<FloorModule>): (p: seq<Pending>)
    requires RowAvailable(row)
    reads RowQueues(row)
    ensures |p| == |row|
  {
    seq(|row|, y reads RowQueues(row) requires 0 <= y < |row| && row[y].queue.items != [] =>
      (Newest(row[y].queue.items).value, row[y].direction as int))
  }

  /** The newest line and the orientation of every module. */
  ghost function PendingOf(modules: seq<seq<FloorModule>>): (p: seq<seq<Pending>>)
    requires AllAvailable(modules)
    reads Queues(modules)
    ensures |p| == |modules|
  {
    seq(|modules|, x reads Queues(modules) requires 0 <= x < |modules| && RowAvailable(modules[x]) =>
      assert RowQueues(modules[x]) <= Queues(modules);
      RowPending(modules[x]))
  }

  /** `read_cells` on the module at `y`; the other modules of the row keep
      their queues. */
  method ReadAt(row: seq<FloorModule>, y: nat) returns (r: Result<Option<Grid>, Fault>)
    requires y < |row| && RowDistinct(row)
    modifies row[y].queue
    ensures r == CellsOf(Newest(old(row[y].queue.items)), row[y].direction)
    ensures forall y' :: 0 <= y' < |row| ==>
      row[y'].queue.items == if y' == y then [] else old(row[y'].queue.items)
  {
    r := row[y].ReadCells();
  }

  /** Read and decode every module of one row, left to right, stopping at
      the first panic. */
  method ReadRow(row: seq<FloorModule>) returns (r: Result<seq<Grid>, Fault>)
    requires RowAvailable(row) && RowDistinct(row)
    modifies RowQueues(row)
    ensures r == DecodeRow(old(RowPending(row)))
    ensures r.Ok? ==> forall y :: 0 <= y < |row| ==> row[y].queue.items == []
    ensures var k := FirstErr(DecodeAll(old(RowPending(row))));
      (forall y :: 0 <= y <= k && y < |row| ==> row[y].queue.items == []) &&
      (forall y :: k < y < |row| ==> row[y].queue.items == old(row[y].queue.items))
  {
    ghost var pending := RowPending(row);
    ghost var outcomes := DecodeAll(pending);
    var grids: seq<Grid> := [];
    for y := 0 to |row|
      invariant Collect(outcomes[..y]) == Ok(grids)
      invariant forall y' :: y <= y' < |row| ==> row[y'].queue.items == old(row[y'].queue.items)
      invariant forall y' :: 0 <= y' < y ==> row[y'].queue.items == []
    {
      assert pending[y] == (Newest(row[y].queue.items).value, row[y].direction as int);
      var cells := ReadAt(row, y);
      if cells.Err? {
        CollectStop(outcomes, y);
        FirstErrAt(outcomes, y);
        return Err(cells.error);
      }
      CollectExtend(outcomes, y, grids, cells.value.value);
      grids := grids + [cells.value.value];
    }
    assert outcomes[..|row|] == outcomes;
    FirstErrNone(outcomes);
    r := Ok(grids);
  }

  class Floor {
    /** The stitched matrices waiting for the serial messenger. */
    const queue: Latest<Matrix>

    constructor ()
      ensures fresh(queue) && queue.items == []
    {
      queue := new Latest<Matrix>();
    }

    /** `data_available`: a read now yields a matrix. */
    predicate DataAvailable()
      reads this, queue
      ensures DataAvailable() <==> Newest(queue.items).Some?
    {
      queue.DataAvailable()
    }

    /** `Floor::read`: drain the queue, return the newest matrix. */
    method Read() returns (m: Option<Matrix>)
      modifies queue
      ensures queue.items == []
      ensures m == Newest(old(queue.items))
      ensures m.None? <==> old(queue.items) == []
    {
      m := queue.Read();
    }

    /** One turn of the producer loop, once every module has data: each
        module's newest line is decoded (`read_cells().unwrap()`), the grids
        are stitched, and the matrix is pushed. */
    method Cycle(modules: seq<seq<FloorModule>>) returns (r: Result<Matrix, Fault>)
      requires AllAvailable(modules) && DistinctQueues(modules)
      modifies Queues(modules), queue
      ensures r == FloorCycle(old(PendingOf(modules)))
      ensures r.Ok? ==> queue.items == old(queue.items) + [r.value]
      ensures r.Err? ==> queue.items == old(queue.items)
      ensures r.Ok? ==> forall x, y :: 0 <= x < |modules| && 0 <= y < |modules[x]| ==> modules[x][y].queue.items == []
    {
      ghost var pending := PendingOf(modules);
      ghost var outcomes := seq(|pending|, k requires 0 <= k < |pending| => DecodeRow(pending[k]));
      var grids: seq<seq<Grid>> := [];
      for x := 0 to |modules|
        invariant Collect(outcomes[..x]) == Ok(grids)
        invariant queue.items == old(queue.items)
        invariant forall x' :: x <= x' < |modules| ==>
          RowAvailable(modules[x']) && RowPending(modules[x']) == pending[x']
        invariant forall x', y' :: 0 <= x' < x && 0 <= y' < |modules[x']| ==> modules[x'][y'].queue.items == []
      {
        assert RowQueues(modules[x]) <= Queues(modules);
        var row := ReadRow(modules[x]);
        if row.Err? {
          CollectStop(outcomes, x);
          return Err(row.error);
        }
        CollectExtend(outcomes, x, grids, row.value);
        grids := grids + [row.value];
      }
      assert outcomes[..|modules|] == outcomes;
      LayoutGrids(pending);
      r := Stitch(grids);
      if r.Ok? {
        queue.Push(r.value);
      }
    }
  }

  // -----------------------------------------------------------------------
  // Building the layout from the configuration

  /** The floor configuration: a port name per module position, and a
      direction per module position. */
  datatype FloorConfig = FloorConfig(moduleLayout: seq<seq<string>>, moduleDirection: seq<seq<i32>>)

  /** Whether `module_direction[x][y]` exists. */
  predicate HasDirection(config: FloorConfig, x: nat, y: nat)
  {
    x < |config.moduleDirection| && y < |config.moduleDirection[x]|
  }

  /** Every position of the layout before (x, y) in row-major order has a direction. */
  predicate DirectionsBefore(config: FloorConfig, x: nat, y: nat)
  {
    (forall x', y' :: 0 <= x' < x && x' < |config.moduleLayout| && 0 <= y' < |config.moduleLayout[x']| ==>
      HasDirection(config, x', y')) &&
    forall y' :: 0 <= y' < y && x < |config.moduleLayout| && y' < |config.moduleLayout[x]| ==>
      HasDirection(config, x, y')
  }

  /** Every position of the layout has a direction. */
  predicate Configured(config: FloorConfig)
  {
    DirectionsBefore(config, |config.moduleLayout|, 0)
  }

  /** The modules of the first |modules| layout rows: each sits where the
      layout puts it, with its configured direction and an empty queue of
      its own. */
  ghost predicate Opened(config: FloorConfig, modules: seq<seq<FloorModule>>)
    reads Queues(modules)
  {
    |modules| <= |config.moduleLayout| &&
    (forall x :: 0 <= x < |modules| ==> |modules[x]| == |config.moduleLayout[x]|) &&
    (forall x, y :: 0 <= x < |modules| && 0 <= y < |modules[x]| ==>
      HasDirection(config, x, y) && modules[x][y].direction == config.moduleDirection[x][y] &&
      modules[x][y].queue.items == []) &&
    DistinctQueues(modules)
  }

  lemma OpenedSnoc(config: FloorConfig, x: nat, modules: seq<seq<FloorModule>>, row: seq<FloorModule>)
    requires x < |config.moduleLayout|
    requires |modules| == x && Opened(config, modules)
    requires |row| == |config.moduleLayout[x]| && RowDistinct(row)
    requires forall y :: 0 <= y < |row| ==>
      HasDirection(config, x, y) && row[y].direction == config.moduleDirection[x][y] && row[y].queue.items == []
    requires forall x' :: 0 <= x' < x ==> RowQueues(modules[x']) !! RowQueues(row)
    ensures Opened(config, modules + [row])
  {
    var longer := modules + [row];
    assert forall k :: 0 <= k < x ==> longer[k] == modules[k];
    assert longer[x] == row;
    QueuesSnoc(modules, row);
    assert forall k :: 0 <= k < |longer| ==> |longer[k]| == |config.moduleLayout[k]|;
    forall k, y | 0 <= k < |longer| && 0 <= y < |longer[k]|
      ensures HasDirection(config, k, y) && longer[k][y].direction == config.moduleDirection[k][y]
      ensures longer[k][y].queue.items == []
    {
      if k < x {
        assert longer[k] == modules[k];
      } else {
        assert longer[k][y] == row[y];
      }
    }
    forall k | 0 <= k < |longer|
      ensures RowDistinct(longer[k])
    {
      if k < x {
        assert longer[k] == modules[k];
      }
    }
    forall k, k' | 0 <= k < k' < |longer|
      ensures RowQueues(longer[k]) !! RowQueues(longer[k'])
    {
      assert longer[k] == modules[k];
      if k' < x {
        assert longer[k'] == modules[k'];
      }
    }
  }

  /** The inner module-building loop of `Floor::new` for layout row x: one
      module per port, panicking at the first position without a direction.
      The serial port each module opens is not modelled. */
  method OpenRow(config: FloorConfig, x: nat) returns (r: Result<seq<FloorModule>, Fault>)
    requires x < |config.moduleLayout|
    ensures r.Ok? <==> forall y :: 0 <= y < |config.moduleLayout[x]| ==> HasDirection(config, x, y)
    ensures r.Ok? ==> |r.value| == |config.moduleLayout[x]| && RowDistinct(r.value)
    ensures r.Ok? ==> forall y :: 0 <= y < |r.value| ==>
      HasDirection(config, x, y) && r.value[y].direction == config.moduleDirection[x][y] &&
      r.value[y].queue.items == [] && fresh(r.value[y].queue)
    ensures r.Err? ==> r.error.MissingDirection? && r.error.row == x
    ensures r.Err? && r.error.MissingDirection? ==>
      (r.error.col < |config.moduleLayout[x]| && !HasDirection(config, x, r.error.col) &&
       forall y :: 0 <= y < r.error.col ==> HasDirection(config, x, y))
  {
    var row: seq<FloorModule> := [];
    for y := 0 to |config.moduleLayout[x]|
      invariant |row| == y && RowDistinct(row)
      invariant forall y' :: 0 <= y' < y ==>
        HasDirection(config, x, y') && row[y'].direction == config.moduleDirection[x][y'] &&
        row[y'].queue.items == [] && fresh(row[y'].queue)
    {
      if !HasDirection(config, x, y) {
        return Err(MissingDirection(x, y));
      }
      var m := new FloorModule(config.moduleDirection[x][y]);
      row := row + [m];
    }
    r := Ok(row);
  }

  /** The module-building loops of `Floor::new`: the modules of every
      layout row, row by row; the first position without a direction ends
      them in a panic. */
  method OpenModules(config: FloorConfig) returns (r: Result<seq<seq<FloorModule>>, Fault>)
    ensures r.Ok? <==> Configured(config)
    ensures r.Ok? ==> |r.value| == |config.moduleLayout| && Opened(config, r.value)
    ensures r.Ok? ==> forall q :: q in Queues(r.value) ==> fresh(q)
    ensures r.Err? ==> r.error.MissingDirection?
    ensures r.Err? && r.error.MissingDirection? ==>
      (r.error.row < |config.moduleLayout| && r.error.col < |config.moduleLayout[r.error.row]| &&
       !HasDirection(config, r.error.row, r.error.col) && DirectionsBefore(config, r.error.row, r.error.col))
  {
    var modules: seq<seq<FloorModule>> := [];
    for x := 0 to |config.moduleLayout|
      invariant DirectionsBefore(config, x, 0)
      invariant |modules| == x && Opened(config, modules)
      invariant forall q :: q in Queues(modules) ==> fresh(q)
    {
      var row := OpenRow(config, x);
      if row.Err? {
        return Err(row.error);
      }
      assert forall q :: q in RowQueues(row.value) ==> fresh(q);
      assert forall x' :: 0 <= x' < x ==> RowQueues(modules[x']) !! RowQueues(row.value);
      QueuesSnoc(modules, row.value);
      OpenedSnoc(config, x, modules, row.value);
      modules := modules + [row.value];
    }
    r := Ok(modules);
  }

  // -----------------------------------------------------------------------
  // The serial messenger

  /** One turn of the loop of `SerialFloorMessanger::create_receiver`, once
      the floor has data: the newest matrix is taken and formatted as a frame
      stamped with `epoch`, the clock reading of that turn. */
  method NextFrame(floor: Floor, epoch: u128) returns (frame: string)
    requires floor.DataAvailable()
    modifies floor.queue
    ensures floor.queue.items == []
    ensures frame == FrameText(epoch, Newest(old(floor.queue.items)).value)
  {
    var data := floor.Read();
    frame := FrameText(epoch, data.value);
  }

  // -----------------------------------------------------------------------
  // A worked scenario

  /** The top rows of a module sending the numbers 1 to 36, in either orientation. */
  lemma CountingTopRows(data: seq<i32>)
    requires |data| == CELLS && forall k :: 0 <= k < CELLS ==> data[k] == (k + 1) as i32
    ensures Scatter(data, 0)[0] == [1, 2, 5, 6, 9, 10]
    ensures Scatter(data, 1)[0] == [36, 35, 32, 31, 28, 27]
  {
    var left, right := Scatter(data, 0)[0], Scatter(data, 1)[0];
    assert left[0] == data[0] && left[1] == data[1] && left[2] == data[4];
    assert left[3] == data[5] && left[4] == data[8] && left[5] == data[9];
    assert right[0] == data[35] && right[1] == data[34] && right[2] == data[31];
    assert right[3] == data[30] && right[4] == data[27] && right[5] == data[26];
  }

  /** Two grids side by side make a 6x12 matrix whose rows are theirs joined. */
  lemma SideBySide(left: Grid, right: Grid)
    requires IsGrid(left) && IsGrid(right)
    ensures Stitched([[left, right]]).Ok?
    ensures var m := Stitched([[left, right]]).value;
      |m| == 6 && forall a :: 0 <= a < 6 ==> m[a] == left[a] + right[a]
  {
    var grids := [[left, right]];
    assert AllGrids(grids);
    assert FitsFirstRow(grids);
    var m := Stitched(grids).value;
    forall a | 0 <= a < 6
      ensures m[a] == left[a] + right[a]
    {
      assert forall b :: 0 <= b < 12 ==> m[a][b] == CellAt(grids, a, b);
    }
  }

  /** A one-row layout of two modules whose lines decode to `left` and `right`. */
  lemma PairCycle(line: string, left: Grid, right: Grid)
    requires Decode(line, 0) == Ok(left) && Decode(line, 1) == Ok(right)
    ensures FloorCycle([[(line, 0), (line, 1)]]) == Stitched([[left, right]])
  {
    var row: seq<Pending> := [(line, 0), (line, 1)];
    var rs := DecodeAll(row);
    var none: seq<Grid> := [];
    assert rs[..0] == [];
    CollectExtend(rs, 0, none, left);
    assert none + [left] == [left];
    CollectExtend(rs, 1, [left], right);
    assert rs[..2] == rs && [left] + [right] == [left, right];
    var rows: seq<seq<Pending>> := [row];
    var outcomes := seq(1, k requires 0 <= k < 1 => DecodeRow(rows[k]));
    var empty: seq<seq<Grid>> := [];
    assert outcomes[..0] == [];
    CollectExtend(outcomes, 0, empty, [left, right]);
    assert outcomes[..1] == outcomes && empty + [[left, right]] == [[left, right]];
  }

  lemma PairTopRow(line: string, left: Grid, right: Grid)
    requires Decode(line, 0) == Ok(left) && Decode(line, 1) == Ok(right)
    requires left[0] == [1, 2, 5, 6, 9, 10] && right[0] == [36, 35, 32, 31, 28, 27]
    ensures var r := FloorCycle([[(line, 0), (line, 1)]]);
      r.Ok? && |r.value| == 6 && |r.value[0]| == 12 &&
      r.value[0] == [1, 2, 5, 6, 9, 10, 36, 35, 32, 31, 28, 27]
  {
    PairCycle(line, left, right);
    SideBySideTop(left, right);
  }

  lemma SideBySideTop(left: Grid, right: Grid)
    requires IsGrid(left) && IsGrid(right)
    requires left[0] == [1, 2, 5, 6, 9, 10] && right[0] == [36, 35, 32, 31, 28, 27]
    ensures var r := Stitched([[left, right]]);
      r.Ok? && |r.value| == 6 && |r.value[0]| == 12 &&
      r.value[0] == [1, 2, 5, 6, 9, 10, 36, 35, 32, 31, 28, 27]
  {
    SideBySide(left, right);
    var m := Stitched([[left, right]]).value;
    assert m[0] == left[0] + right[0];
  }

  /** Two modules side by side, the right one turned half way, both sending
      the numbers 1 to 36: the top row of the floor interleaves the left
      module's top blocks with the right module's bottom blocks read
      backwards. */
  lemma TwoModuleScenario(data: seq<i32>)
    requires |data| == CELLS && forall k :: 0 <= k < CELLS ==> data[k] == (k + 1) as i32
    ensures var r := FloorCycle([[(SerialLine(data), 0), (SerialLine(data), 1)]]);
      r.Ok? && |r.value| == 6 && |r.value[0]| == 12 &&
      r.value[0] == [1, 2, 5, 6, 9, 10, 36, 35, 32, 31, 28, 27]
  {
    DecodeSerialLine(data, 0);
    DecodeSerialLine(data, 1);
    CountingTopRows(data);
    PairTopRow(SerialLine(data), Scatter(data, 0), Scatter(data, 1));
  }
}
