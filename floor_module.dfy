/** One sensing module (`FloorModule`): the queue its serial reader fills
    and the decoding of its newest line into a 6x6 grid through the
    module's orientation table. */
module FloorModules {
  import opened Wrappers
  import opened Text
  import opened CellIndexMap
  import opened LatestQueue

  /** A module's 6x6 grid of readings, `[[i32; 6]; 6]`. */
  type Grid = seq<seq<i32>>

  predicate IsGrid(g: Grid)
  {
    |g| == SIDE && forall r :: 0 <= r < |g| ==> |g[r]| == SIDE
  }

  /** The conditions on which the floor side of the program panics. */
  datatype Fault =
    | BadToken(token: string)                // a token `parse::<i32>` refuses
    | TooManyTokens(count: nat)              // the table has no entry 36
    | EmptyLayout                            // `modules[0]` of a layout with no rows
    | RowLongerThanFirst(row: nat)           // a grid lands right of the matrix
    | MissingDirection(row: nat, col: nat)   // `module_direction[xi][yi]` out of bounds

  /** The tokens of a serial line: newlines dropped, split on commas. There
      is at least one, none holds a comma, and joined back with commas they
      give the line without its newlines. */
  function Tokens(line: string): (t: seq<string>)
    ensures |t| >= 1 && Join(t, ',') == RemoveChar(line, '\n')
    ensures forall k :: 0 <= k < |t| ==> ',' !in t[k]
  {
    JoinSplit(RemoveChar(line, '\n'), ',');
    Split(RemoveChar(line, '\n'), ',')
  }

  /** `map(|e| e.parse::<i32>().ok().unwrap()).collect()`: every token parsed,
      or the first one that does not parse. */
  function ParseTokens(tokens: seq<string>): (r: Result<seq<i32>, Fault>)
    ensures r.Ok? <==> forall k :: 0 <= k < |tokens| ==> ParseI32(tokens[k]).Some?
    ensures r.Ok? ==>
      |r.value| == |tokens| && forall k :: 0 <= k < |tokens| ==> ParseI32(tokens[k]) == Some(r.value[k])
    ensures r.Err? ==>
      exists k :: 0 <= k < |tokens| && r.error == BadToken(tokens[k]) && ParseI32(tokens[k]).None? &&
        forall j :: 0 <= j < k ==> ParseI32(tokens[j]).Some?
  {
    if |tokens| == 0 then Ok([])
    else
      match ParseI32(tokens[0])
      case None => Err(BadToken(tokens[0]))
      case Some(v) =>
        match ParseTokens(tokens[1..])
        case Ok(rest) => Ok([v] + rest)
        case Err(f) =>
          assert forall k :: 1 <= k < |tokens| ==> tokens[k] == tokens[1..][k - 1];
          Err(f)
  }

  /** The grid that `read_cells` fills from at most 36 numbers: the cell the
      table gives for index k holds number k, all other cells stay 0. */
  function Scatter(data: seq<i32>, direction: int): (g: Grid)
    requires |data| <= CELLS
    ensures IsGrid(g)
  {
    seq(SIDE, r requires 0 <= r < SIDE =>
      seq(SIDE, c requires 0 <= c < SIDE =>
        var k := PositionIn(direction, r, c);
        if k < |data| then data[k] else 0))
  }

  /** The 36 numbers read back from a grid in table order. */
  function Gather(g: Grid, table: seq<Cell>): (data: seq<i32>)
    requires IsGrid(g) && |table| == CELLS && forall i :: 0 <= i < CELLS ==> InGrid(table[i])
    ensures |data| == CELLS
  {
    seq(CELLS, i requires 0 <= i < CELLS => assert InGrid(table[i]); g[table[i].0][table[i].1])
  }

  /** What `read_cells` makes of one line. */
  function Decode(line: string, direction: int): (r: Result<Grid, Fault>)
    ensures r.Ok? ==> IsGrid(r.value)
  {
    match ParseTokens(Tokens(line))
    case Err(f) => Err(f)
    case Ok(data) =>
      if |data| > CELLS then Err(TooManyTokens(|data|)) else Ok(Scatter(data, direction))
  }

  /** The body of `read_cells` once a line was read: the tokens are parsed,
      then stored through the orientation table. */
  method DecodeCells(line: string, direction: int) returns (r: Result<Grid, Fault>)
    ensures r == Decode(line, direction)
  {
    var parsed := ParseTokens(Tokens(line));
    if parsed.Err? {
      return Err(parsed.error);
    }
    var table := TableFor(direction);
    TableInverse(direction);
    r := StoreCells(parsed.value, table, direction);
  }

  /** The `for` loop of `read_cells`: `cells[table[i]] = data[i]` for each
      number, starting from an all-zero grid; index 36 of the table does
      not exist, so a 37th number is a panic. */
  method StoreCells(data: seq<i32>, table: seq<Cell>, direction: int) returns (r: Result<Grid, Fault>)
    requires Inverts(table, direction)
    ensures |data| > CELLS ==> r == Err(TooManyTokens(|data|))
    ensures |data| <= CELLS ==> r == Ok(Scatter(data, direction))
  {
    var cells: Grid := seq(SIDE, _ => seq(SIDE, _ => 0));
    forall r | 0 <= r < SIDE ensures cells[r] == Scatter(data[..0], direction)[r] {
    }
    for i := 0 to |data|
      invariant i <= CELLS
      invariant cells == Scatter(data[..i], direction)
    {
      if i >= CELLS {
        return Err(TooManyTokens(|data|));
      }
      var (row, col) := table[i];
      ScatterStep(data[..i + 1], table, direction);
      assert data[..i + 1][..i] == data[..i];
      cells := cells[row := cells[row][col := data[i]]];
    }
    assert data[..|data|] == data;
    return Ok(cells);
  }

  /** Storing one more number changes exactly the cell its table entry names. */
  lemma ScatterStep(data: seq<i32>, table: seq<Cell>, direction: int)
    requires Inverts(table, direction) && 1 <= |data| <= CELLS
    ensures var k := |data| - 1; var g := Scatter(data[..k], direction);
      Scatter(data, direction) == g[table[k].0 := g[table[k].0][table[k].1 := data[k]]]
  {
    var k := |data| - 1;
    var g, h := Scatter(data[..k], direction), Scatter(data, direction);
    var (row, col) := table[k];
    var g' := g[row := g[row][col := data[k]]];
    assert PositionIn(direction, row, col) == k;
    forall r | 0 <= r < SIDE ensures h[r] == g'[r] {
      assert |h[r]| == |g'[r]| == SIDE;
      forall c | 0 <= c < SIDE ensures h[r][c] == g'[r][c] {
        var p := PositionIn(direction, r, c);
        assert table[p] == (r, c);
        if p == k {
          assert (r, c) == (row, col);
          assert h[r][c] == data[k];
        } else {
          assert (r, c) != (row, col);
          assert g'[r][c] == g[r][c];
          assert h[r][c] == if p < k then data[p] else 0;
          assert g[r][c] == if p < k then data[..k][p] else 0;
        }
      }
    }
  }

  /** Decoding fails exactly on a token that is not an `i32` or on more than
      36 tokens. */
  lemma DecodeFails(line: string, direction: int)
    ensures Decode(line, direction).Err? <==>
      (exists k :: 0 <= k < |Tokens(line)| && ParseI32(Tokens(line)[k]).None?) || |Tokens(line)| > CELLS
  {
  }

  /** A decoded line puts number i into the cell the table names for i and
      leaves every cell that no number names at 0. */
  lemma DecodePlaces(line: string, direction: int)
    ensures Decode(line, direction).Ok? ==>
      var data := ParseTokens(Tokens(line)).value;
      |data| <= CELLS && ScatterPlaces(data, TableFor(direction), Decode(line, direction).value)
  {
    var parsed := ParseTokens(Tokens(line));
    if parsed.Ok? && |parsed.value| <= CELLS {
      TableInverse(direction);
      ScatterPlacesAll(parsed.value, TableFor(direction), direction);
    }
  }

  /** Number i sits in the cell table[i]; a cell no number is meant for holds 0. */
  ghost predicate ScatterPlaces(data: seq<i32>, table: seq<Cell>, g: Grid)
    requires |data| <= |table| && forall i :: 0 <= i < |table| ==> InGrid(table[i])
  {
    IsGrid(g) &&
    (forall i :: 0 <= i < |data| ==> InGrid(table[i]) && g[table[i].0][table[i].1] == data[i]) &&
    (forall r: nat, c: nat :: r < SIDE && c < SIDE && (forall i :: 0 <= i < |data| ==> table[i] != (r, c)) ==>
       g[r][c] == 0)
  }

  lemma ScatterPlacesAll(data: seq<i32>, table: seq<Cell>, direction: int)
    requires Inverts(table, direction) && |data| <= CELLS
    ensures ScatterPlaces(data, table, Scatter(data, direction))
  {
    var g := Scatter(data, direction);
    forall r: nat, c: nat | r < SIDE && c < SIDE && (forall i :: 0 <= i < |data| ==> table[i] != (r, c))
      ensures g[r][c] == 0
    {
      var k := PositionIn(direction, r, c);
      assert table[k] == (r, c);
    }
  }

  /** Reading the cells back in table order recovers 36 numbers. */
  lemma GatherScatter(data: seq<i32>, table: seq<Cell>, direction: int)
    requires Inverts(table, direction) && |data| == CELLS
    ensures Gather(Scatter(data, direction), table) == data
  {
  }

  /** Scattering what was gathered rebuilds the grid. */
  lemma ScatterGather(g: Grid, table: seq<Cell>, direction: int)
    requires Inverts(table, direction) && IsGrid(g)
    ensures Scatter(Gather(g, table), direction) == g
  {
    var h := Scatter(Gather(g, table), direction);
    forall r | 0 <= r < SIDE ensures h[r] == g[r] {
      forall c | 0 <= c < SIDE ensures h[r][c] == g[r][c] {
        var k := PositionIn(direction, r, c);
        assert table[k] == (r, c);
      }
    }
  }

  /** Both tables: decoding 36 numbers and reading them back round-trips,
      and so does reading a grid out and decoding it again. */
  lemma OrientationRoundTrip(data: seq<i32>, g: Grid, direction: int)
    requires |data| == CELLS && IsGrid(g)
    ensures Gather(Scatter(data, direction), TableFor(direction)) == data
    ensures Scatter(Gather(g, TableFor(direction)), direction) == g
  {
    TableInverse(direction);
    GatherScatter(data, TableFor(direction), direction);
    ScatterGather(g, TableFor(direction), direction);
  }

  /** The rendered numbers hold no separator of either format. */
  lemma ShownPieces(data: seq<i32>)
    ensures forall k :: 0 <= k < |data| ==>
      ',' !in ShowI32(data[k]) && ';' !in ShowI32(data[k]) && ':' !in ShowI32(data[k]) && '\n' !in ShowI32(data[k])
  {
    forall k | 0 <= k < |data|
      ensures ',' !in ShowI32(data[k]) && ';' !in ShowI32(data[k]) && ':' !in ShowI32(data[k]) && '\n' !in ShowI32(data[k])
    {
      ShowI32HasNoSeparator(data[k]);
      assert forall ch :: ch in ShowI32(data[k]) ==> ch == '-' || IsDigit(ch);
    }
  }

  /** Numbers written out with `to_string` and joined by commas: a module's
      serial line without its newline, and one row of a frame. The text
      holds no newline, ':' or ';', and its comma-separated pieces are the
      rendered numbers. */
  function NumbersText(data: seq<i32>): (s: string)
    ensures '\n' !in s && ':' !in s && ';' !in s
    ensures |data| >= 1 ==> Split(s, ',') == seq(|data|, k requires 0 <= k < |data| => ShowI32(data[k]))
  {
    var shown := seq(|data|, k requires 0 <= k < |data| => ShowI32(data[k]));
    ShownPieces(data);
    if |data| == 0 then JoinAll(shown, ',')
    else
      JoinHasNo(shown, ',', '\n');
      JoinHasNo(shown, ',', ':');
      JoinHasNo(shown, ',', ';');
      JoinAll(shown, ',')
  }

  /** A well-formed serial line: numbers joined by commas, newline-terminated. */
  function SerialLine(data: seq<i32>): string
  {
    NumbersText(data) + "\n"
  }

  lemma RemoveCharAppend(s: string, t: string, ch: char)
    ensures RemoveChar(s + t, ch) == RemoveChar(s, ch) + RemoveChar(t, ch)
    decreases |s|
  {
    if |s| > 0 {
      assert (s + t)[1..] == s[1..] + t;
      RemoveCharAppend(s[1..], t, ch);
    } else {
      assert s + t == t;
    }
  }

  lemma {:induction false} JoinHasNo(parts: seq<string>, d: char, ch: char)
    requires |parts| >= 1 && ch != d
    requires forall k :: 0 <= k < |parts| ==> ch !in parts[k]
    ensures ch !in Join(parts, d)
    decreases |parts|
  {
    if |parts| > 1 {
      JoinHasNo(parts[1..], d, ch);
    }
  }

  /** Splitting a non-empty list of numbers on commas and parsing every token
      gives the numbers back; the text holds no newline, colon or semicolon. */
  lemma NumbersRoundTrip(data: seq<i32>)
    requires |data| >= 1
    ensures ParseTokens(Split(NumbersText(data), ',')) == Ok(data)
    ensures '\n' !in NumbersText(data) && ':' !in NumbersText(data) && ';' !in NumbersText(data)
  {
    var shown := seq(|data|, k requires 0 <= k < |data| => ShowI32(data[k]));
    assert Split(NumbersText(data), ',') == shown;
    forall k | 0 <= k < |shown| ensures ParseI32(shown[k]) == Some(data[k]) {
      ParseShowI32(data[k]);
    }
    var parsed := ParseTokens(shown);
    assert parsed.Ok?;
    assert parsed.value == data;
  }

  /** A well-formed serial line of 36 numbers decodes to the grid they scatter
      to, so reading it back in table order gives the numbers again. */
  lemma DecodeSerialLine(data: seq<i32>, direction: int)
    requires |data| == CELLS
    ensures Decode(SerialLine(data), direction) == Ok(Scatter(data, direction))
    ensures Gather(Decode(SerialLine(data), direction).value, TableFor(direction)) == data
  {
    var text := NumbersText(data);
    NumbersRoundTrip(data);
    RemoveCharAppend(text, "\n", '\n');
    assert RemoveChar(text, '\n') == text;
    assert RemoveChar("\n", '\n') == "";
    assert RemoveChar(text + "\n", '\n') == text + "" == text;
    assert Tokens(text + "\n") == Split(text, ',');
    assert ParseTokens(Tokens(SerialLine(data))) == Ok(data);
    OrientationRoundTrip(data, Scatter(data, direction), direction);
  }

  /** What `read_cells` returns for the newest queued line, if any. */
  function CellsOf(newest: Option<string>, direction: int): Result<Option<Grid>, Fault>
  {
    match newest
    case None => Ok(None)
    case Some(line) =>
      match Decode(line, direction)
      case Ok(g) => Ok(Some(g))
      case Err(f) => Err(f)
  }

  /** A module: the queue its serial reader pushes every line into, and its
      orientation (0 for the identity table, anything else for the half turn). */
  class FloorModule {
    const queue: Latest<string>
    const direction: i32

    constructor (direction: i32)
      ensures this.direction == direction
      ensures fresh(queue) && queue.items == []
    {
      this.direction := direction;
      queue := new Latest<string>();
    }

    /** `data_available`: a read now yields a line to decode. */
    predicate DataAvailable()
      reads this, queue
      ensures DataAvailable() <==> Newest(queue.items).Some?
    {
      queue.DataAvailable()
    }

    /** `read_cells`: drain the queue and decode the newest line. */
    method ReadCells() returns (r: Result<Option<Grid>, Fault>)
      modifies queue
      ensures queue.items == []
      ensures r == CellsOf(Newest(old(queue.items)), direction)
      ensures old(queue.items) == [] ==> r == Ok(None)
    {
      var line := queue.Read();
      if line.None? {
        return Ok(None);
      }
      var g := DecodeCells(line.value, direction);
      r := match g
        case Ok(cells) => Ok(Some(cells))
        case Err(f) => Err(f);
    }
  }
}
