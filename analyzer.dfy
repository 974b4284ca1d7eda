/** The board analyzer of src/analyzer.rs: per-colour metrics of a board and the enumerator
    of candidate actions. The analyzer only reads the board it was made for, so every member
    here takes the board value. */
module Analyzer {
  import opened Options
  import opened Player
  import opened Pieces
  import opened Geometry
  import opened Stash
  import opened Boards
  import opened Actions
  import opened Lines
  import opened Rules

  /** `Metric<u16>`: one count per colour (`new` is `Metric(0, 0)`, `for_values(r, b)` is
      `Metric(r, b)`). */
  datatype Metric = Metric(red: nat, blk: nat) {

    /** `of(c)`. */
    function Of(c: Color): nat
    {
      match c
      case Red => red
      case Blk => blk
    }

    /** The metric after `*of_mut(c) = x`: `of` reads back what was written there, and the
        other colour keeps its value. */
    function With(c: Color, x: nat): (r: Metric)
      ensures r.Of(c) == x && r.Of(Opponent(c)) == Of(Opponent(c))
    {
      match c
      case Red => Metric(x, blk)
      case Blk => Metric(red, x)
    }
  }

  /** A square and its stack, as the board iterator's `with_pos` yields them. */
  type Field = (Position, Stack)

  /** Row `r` of the grid as fields, column by column. */
  function RowFields(r: nat, row: seq<Stack>): (fs: seq<Field>)
    ensures |fs| == |row|
    ensures forall c {:trigger fs[c]} :: 0 <= c < |row| ==> fs[c] == (Position(r, c), row[c])
  {
    seq(|row|, c requires 0 <= c < |row| => (Position(r, c), row[c]))
  }

  /** Every field names a square of the grid and carries that square's stack. */
  ghost predicate FieldsInGrid(g: Grid, fs: seq<Field>)
  {
    forall i {:trigger fs[i]} :: 0 <= i < |fs| ==>
      fs[i].0.row < |g| && fs[i].0.col < |g[fs[i].0.row]| && fs[i].1 == g[fs[i].0.row][fs[i].0.col]
  }

  /** Every square of the grid has its field. */
  ghost predicate FieldsCover(g: Grid, fs: seq<Field>)
  {
    forall p: Position {:trigger g[p.row][p.col]} :: p.row < |g| && p.col < |g[p.row]| ==>
      (p, g[p.row][p.col]) in fs
  }

  /** No square has two fields. */
  ghost predicate FieldsDistinct(fs: seq<Field>)
  {
    forall i, j {:trigger fs[i], fs[j]} :: 0 <= i < j < |fs| ==> fs[i].0 != fs[j].0
  }

  /** No entry is listed twice. */
  ghost predicate Distinct<T>(s: seq<T>)
  {
    forall i, j {:trigger s[i], s[j]} :: 0 <= i < j < |s| ==> s[i] != s[j]
  }

  /** Two lists without repeats and without common entries make one list without repeats. */
  lemma DistinctConcat<T>(a: seq<T>, b: seq<T>)
    requires Distinct(a) && Distinct(b)
    requires forall x :: x in a ==> x !in b
    ensures Distinct(a + b)
  {
    var s := a + b;
    forall i, j | 0 <= i < j < |s|
      ensures s[i] != s[j]
    {
      if j < |a| {
        assert s[i] == a[i] && s[j] == a[j];
      } else if i >= |a| {
        assert s[i] == b[i - |a|] && s[j] == b[j - |a|];
      } else {
        assert s[i] == a[i] && a[i] in a && s[j] == b[j - |a|];
      }
    }
  }

  /** The board's squares with their stacks, row by row: every square of the grid appears,
      each exactly once, together with its stack. */
  function Fields(g: Grid): (fs: seq<Field>)
    ensures FieldsInGrid(g, fs) && FieldsCover(g, fs) && FieldsDistinct(fs)
  {
    if g == [] then []
    else
      var k := |g| - 1;
      var front := Fields(g[..k]);
      FieldsAppendRow(g, front);
      front + RowFields(k, g[k])
  }

  /** Appending the fields of the last row to those of the rows before it keeps all three
      properties. */
  lemma FieldsAppendRow(g: Grid, front: seq<Field>)
    requires g != [] && FieldsInGrid(g[..|g| - 1], front) && FieldsCover(g[..|g| - 1], front)
    requires FieldsDistinct(front)
    ensures var k := |g| - 1; var fs := front + RowFields(k, g[k]);
      FieldsInGrid(g, fs) && FieldsCover(g, fs) && FieldsDistinct(fs)
  {
    var k := |g| - 1;
    var last := RowFields(k, g[k]);
    var fs := front + last;
    assert forall i :: 0 <= i < |front| ==> fs[i] == front[i] && fs[i].0.row < k;
    assert forall c :: 0 <= c < |last| ==> fs[|front| + c] == last[c];
    forall p: Position | p.row < |g| && p.col < |g[p.row]|
      ensures (p, g[p.row][p.col]) in fs
    {
      if p.row < k {
        assert g[..k][p.row][p.col] == g[p.row][p.col];
        var i :| 0 <= i < |front| && front[i] == (p, g[p.row][p.col]);
        assert fs[i] == front[i];
      } else {
        assert fs[|front| + p.col] == last[p.col];
      }
    }
  }

  /** The fields of a board are exactly its squares with their stacks. */
  lemma FieldsOfBoard(st: BoardState, p: Position, s: Stack)
    requires st.Valid()
    ensures (p, s) in Fields(st.cells) <==> st.ValidPos(p) && s == st.At(p)
  {
    var fs := Fields(st.cells);
    if (p, s) in fs {
      var i :| 0 <= i < |fs| && fs[i] == (p, s);
    }
  }

  /** One step of the fold in `absolute_road_dominance`: a stack with a colour adds one to it. */
  function Tally(m: Metric, s: Stack): Metric
  {
    match s.TopColor()
    case Some(c) => m.With(c, m.Of(c) + 1)
    case None => m
  }

  /** A tally step adds one to exactly the colour on top of the stack. */
  lemma TallyOf(m: Metric, s: Stack, c: Color)
    ensures Tally(m, s).Of(c) == m.Of(c) + if s.TopColor() == Some(c) then 1 else 0
  {
  }

  /** The fold over the fields `fs`, from `Metric::new()`. */
  function Dominance(fs: seq<Field>): Metric
  {
    if fs == [] then Metric(0, 0) else Tally(Dominance(fs[..|fs| - 1]), fs[|fs| - 1].1)
  }

  /** The two square properties the metric counts by. */
  datatype Filter = ToppedBy(c: Color) | Occupied

  predicate Keeps(flt: Filter, s: Stack)
  {
    match flt
    case ToppedBy(c) => s.TopColor() == Some(c)
    case Occupied => !s.IsEmpty()
  }

  /** The squares among the fields `fs` whose stack passes `flt`. */
  ghost function Selected(fs: seq<Field>, flt: Filter): set<Position>
  {
    set f | f in fs && Keeps(flt, f.1) :: f.0
  }

  /** The squares of the board whose stack passes `flt`. */
  ghost function SelectedSquares(st: BoardState, flt: Filter): set<Position>
    requires st.Valid()
  {
    set r, col | 0 <= r < st.Size() && 0 <= col < st.Size() && Keeps(flt, st.At(Position(r, col))) ::
      Position(r, col)
  }

  /** A field appended to `front` adds its square when it passes `flt`. */
  lemma SelectedAppend(front: seq<Field>, x: Field, flt: Filter)
    ensures Selected(front + [x], flt) == Selected(front, flt) + (if Keeps(flt, x.1) then {x.0} else {})
  {
    var fs := front + [x];
    forall f | f in fs
      ensures f in front || f == x
    {
      var i :| 0 <= i < |fs| && fs[i] == f;
      if i < |front| {
        assert front[i] == f;
      }
    }
    assert x in fs;
    forall f | f in front
      ensures f in fs
    {
      var i :| 0 <= i < |front| && front[i] == f;
      assert fs[i] == f;
    }
  }

  /** A square that no field of `front` has is in none of its selections. */
  lemma SelectedFresh(front: seq<Field>, p: Position, flt: Filter)
    requires forall i {:trigger front[i]} :: 0 <= i < |front| ==> front[i].0 != p
    ensures p !in Selected(front, flt)
  {
    forall f | f in front
      ensures f.0 != p
    {
      var i :| 0 <= i < |front| && front[i] == f;
    }
  }

  /** Over fields with distinct squares the fold counts, per colour, the squares that colour
      tops. */
  lemma {:induction false} DominanceCounts(fs: seq<Field>)
    requires forall i, j {:trigger fs[i], fs[j]} :: 0 <= i < j < |fs| ==> fs[i].0 != fs[j].0
    ensures forall c :: Dominance(fs).Of(c) == |Selected(fs, ToppedBy(c))|
  {
    if fs == [] {
      assert Selected(fs, ToppedBy(Red)) == {} && Selected(fs, ToppedBy(Blk)) == {};
    } else {
      var k := |fs| - 1;
      var front := fs[..k];
      var x := fs[k];
      DominanceCounts(front);
      assert fs == front + [x];
      assert forall i {:trigger front[i]} :: 0 <= i < |front| ==> front[i].0 != x.0 by {
        forall i | 0 <= i < |front|
          ensures front[i].0 != x.0
        {
          assert front[i] == fs[i];
        }
      }
      assert Dominance(fs) == Tally(Dominance(front), x.1);
      forall c
        ensures Dominance(fs).Of(c) == |Selected(fs, ToppedBy(c))|
      {
        TallyOf(Dominance(front), x.1, c);
        SelectedAppend(front, x, ToppedBy(c));
        SelectedFresh(front, x.0, ToppedBy(c));
      }
    }
  }

  /** Every occupied square is topped by exactly one colour. */
  lemma OccupiedSplits(fs: seq<Field>)
    requires forall i, j {:trigger fs[i], fs[j]} :: 0 <= i < j < |fs| ==> fs[i].0 != fs[j].0
    ensures Selected(fs, Occupied) == Selected(fs, ToppedBy(Red)) + Selected(fs, ToppedBy(Blk))
    ensures Selected(fs, ToppedBy(Red)) !! Selected(fs, ToppedBy(Blk))
  {
    forall p | p in Selected(fs, Occupied)
      ensures p in Selected(fs, ToppedBy(Red)) + Selected(fs, ToppedBy(Blk))
    {
      var f :| f in fs && Keeps(Occupied, f.1) && f.0 == p;
      assert Keeps(ToppedBy(f.1.top.color), f.1);
    }
    forall p | p in Selected(fs, ToppedBy(Red))
      ensures p !in Selected(fs, ToppedBy(Blk))
    {
      var f :| f in fs && Keeps(ToppedBy(Red), f.1) && f.0 == p;
      var i :| 0 <= i < |fs| && fs[i] == f;
      forall g | g in fs && g.0 == p
        ensures g == f
      {
        var j :| 0 <= j < |fs| && fs[j] == g;
        assert i == j;
      }
    }
  }

  /** The fields of a board select the same squares as the board itself. */
  lemma SelectedOfBoard(st: BoardState, flt: Filter)
    requires st.Valid()
    ensures Selected(Fields(st.cells), flt) == SelectedSquares(st, flt)
  {
    var fs := Fields(st.cells);
    forall p | p in Selected(fs, flt)
      ensures p in SelectedSquares(st, flt)
    {
      var f :| f in fs && Keeps(flt, f.1) && f.0 == p;
      FieldsOfBoard(st, p, f.1);
    }
    forall p | p in SelectedSquares(st, flt)
      ensures p in Selected(fs, flt)
    {
      FieldsOfBoard(st, p, st.At(p));
    }
  }

  /** The fold over the board's fields counts, per colour, the squares that colour tops. */
  lemma DominanceOfBoard(st: BoardState)
    requires st.Valid()
    ensures forall c :: Dominance(Fields(st.cells)).Of(c) == |SelectedSquares(st, ToppedBy(c))|
    ensures SelectedSquares(st, Occupied) == SelectedSquares(st, ToppedBy(Red)) + SelectedSquares(st, ToppedBy(Blk))
    ensures SelectedSquares(st, ToppedBy(Red)) !! SelectedSquares(st, ToppedBy(Blk))
  {
    var fs := Fields(st.cells);
    DominanceCounts(fs);
    forall c
      ensures Dominance(fs).Of(c) == |SelectedSquares(st, ToppedBy(c))|
    {
      SelectedOfBoard(st, ToppedBy(c));
    }
    OccupiedSplits(fs);
    SelectedOfBoard(st, ToppedBy(Red));
    SelectedOfBoard(st, ToppedBy(Blk));
    SelectedOfBoard(st, Occupied);
  }

  /** `absolute_road_dominance`: per colour the number of squares whose top piece has that
      colour; red plus black is the number of occupied squares. */
  function AbsoluteRoadDominance(st: BoardState): (r: Metric)
    requires st.Valid()
    ensures forall c :: r.Of(c) == |SelectedSquares(st, ToppedBy(c))|
    ensures r.red + r.blk == |SelectedSquares(st, Occupied)|
  {
    DominanceOfBoard(st);
    Dominance(Fields(st.cells))
  }

  /** `stones_left`: each colour's stone counter. */
  function StonesLeft(st: BoardState): (r: Metric)
    ensures forall c :: r.Of(c) == st.StashOf(c).stones
  {
    Metric(st.PieceCount(Red, Stone), st.PieceCount(Blk, Stone))
  }

  /** `caps_left`: each colour's cap stone counter. */
  function CapsLeft(st: BoardState): (r: Metric)
    ensures forall c :: r.Of(c) == st.StashOf(c).caps
  {
    Metric(st.PieceCount(Red, CapStone), st.PieceCount(Blk, CapStone))
  }

  /** Placing a piece lowers exactly one of the four metrics `stones_left`/`caps_left`, by one:
      the placing colour's counter for that kind. */
  lemma PlacingLowersOneMetric(st: BoardState, piece: Piece, pos: Position)
    requires st.Valid() && st.ValidPos(pos) && st.At(pos).IsEmpty()
    requires st.PieceCount(piece.color, piece.kind) > 0
    ensures var after := st.Placed(piece, pos);
      if piece.kind == CapStone then
        CapsLeft(after) == CapsLeft(st).With(piece.color, CapsLeft(st).Of(piece.color) - 1) &&
        StonesLeft(after) == StonesLeft(st)
      else
        StonesLeft(after) == StonesLeft(st).With(piece.color, StonesLeft(st).Of(piece.color) - 1) &&
        CapsLeft(after) == CapsLeft(st)
  {
    var after := st.Placed(piece, pos);
    var c := piece.color;
    assert after.PieceCount(Opponent(c), Stone) == st.PieceCount(Opponent(c), Stone);
    assert after.PieceCount(Opponent(c), CapStone) == st.PieceCount(Opponent(c), CapStone);
    if piece.kind == CapStone {
      assert after.PieceCount(c, Stone) == st.PieceCount(c, Stone);
    } else {
      assert after.PieceCount(c, CapStone) == st.PieceCount(c, CapStone);
      assert after.PieceCount(c, Stone) == after.PieceCount(c, piece.kind);
    }
  }

  /** `space_to_border` in `make_slides`: how many squares lie between `src` and the edge in
      direction `dir`. */
  function SpaceToBorder(size: nat, src: Position, dir: Direction): nat
    requires OnBoard(size, src)
  {
    match dir
    case North => size - 1 - src.row
    case South => src.row
    case East => size - 1 - src.col
    case West => src.col
  }

  /** A walk of `k` hops stays on the board exactly when `k` is at most the space to the border. */
  lemma SpaceToBorderBounds(size: nat, src: Position, dir: Direction, k: nat)
    requires OnBoard(size, src)
    ensures InBounds(size, src, dir, k) <==> k <= SpaceToBorder(size, src, dir)
  {
  }

  function Sum(d: seq<nat>): nat
  {
    if d == [] then 0 else d[0] + Sum(d[1..])
  }

  /** A list of positive numbers sums to at least its length. */
  lemma {:induction false} SumOfPositive(d: seq<nat>)
    requires Positive(d)
    ensures Sum(d) >= |d|
  {
    if d != [] {
      SumOfPositive(d[1..]);
    }
  }

  /** `distribute(pieces, parts)` as written: the splits of `pieces` into `parts` counts, all
      concatenated into one list, with `taken` running over `1..=(pieces - parts)`; `None` where
      `pieces - parts` underflows `usize`. */
  function DistributeAsWritten(pieces: nat, parts: nat): Option<seq<nat>>
    requires parts >= 1
    decreases parts, pieces
  {
    if parts == 1 then Some([pieces])
    else if pieces < parts then None
    else DistributeFromAsWritten(1, pieces, parts)
  }

  /** The `flat_map` over `taken` from `taken` to `pieces - parts`. */
  function DistributeFromAsWritten(taken: nat, pieces: nat, parts: nat): Option<seq<nat>>
    requires parts >= 2 && 1 <= taken <= pieces - parts + 1 && pieces >= parts
    decreases parts, pieces - taken
  {
    if taken > pieces - parts then Some([])
    else
      match DistributeAsWritten(pieces - taken, parts - 1)
      case None => None
      case Some(rest) =>
        match DistributeFromAsWritten(taken + 1, pieces, parts)
        case None => None
        case Some(more) => Some([taken] + rest + more)
  }

  /** As written, `distribute` runs the splits together into one flat list, misses the split
      into ones, and underflows when there are fewer pieces than parts. */
  lemma DistributeAsWrittenWitnesses()
    ensures DistributeAsWritten(4, 2) == Some([1, 3, 2, 2])
    ensures DistributeAsWritten(2, 2) == Some([])
    ensures DistributeAsWritten(1, 2) == None
  {
    assert DistributeFromAsWritten(3, 4, 2) == Some([]);
    assert DistributeAsWritten(2, 1) == Some([2]);
    assert [2] + [2] + [] == [2, 2];
    assert DistributeFromAsWritten(2, 4, 2) == Some([2, 2]);
    assert DistributeAsWritten(3, 1) == Some([3]);
    assert [1] + [3] + [2, 2] == [1, 3, 2, 2];
    assert DistributeFromAsWritten(1, 4, 2) == Some([1, 3, 2, 2]);
  }

  /** `[t] + d` for each `d` of `ds`. */
  function Prefixed(t: nat, ds: seq<seq<nat>>): (r: seq<seq<nat>>)
    ensures |r| == |ds|
    ensures forall i {:trigger r[i]} :: 0 <= i < |ds| ==> r[i] == [t] + ds[i]
  {
    seq(|ds|, i requires 0 <= i < |ds| => [t] + ds[i])
  }

  /** `distribute` as intended: every way to split `pieces` into `parts` positive counts, one
      list per way, the first count running from 1 up to what leaves one piece per remaining
      part. */
  function Distribute(pieces: nat, parts: nat): seq<seq<nat>>
    requires parts >= 1
    decreases parts, pieces + 1
  {
    if parts == 1 then [[pieces]] else DistributeFrom(1, pieces, parts)
  }

  function DistributeFrom(taken: nat, pieces: nat, parts: nat): seq<seq<nat>>
    requires parts >= 2 && 1 <= taken <= pieces + 1
    decreases parts, pieces + 1 - taken
  {
    if taken + parts - 1 > pieces then []
    else Prefixed(taken, Distribute(pieces - taken, parts - 1)) + DistributeFrom(taken + 1, pieces, parts)
  }

  /** The splits `Distribute` lists are exactly the lists of `parts` positive counts summing
      to `pieces`. */
  lemma {:induction false} DistributeMembers(pieces: nat, parts: nat, d: seq<nat>)
    requires parts >= 1 && pieces >= 1
    ensures d in Distribute(pieces, parts) <==> |d| == parts && Positive(d) && Sum(d) == pieces
    decreases parts, pieces + 1
  {
    if parts == 1 {
      if |d| == 1 {
        assert d[1..] == [] && d == [d[0]];
      }
    } else {
      DistributeFromMembers(1, pieces, parts, d);
    }
  }

  lemma {:induction false} DistributeFromMembers(taken: nat, pieces: nat, parts: nat, d: seq<nat>)
    requires parts >= 2 && 1 <= taken <= pieces + 1
    ensures d in DistributeFrom(taken, pieces, parts) <==>
      |d| == parts && Positive(d) && Sum(d) == pieces && d[0] >= taken
    decreases parts, pieces + 1 - taken
  {
    if taken + parts - 1 > pieces {
      if |d| == parts && Positive(d) && d[0] >= taken {
        SumOfPositive(d[1..]);
        assert Positive(d[1..]) by {
          forall i | 0 <= i < |d[1..]|
            ensures d[1..][i] > 0
          {
            assert d[1..][i] == d[i + 1];
          }
        }
      }
    } else {
      var here := Prefixed(taken, Distribute(pieces - taken, parts - 1));
      var later := DistributeFrom(taken + 1, pieces, parts);
      assert DistributeFrom(taken, pieces, parts) == here + later;
      DistributeFromMembers(taken + 1, pieces, parts, d);
      if |d| > 0 {
        DistributeMembers(pieces - taken, parts - 1, d[1..]);
        assert d == [d[0]] + d[1..];
        assert Positive(d) <==> d[0] > 0 && Positive(d[1..]) by {
          if d[0] > 0 && Positive(d[1..]) {
            forall i | 0 <= i < |d|
              ensures d[i] > 0
            {
              if i > 0 {
                assert d[i] == d[1..][i - 1];
              }
            }
          }
          if Positive(d) {
            forall i | 0 <= i < |d[1..]|
              ensures d[1..][i] > 0
            {
              assert d[1..][i] == d[i + 1];
            }
          }
        }
        if d in here {
          var i :| 0 <= i < |here| && here[i] == d;
          assert d[1..] == Distribute(pieces - taken, parts - 1)[i];
        }
        if d[0] == taken && d[1..] in Distribute(pieces - taken, parts - 1) {
          var i :| 0 <= i < |Distribute(pieces - taken, parts - 1)| && Distribute(pieces - taken, parts - 1)[i] == d[1..];
          assert here[i] == d;
        }
      } else {
        assert d !in here;
      }
    }
  }

  /** The carries of `Slide` for the drop counts `d`, the pieces left on each square of the walk
      after the source: entry `i` is what is still carried from square `i`, the sum of `d[i..]`. */
  function CarriesOf(d: seq<nat>): (r: seq<nat>)
    ensures |r| == |d|
  {
    if d == [] then [] else [Sum(d)] + CarriesOf(d[1..])
  }

  /** Positive drop counts make positive, strictly decreasing carries that start with their sum. */
  lemma {:induction false} CarriesOfShape(d: seq<nat>)
    requires |d| > 0 && Positive(d)
    ensures CarriesOf(d)[0] == Sum(d) && Positive(CarriesOf(d)) && StrictlyDecreasing(CarriesOf(d))
  {
    var v := CarriesOf(d);
    if |d| > 1 {
      var rest := d[1..];
      assert Positive(rest) by {
        forall i | 0 <= i < |rest|
          ensures rest[i] > 0
        {
          assert rest[i] == d[i + 1];
        }
      }
      CarriesOfShape(rest);
      var w := CarriesOf(rest);
      assert v == [Sum(d)] + w;
      forall i, j | 0 <= i < j < |v|
        ensures v[i] > v[j]
      {
        if i > 0 {
          assert v[i] == w[i - 1] && v[j] == w[j - 1];
        } else {
          assert v[j] == w[j - 1];
          assert w[j - 1] <= w[0] by {
            if j - 1 > 0 {
              assert w[0] > w[j - 1];
            }
          }
        }
      }
    }
  }

  /** The drop counts of a strictly decreasing carry list: what each square of the walk keeps. */
  function DropsOf(v: seq<nat>): (r: seq<nat>)
    requires StrictlyDecreasing(v)
    ensures |r| == |v|
  {
    if |v| <= 1 then v
    else
      assert StrictlyDecreasing(v[1..]) by {
        forall i, j | 0 <= i < j < |v[1..]|
          ensures v[1..][i] > v[1..][j]
        {
          assert v[1..][i] == v[i + 1] && v[1..][j] == v[j + 1];
        }
      }
      [v[0] - v[1]] + DropsOf(v[1..])
  }

  /** Every positive, strictly decreasing carry list comes from positive drop counts that sum
      to its first carry. */
  lemma {:induction false} DropsRebuild(v: seq<nat>)
    requires |v| > 0 && Positive(v) && StrictlyDecreasing(v)
    ensures Positive(DropsOf(v)) && Sum(DropsOf(v)) == v[0] && CarriesOf(DropsOf(v)) == v
  {
    var d := DropsOf(v);
    if |v| == 1 {
      assert d[1..] == [];
    } else {
      var rest := v[1..];
      assert Positive(rest) && StrictlyDecreasing(rest) by {
        forall i | 0 <= i < |rest|
          ensures rest[i] > 0
        {
          assert rest[i] == v[i + 1];
        }
        forall i, j | 0 <= i < j < |rest|
          ensures rest[i] > rest[j]
        {
          assert rest[i] == v[i + 1] && rest[j] == v[j + 1];
        }
      }
      DropsRebuild(rest);
      assert d == [v[0] - v[1]] + DropsOf(rest);
      assert d[1..] == DropsOf(rest);
      forall i | 0 <= i < |d|
        ensures d[i] > 0
      {
        if i > 0 {
          assert d[i] == DropsOf(rest)[i - 1];
        }
      }
      assert CarriesOf(d) == [Sum(d)] + CarriesOf(d[1..]);
      assert rest == [rest[0]] + rest[1..];
      assert v == [v[0]] + rest;
    }
  }

  /** Different drop counts give different carries. */
  lemma {:induction false} CarriesOfInjective(d: seq<nat>, e: seq<nat>)
    ensures CarriesOf(d) == CarriesOf(e) ==> d == e
  {
    if d != [] && e != [] && CarriesOf(d) == CarriesOf(e) {
      assert CarriesOf(d)[1..] == CarriesOf(d[1..]);
      assert CarriesOf(e)[1..] == CarriesOf(e[1..]);
      CarriesOfInjective(d[1..], e[1..]);
      assert d == [d[0]] + d[1..] && e == [e[0]] + e[1..];
    }
  }

  /** Prefixing every list with the same count keeps them apart. */
  lemma PrefixedDistinct(t: nat, ds: seq<seq<nat>>)
    requires Distinct(ds)
    ensures Distinct(Prefixed(t, ds))
  {
    var r := Prefixed(t, ds);
    forall i, j | 0 <= i < j < |r|
      ensures r[i] != r[j]
    {
      assert r[i][1..] == ds[i] && r[j][1..] == ds[j];
    }
  }

  /** `distribute` as intended lists each split once. */
  lemma {:induction false} DistributeDistinct(pieces: nat, parts: nat)
    requires parts >= 1
    ensures Distinct(Distribute(pieces, parts))
    decreases parts, pieces + 1
  {
    if parts > 1 {
      DistributeFromDistinct(1, pieces, parts);
    }
  }

  lemma {:induction false} DistributeFromDistinct(taken: nat, pieces: nat, parts: nat)
    requires parts >= 2 && 1 <= taken <= pieces + 1
    ensures Distinct(DistributeFrom(taken, pieces, parts))
    decreases parts, pieces + 1 - taken
  {
    if taken + parts - 1 <= pieces {
      var rest := Distribute(pieces - taken, parts - 1);
      var here := Prefixed(taken, rest);
      var later := DistributeFrom(taken + 1, pieces, parts);
      DistributeDistinct(pieces - taken, parts - 1);
      PrefixedDistinct(taken, rest);
      DistributeFromDistinct(taken + 1, pieces, parts);
      forall x | x in here
        ensures x !in later
      {
        var i :| 0 <= i < |here| && here[i] == x;
        assert x[0] == taken;
        DistributeFromMembers(taken + 1, pieces, parts, x);
      }
      DistinctConcat(here, later);
    }
  }

  function Min(a: nat, b: nat): nat { if a <= b then a else b }

  function Max(a: nat, b: nat): nat { if a >= b then a else b }

  /** A carry list the enumerator is meant to offer for a stack of `height` on a board of `size`
      with `space` squares to the border: positive, strictly decreasing, at most `space` hops
      long, and lifting no more than the stack holds nor than the board is wide. */
  predicate Offered(v: seq<nat>, height: nat, size: nat, space: nat)
  {
    0 < |v| <= space && Positive(v) && StrictlyDecreasing(v) && v[0] <= height && v[0] <= size
  }

  /** One `Slide(src, dir, Some(carries))` per split in `ds`. */
  function AsSlides(src: Position, dir: Direction, ds: seq<seq<nat>>): (r: seq<Action>)
    ensures |r| == |ds|
    ensures forall i {:trigger r[i]} :: 0 <= i < |ds| ==> r[i] == Slide(src, dir, Some(CarriesOf(ds[i])))
  {
    seq(|ds|, i requires 0 <= i < |ds| => Slide(src, dir, Some(CarriesOf(ds[i]))))
  }

  /** The slides for the splits of `pieces` into `parts` are the slides of `parts` hops whose
      carries are positive, strictly decreasing and start with `pieces`. */
  lemma AsSlidesMembers(src: Position, dir: Direction, pieces: nat, parts: nat, a: Action)
    requires pieces >= 1 && parts >= 1
    ensures a in AsSlides(src, dir, Distribute(pieces, parts)) <==>
      a.Slide? && a.src == src && a.dir == dir && a.carries.Some? &&
      |a.carries.value| == parts && Positive(a.carries.value) &&
      StrictlyDecreasing(a.carries.value) && a.carries.value[0] == pieces
  {
    var ds := Distribute(pieces, parts);
    var r := AsSlides(src, dir, ds);
    if a in r {
      var i :| 0 <= i < |r| && r[i] == a;
      DistributeMembers(pieces, parts, ds[i]);
      CarriesOfShape(ds[i]);
    }
    if a.Slide? && a.src == src && a.dir == dir && a.carries.Some? {
      var v := a.carries.value;
      if |v| == parts && Positive(v) && StrictlyDecreasing(v) && v[0] == pieces {
        DropsRebuild(v);
        DistributeMembers(pieces, parts, DropsOf(v));
        var i :| 0 <= i < |ds| && ds[i] == DropsOf(v);
        assert r[i] == a;
      }
    }
  }

  /** The inner loop of `make_slides` as intended: `parts` from `parts` up to `space`. */
  function SlidesByParts(src: Position, dir: Direction, pieces: nat, parts: nat, space: nat): seq<Action>
    requires pieces >= 1 && parts >= 1
    decreases space + 1 - parts
  {
    if parts > space then []
    else AsSlides(src, dir, Distribute(pieces, parts)) + SlidesByParts(src, dir, pieces, parts + 1, space)
  }

  /** The outer loop of `make_slides` as intended: `pieces` from `pieces` up to `limit`. */
  function SlidesByPieces(src: Position, dir: Direction, pieces: nat, limit: nat, space: nat): seq<Action>
    requires pieces >= 1
    decreases limit + 1 - pieces
  {
    if pieces > limit then []
    else SlidesByParts(src, dir, pieces, 1, space) + SlidesByPieces(src, dir, pieces + 1, limit, space)
  }

  /** `make_slides(src, dir, stack, size)` as intended: every slide of `1 ..= space` hops
      lifting `1 ..= min(height, size)` pieces, one per way to leave them along the walk. */
  function MakeSlides(src: Position, dir: Direction, height: nat, size: nat): seq<Action>
    requires OnBoard(size, src)
  {
    SlidesByPieces(src, dir, 1, Min(height, size), SpaceToBorder(size, src, dir))
  }

  lemma {:induction false} SlidesByPartsMembers(src: Position, dir: Direction, pieces: nat, parts: nat,
                                                space: nat, a: Action)
    requires pieces >= 1 && parts >= 1
    ensures a in SlidesByParts(src, dir, pieces, parts, space) <==>
      a.Slide? && a.src == src && a.dir == dir && a.carries.Some? &&
      parts <= |a.carries.value| <= space && Positive(a.carries.value) &&
      StrictlyDecreasing(a.carries.value) && a.carries.value[0] == pieces
    decreases space + 1 - parts
  {
    if parts <= space {
      AsSlidesMembers(src, dir, pieces, parts, a);
      SlidesByPartsMembers(src, dir, pieces, parts + 1, space, a);
    }
  }

  lemma {:induction false} SlidesByPiecesMembers(src: Position, dir: Direction, pieces: nat, limit: nat,
                                                 space: nat, a: Action)
    requires pieces >= 1
    ensures a in SlidesByPieces(src, dir, pieces, limit, space) <==>
      a.Slide? && a.src == src && a.dir == dir && a.carries.Some? &&
      1 <= |a.carries.value| <= space && Positive(a.carries.value) &&
      StrictlyDecreasing(a.carries.value) && pieces <= a.carries.value[0] <= limit
    decreases limit + 1 - pieces
  {
    if pieces <= limit {
      SlidesByPartsMembers(src, dir, pieces, 1, space, a);
      SlidesByPiecesMembers(src, dir, pieces + 1, limit, space, a);
    }
  }

  /** The intended `make_slides` offers exactly the slides from `src` in direction `dir` whose
      carries are `Offered`. */
  lemma MakeSlidesMembers(src: Position, dir: Direction, height: nat, size: nat, a: Action)
    requires OnBoard(size, src)
    ensures a in MakeSlides(src, dir, height, size) <==>
      a.Slide? && a.src == src && a.dir == dir && a.carries.Some? &&
      Offered(a.carries.value, height, size, SpaceToBorder(size, src, dir))
  {
    SlidesByPiecesMembers(src, dir, 1, Min(height, size), SpaceToBorder(size, src, dir), a);
    if a.Slide? && a.carries.Some? && 0 < |a.carries.value| && Positive(a.carries.value) {
      assert a.carries.value[0] > 0;
    }
  }

  /** Distinct splits become distinct slides. */
  lemma AsSlidesDistinct(src: Position, dir: Direction, ds: seq<seq<nat>>)
    requires Distinct(ds)
    ensures Distinct(AsSlides(src, dir, ds))
  {
    var r := AsSlides(src, dir, ds);
    forall i, j | 0 <= i < j < |r|
      ensures r[i] != r[j]
    {
      CarriesOfInjective(ds[i], ds[j]);
    }
  }

  /** The inner loop of `make_slides` as intended lists each slide once. */
  lemma {:induction false} SlidesByPartsDistinct(src: Position, dir: Direction, pieces: nat, parts: nat, space: nat)
    requires pieces >= 1 && parts >= 1
    ensures Distinct(SlidesByParts(src, dir, pieces, parts, space))
    decreases space + 1 - parts
  {
    if parts <= space {
      var here := AsSlides(src, dir, Distribute(pieces, parts));
      var later := SlidesByParts(src, dir, pieces, parts + 1, space);
      DistributeDistinct(pieces, parts);
      AsSlidesDistinct(src, dir, Distribute(pieces, parts));
      SlidesByPartsDistinct(src, dir, pieces, parts + 1, space);
      forall a | a in here
        ensures a !in later
      {
        AsSlidesMembers(src, dir, pieces, parts, a);
        SlidesByPartsMembers(src, dir, pieces, parts + 1, space, a);
      }
      DistinctConcat(here, later);
    }
  }

  /** The outer loop of `make_slides` as intended lists each slide once. */
  lemma {:induction false} SlidesByPiecesDistinct(src: Position, dir: Direction, pieces: nat, limit: nat, space: nat)
    requires pieces >= 1
    ensures Distinct(SlidesByPieces(src, dir, pieces, limit, space))
    decreases limit + 1 - pieces
  {
    if pieces <= limit {
      var here := SlidesByParts(src, dir, pieces, 1, space);
      var later := SlidesByPieces(src, dir, pieces + 1, limit, space);
      SlidesByPartsDistinct(src, dir, pieces, 1, space);
      SlidesByPiecesDistinct(src, dir, pieces + 1, limit, space);
      forall a | a in here
        ensures a !in later
      {
        SlidesByPartsMembers(src, dir, pieces, 1, space, a);
        SlidesByPiecesMembers(src, dir, pieces + 1, limit, space, a);
      }
      DistinctConcat(here, later);
    }
  }

  /** The intended `make_slides` lists each slide once. */
  lemma MakeSlidesDistinct(src: Position, dir: Direction, height: nat, size: nat)
    requires OnBoard(size, src)
    ensures Distinct(MakeSlides(src, dir, height, size))
  {
    SlidesByPiecesDistinct(src, dir, 1, Min(height, size), SpaceToBorder(size, src, dir));
  }

  /** An offered slide of the player's own stack passes every check of `applicable` that does
      not look at the squares it lands on, and a slide that passes them and lifts no more than
      the board is wide is offered. */
  lemma OfferedPassesChecks(st: BoardState, pos: Position, dir: Direction, v: seq<nat>, player: Color)
    requires st.Valid() && st.ValidPos(pos) && st.At(pos).TopColor() == Some(player)
    ensures Offered(v, st.At(pos).Len(), st.Size(), SpaceToBorder(st.Size(), pos, dir)) <==>
      WalkOk(st, pos, dir, v) && OwnedOrEmpty(st.At(pos), player) && v[0] <= st.Size()
  {
    SpaceToBorderBounds(st.Size(), pos, dir, |v|);
  }

  /** The inner loop of `make_slides` as written: `parts` over `parts .. end`, `distribute`'s
      flat list used as the carries; `None` once `distribute` underflows. */
  function SlidesByPartsAsWritten(src: Position, dir: Direction, pieces: nat, parts: nat, end: nat): Option<seq<Action>>
    requires parts >= 1
    decreases end - parts
  {
    if parts >= end then Some([])
    else
      match DistributeAsWritten(pieces, parts)
      case None => None
      case Some(v) =>
        match SlidesByPartsAsWritten(src, dir, pieces, parts + 1, end)
        case None => None
        case Some(more) => Some([Slide(src, dir, Some(v))] + more)
  }

  /** The outer loop as written: `pieces` over `pieces .. end`. */
  function SlidesByPiecesAsWritten(src: Position, dir: Direction, pieces: nat, end: nat, partsEnd: nat): Option<seq<Action>>
    decreases end - pieces
  {
    if pieces >= end then Some([])
    else
      match SlidesByPartsAsWritten(src, dir, pieces, 1, partsEnd)
      case None => None
      case Some(here) =>
        match SlidesByPiecesAsWritten(src, dir, pieces + 1, end, partsEnd)
        case None => None
        case Some(more) => Some(here + more)
  }

  /** `make_slides` as written: `effective_size = max(height, size)`, `pieces` in
      `1..effective_size`, `parts` in `1..min(effective_size, space_to_border)`. */
  function MakeSlidesAsWritten(src: Position, dir: Direction, height: nat, size: nat): Option<seq<Action>>
    requires OnBoard(size, src)
  {
    var effective := Max(height, size);
    SlidesByPiecesAsWritten(src, dir, 1, effective, Min(effective, SpaceToBorder(size, src, dir)))
  }

  /** On a 3 by 3 board the as-written walks from a corner: lift one or two, one hop. */
  lemma CornerWalksAsWritten(height: nat)
    requires 1 <= height <= 2
    ensures MakeSlidesAsWritten(Position(0, 0), North, height, 3) ==
      Some([Slide(Position(0, 0), North, Some([1])), Slide(Position(0, 0), North, Some([2]))])
  {
    var o := Position(0, 0);
    assert SlidesByPartsAsWritten(o, North, 1, 2, 2) == Some([]);
    assert [Slide(o, North, Some([1]))] + [] == [Slide(o, North, Some([1]))];
    assert [Slide(o, North, Some([2]))] + [] == [Slide(o, North, Some([2]))];
    assert SlidesByPartsAsWritten(o, North, 1, 1, 2) == Some([Slide(o, North, Some([1]))]);
    assert SlidesByPartsAsWritten(o, North, 2, 1, 2) == Some([Slide(o, North, Some([2]))]);
    assert SlidesByPiecesAsWritten(o, North, 3, 3, 2) == Some([]);
    assert SlidesByPiecesAsWritten(o, North, 2, 3, 2) == Some([Slide(o, North, Some([2]))]);
    assert [Slide(o, North, Some([1]))] + [Slide(o, North, Some([2]))] ==
      [Slide(o, North, Some([1])), Slide(o, North, Some([2]))];
    assert SlidesByPiecesAsWritten(o, North, 1, 3, 2) ==
      Some([Slide(o, North, Some([1])), Slide(o, North, Some([2]))]);
    assert SpaceToBorder(3, o, North) == 2 && Max(height, 3) == 3;
  }

  /** As written, a single piece in the corner of a 3 by 3 board is offered a two-piece slide,
      which the intended enumerator does not offer. */
  lemma MakeSlidesAsWrittenOverlifts()
    ensures var o := Position(0, 0);
      MakeSlidesAsWritten(o, North, 1, 3).Some? &&
      Slide(o, North, Some([2])) in MakeSlidesAsWritten(o, North, 1, 3).value &&
      Slide(o, North, Some([2])) !in MakeSlides(o, North, 1, 3)
  {
    var o := Position(0, 0);
    CornerWalksAsWritten(1);
    MakeSlidesMembers(o, North, 1, 3, Slide(o, North, Some([2])));
  }

  /** As written, a two-piece stack in the corner of a 3 by 3 board is never offered the
      two-hop slide `[2, 1]`, which the intended enumerator offers. */
  lemma MakeSlidesAsWrittenMissesLastHop()
    ensures var o := Position(0, 0);
      MakeSlidesAsWritten(o, North, 2, 3).Some? &&
      Slide(o, North, Some([2, 1])) !in MakeSlidesAsWritten(o, North, 2, 3).value &&
      Slide(o, North, Some([2, 1])) in MakeSlides(o, North, 2, 3)
  {
    var o := Position(0, 0);
    CornerWalksAsWritten(2);
    MakeSlidesMembers(o, North, 2, 3, Slide(o, North, Some([2, 1])));
  }

  /** As written, a single piece in the corner of a 5 by 5 board makes `distribute(1, 2)`
      underflow. */
  lemma MakeSlidesAsWrittenUnderflows()
    ensures MakeSlidesAsWritten(Position(0, 0), North, 1, 5) == None
  {
    assert SlidesByPartsAsWritten(Position(0, 0), North, 1, 2, 4) == None;
  }

  /** The `partition` of the fields into the free squares and the occupied fields, each in
      field order. */
  function Partition(fs: seq<Field>): (r: (seq<Position>, seq<Field>))
    ensures forall p :: p in r.0 <==> (p, Stack.Empty) in fs
    ensures forall f :: f in r.1 <==> f in fs && !f.1.IsEmpty()
  {
    if fs == [] then ([], [])
    else
      var rest := Partition(fs[1..]);
      assert forall f :: f in fs <==> f == fs[0] || f in fs[1..];
      if fs[0].1.IsEmpty() then ([fs[0].0] + rest.0, rest.1) else (rest.0, [fs[0]] + rest.1)
  }

  /** The occupied fields whose top piece is `player`'s (the `filter` on `color().unwrap()`). */
  function OwnedBy(fs: seq<Field>, player: Color): (r: seq<Field>)
    ensures forall f :: f in r <==> f in fs && f.1.TopColor() == Some(player)
  {
    if fs == [] then []
    else
      var rest := OwnedBy(fs[1..], player);
      assert forall f :: f in fs <==> f == fs[0] || f in fs[1..];
      if fs[0].1.TopColor() == Some(player) then [fs[0]] + rest else rest
  }

  /** One `Place(pos, kind)` per free square. */
  function Placements(free: seq<Position>, kind: PieceKind): (r: seq<Action>)
    ensures forall a :: a in r ==> a.Place? && a.kind == kind
    ensures forall p :: Place(p, kind) in r <==> p in free
  {
    var r := seq(|free|, i requires 0 <= i < |free| => Place(free[i], kind));
    assert forall i :: 0 <= i < |free| ==> r[i] == Place(free[i], kind);
    r
  }

  /** `make_slides` in all four directions for each of the fields. */
  function SlidesFrom(fs: seq<Field>, size: nat): (r: seq<Action>)
    requires forall f :: f in fs ==> OnBoard(size, f.0)
  {
    if fs == [] then []
    else
      var src := fs[0].0;
      var height := fs[0].1.Len();
      MakeSlides(src, North, height, size) + MakeSlides(src, South, height, size) +
      MakeSlides(src, East, height, size) + MakeSlides(src, West, height, size) +
      SlidesFrom(fs[1..], size)
  }

  /** The slides made for the fields `fs` are the offered slides from their squares, each
      with the height of the stack its field holds. */
  lemma {:induction false} SlidesFromMembers(fs: seq<Field>, size: nat, a: Action)
    requires forall f :: f in fs ==> OnBoard(size, f.0)
    ensures a in SlidesFrom(fs, size) <==>
      a.Slide? && a.carries.Some? &&
      exists f :: f in fs && f.0 == a.src &&
        Offered(a.carries.value, f.1.Len(), size, SpaceToBorder(size, a.src, a.dir))
  {
    if fs != [] {
      var f0 := fs[0];
      assert forall f :: f in fs <==> f == f0 || f in fs[1..];
      SlidesFromMembers(fs[1..], size, a);
      MakeSlidesMembers(f0.0, North, f0.1.Len(), size, a);
      MakeSlidesMembers(f0.0, South, f0.1.Len(), size, a);
      MakeSlidesMembers(f0.0, East, f0.1.Len(), size, a);
      MakeSlidesMembers(f0.0, West, f0.1.Len(), size, a);
    }
  }

  /** A field put in front of fields at other squares keeps the squares apart. */
  lemma FieldsDistinctCons(f: Field, rest: seq<Field>)
    requires FieldsDistinct(rest) && forall g :: g in rest ==> g.0 != f.0
    ensures FieldsDistinct([f] + rest)
  {
    var s := [f] + rest;
    forall i, j | 0 <= i < j < |s|
      ensures s[i].0 != s[j].0
    {
      assert s[j] == rest[j - 1] && s[j] in rest;
      if i > 0 {
        assert s[i] == rest[i - 1];
      }
    }
  }

  /** The fields after the first keep their squares apart, and none is at the first one's. */
  lemma FieldsDistinctTail(fs: seq<Field>)
    requires fs != [] && FieldsDistinct(fs)
    ensures FieldsDistinct(fs[1..]) && forall g :: g in fs[1..] ==> g.0 != fs[0].0
  {
    var tl := fs[1..];
    forall i, j | 0 <= i < j < |tl|
      ensures tl[i].0 != tl[j].0
    {
      assert tl[i] == fs[i + 1] && tl[j] == fs[j + 1];
    }
    forall g | g in tl
      ensures g.0 != fs[0].0
    {
      var j :| 0 <= j < |tl| && tl[j] == g;
      assert g == fs[j + 1];
    }
  }

  /** Partitioning fields at distinct squares lists each free square once and each occupied
      field at its own square. */
  lemma {:induction false} PartitionDistinct(fs: seq<Field>)
    requires FieldsDistinct(fs)
    ensures Distinct(Partition(fs).0) && FieldsDistinct(Partition(fs).1)
  {
    if fs != [] {
      var rest := Partition(fs[1..]);
      FieldsDistinctTail(fs);
      PartitionDistinct(fs[1..]);
      if fs[0].1.IsEmpty() {
        forall p | p in [fs[0].0]
          ensures p !in rest.0
        {
          assert (fs[0].0, Stack.Empty) !in fs[1..];
        }
        DistinctConcat([fs[0].0], rest.0);
      } else {
        FieldsDistinctCons(fs[0], rest.1);
      }
    }
  }

  /** Keeping the fields a player tops keeps their squares apart. */
  lemma {:induction false} OwnedByDistinct(fs: seq<Field>, player: Color)
    requires FieldsDistinct(fs)
    ensures FieldsDistinct(OwnedBy(fs, player))
  {
    if fs != [] {
      FieldsDistinctTail(fs);
      OwnedByDistinct(fs[1..], player);
      if fs[0].1.TopColor() == Some(player) {
        FieldsDistinctCons(fs[0], OwnedBy(fs[1..], player));
      }
    }
  }

  /** The slides of one square in the four directions are listed once each, all from that square. */
  lemma FourWaysDistinct(src: Position, height: nat, size: nat)
    requires OnBoard(size, src)
    ensures var r := MakeSlides(src, North, height, size) + MakeSlides(src, South, height, size) +
                     MakeSlides(src, East, height, size) + MakeSlides(src, West, height, size);
      Distinct(r) && forall a :: a in r ==> a.Slide? && a.src == src
  {
    var n := MakeSlides(src, North, height, size);
    var so := MakeSlides(src, South, height, size);
    var e := MakeSlides(src, East, height, size);
    var w := MakeSlides(src, West, height, size);
    MakeSlidesDistinct(src, North, height, size);
    MakeSlidesDistinct(src, South, height, size);
    MakeSlidesDistinct(src, East, height, size);
    MakeSlidesDistinct(src, West, height, size);
    forall a
      ensures a in n ==> a.Slide? && a.src == src && a.dir == North
      ensures a in so ==> a.Slide? && a.src == src && a.dir == South
      ensures a in e ==> a.Slide? && a.src == src && a.dir == East
      ensures a in w ==> a.Slide? && a.src == src && a.dir == West
    {
      MakeSlidesMembers(src, North, height, size, a);
      MakeSlidesMembers(src, South, height, size, a);
      MakeSlidesMembers(src, East, height, size, a);
      MakeSlidesMembers(src, West, height, size, a);
    }
    DistinctConcat(n, so);
    DistinctConcat(n + so, e);
    DistinctConcat(n + so + e, w);
  }

  /** Fields at distinct squares get each of their slides listed once. */
  lemma {:induction false} SlidesFromDistinct(fs: seq<Field>, size: nat)
    requires forall f :: f in fs ==> OnBoard(size, f.0)
    requires FieldsDistinct(fs)
    ensures Distinct(SlidesFrom(fs, size))
  {
    if fs != [] {
      var src := fs[0].0;
      var height := fs[0].1.Len();
      var here := MakeSlides(src, North, height, size) + MakeSlides(src, South, height, size) +
                  MakeSlides(src, East, height, size) + MakeSlides(src, West, height, size);
      var later := SlidesFrom(fs[1..], size);
      FourWaysDistinct(src, height, size);
      FieldsDistinctTail(fs);
      SlidesFromDistinct(fs[1..], size);
      forall a | a in here
        ensures a !in later
      {
        SlidesFromMembers(fs[1..], size, a);
      }
      DistinctConcat(here, later);
    }
  }

  /** The fields of a board whose stack `player` tops are on it, and the slides made for them
      are the offered slides from the squares `player` tops. */
  lemma SlidesOfBoard(st: BoardState, player: Color, owned: seq<Field>)
    requires st.Valid()
    requires forall f :: f in owned <==> f in Fields(st.cells) && f.1.TopColor() == Some(player)
    ensures forall f :: f in owned ==> OnBoard(st.Size(), f.0)
    ensures forall a :: a in SlidesFrom(owned, st.Size()) <==>
      a.Slide? && a.carries.Some? && st.ValidPos(a.src) && st.At(a.src).TopColor() == Some(player) &&
      Offered(a.carries.value, st.At(a.src).Len(), st.Size(), SpaceToBorder(st.Size(), a.src, a.dir))
  {
    forall f | f in owned
      ensures OnBoard(st.Size(), f.0)
    {
      FieldsOfBoard(st, f.0, f.1);
    }
    forall a
      ensures a in SlidesFrom(owned, st.Size()) <==>
        a.Slide? && a.carries.Some? && st.ValidPos(a.src) && st.At(a.src).TopColor() == Some(player) &&
        Offered(a.carries.value, st.At(a.src).Len(), st.Size(), SpaceToBorder(st.Size(), a.src, a.dir))
    {
      SlidesFromMembers(owned, st.Size(), a);
      if a in SlidesFrom(owned, st.Size()) {
        var f :| f in owned && f.0 == a.src &&
          Offered(a.carries.value, f.1.Len(), st.Size(), SpaceToBorder(st.Size(), a.src, a.dir));
        FieldsOfBoard(st, f.0, f.1);
      }
      if a.Slide? && a.carries.Some? && st.ValidPos(a.src) && st.At(a.src).TopColor() == Some(player) {
        FieldsOfBoard(st, a.src, st.At(a.src));
        assert (a.src, st.At(a.src)) in owned;
      }
    }
  }

  /** What the placement part of `applicable_actions` builds from the free squares. */
  function PlaceActions(free: seq<Position>, stones: nat, caps: nat): seq<Action>
  {
    (if stones > 0 then Placements(free, Stone) + Placements(free, StandingStone) else []) +
    (if caps > 0 then Placements(free, CapStone) else [])
  }

  /** The placement part holds placements only: on a free square, of a kind whose counter is
      not spent. */
  lemma PlaceActionsMembers(free: seq<Position>, stones: nat, caps: nat, pos: Position, kind: PieceKind)
    ensures forall a :: a in PlaceActions(free, stones, caps) ==> a.Place?
    ensures Place(pos, kind) in PlaceActions(free, stones, caps) <==>
      pos in free && if kind == CapStone then caps > 0 else stones > 0
  {
    var flats := if stones > 0 then Placements(free, Stone) + Placements(free, StandingStone) else [];
    var capped := if caps > 0 then Placements(free, CapStone) else [];
    assert PlaceActions(free, stones, caps) == flats + capped;
  }

  /** Distinct free squares give distinct placements of one kind. */
  lemma PlacementsDistinct(free: seq<Position>, kind: PieceKind)
    requires Distinct(free)
    ensures Distinct(Placements(free, kind))
  {
  }

  /** Over distinct free squares the placement part lists each placement once: the three
      blocks place different kinds. */
  lemma PlaceActionsDistinct(free: seq<Position>, stones: nat, caps: nat)
    requires Distinct(free)
    ensures Distinct(PlaceActions(free, stones, caps))
  {
    var flat := Placements(free, Stone);
    var wall := Placements(free, StandingStone);
    var cap := Placements(free, CapStone);
    PlacementsDistinct(free, Stone);
    PlacementsDistinct(free, StandingStone);
    PlacementsDistinct(free, CapStone);
    DistinctConcat(flat, wall);
    var flats := if stones > 0 then flat + wall else [];
    var capped := if caps > 0 then cap else [];
    assert forall a :: a in flats ==> a in flat || a in wall;
    DistinctConcat(flats, capped);
    assert PlaceActions(free, stones, caps) == flats + capped;
  }

  /** The placements built from the board's free squares are exactly the legal placements. */
  lemma PlacementsLegal(st: BoardState, player: Color, free: seq<Position>, places: seq<Action>)
    requires st.Valid()
    requires forall p :: p in free <==> (p, Stack.Empty) in Fields(st.cells)
    requires places == PlaceActions(free, st.PieceCount(player, Stone), st.PieceCount(player, CapStone))
    ensures forall a :: a in places ==> a.Place?
    ensures forall pos, kind :: Place(pos, kind) in places <==> Legal(st, Move(Place(pos, kind), player))
  {
    var stones, caps := st.PieceCount(player, Stone), st.PieceCount(player, CapStone);
    PlaceActionsMembers(free, stones, caps, Position(0, 0), Stone);
    forall pos, kind
      ensures Place(pos, kind) in places <==> Legal(st, Move(Place(pos, kind), player))
    {
      PlaceActionsMembers(free, stones, caps, pos, kind);
      FieldsOfBoard(st, pos, Stack.Empty);
      assert st.PieceCount(player, kind) == if kind == CapStone then caps else stones;
    }
  }

  /** Legal placements followed by offered slides have the three properties of
      `applicable_actions`. */
  lemma ActionsOfBoard(st: BoardState, player: Color, places: seq<Action>, slides: seq<Action>)
    requires st.Valid()
    requires forall a :: a in places ==> a.Place?
    requires forall pos, kind :: Place(pos, kind) in places <==> Legal(st, Move(Place(pos, kind), player))
    requires forall a :: a in slides <==>
      a.Slide? && a.carries.Some? && st.ValidPos(a.src) && st.At(a.src).TopColor() == Some(player) &&
      Offered(a.carries.value, st.At(a.src).Len(), st.Size(), SpaceToBorder(st.Size(), a.src, a.dir))
    ensures forall pos, kind :: Place(pos, kind) in places + slides <==> Legal(st, Move(Place(pos, kind), player))
    ensures forall a :: a in places + slides && a.Slide? ==>
      a.carries.Some? && st.ValidPos(a.src) && st.At(a.src).TopColor() == Some(player) &&
      Offered(a.carries.value, st.At(a.src).Len(), st.Size(), SpaceToBorder(st.Size(), a.src, a.dir))
    ensures forall pos, dir, v ::
      st.ValidPos(pos) && st.At(pos).TopColor() == Some(player) &&
      Offered(v, st.At(pos).Len(), st.Size(), SpaceToBorder(st.Size(), pos, dir)) ==>
      Slide(pos, dir, Some(v)) in places + slides
    ensures Distinct(places) && Distinct(slides) ==> Distinct(places + slides)
  {
    if Distinct(places) && Distinct(slides) {
      DistinctConcat(places, slides);
    }
  }

  /** `applicable_actions(player)`: a placement of every kind the player's stash still has on
      every empty square, and every offered slide from every square the player's colour tops.
      The placements are exactly the placements `applicable` accepts; the slides pass every
      check of `applicable` but the landing squares' compatibility. */
  method ApplicableActions(st: BoardState, player: Color) returns (actions: seq<Action>)
    requires st.Valid()
    ensures forall pos, kind :: Place(pos, kind) in actions <==> Legal(st, Move(Place(pos, kind), player))
    ensures forall a :: a in actions && a.Slide? ==>
      a.carries.Some? && st.ValidPos(a.src) && st.At(a.src).TopColor() == Some(player) &&
      Offered(a.carries.value, st.At(a.src).Len(), st.Size(), SpaceToBorder(st.Size(), a.src, a.dir))
    ensures forall pos, dir, v ::
      st.ValidPos(pos) && st.At(pos).TopColor() == Some(player) &&
      Offered(v, st.At(pos).Len(), st.Size(), SpaceToBorder(st.Size(), pos, dir)) ==>
      Slide(pos, dir, Some(v)) in actions
    ensures Distinct(actions)
  {
    var fields := Fields(st.cells);
    var parted := Partition(fields);
    var free, occupied := parted.0, parted.1;
    actions := [];
    if st.PieceCount(player, Stone) > 0 {
      actions := actions + Placements(free, Stone);
      actions := actions + Placements(free, StandingStone);
    }
    ghost var flats := actions;
    if st.PieceCount(player, CapStone) > 0 {
      actions := actions + Placements(free, CapStone);
    } else {
      assert actions == flats + [];
    }
    assert flats == if st.PieceCount(player, Stone) > 0 then Placements(free, Stone) + Placements(free, StandingStone) else [];
    PlacementsLegal(st, player, free, actions);
    PartitionDistinct(fields);
    PlaceActionsDistinct(free, st.PieceCount(player, Stone), st.PieceCount(player, CapStone));
    var owned := OwnedBy(occupied, player);
    SlidesOfBoard(st, player, owned);
    OwnedByDistinct(occupied, player);
    SlidesFromDistinct(owned, st.Size());
    var slides := SlidesFrom(owned, st.Size());
    ActionsOfBoard(st, player, actions, slides);
    actions := actions + slides;
  }
}
