/** The stacks along the squares a slide visits, as a sequence: index 0 is the source square,
    index `j` the square `j` hops away. The carries loop of `Logic::apply`
    (src/simulator/logic.rs) is one `slide` of src/move_logic.rs per carry; on the sequence each
    `slide` lifts the top pieces of one entry onto the next. */
module Lines {
  import opened Pieces

  predicate StrictlyDecreasing(v: seq<nat>)
  {
    forall i, j :: 0 <= i < j < |v| ==> v[i] > v[j]
  }

  /** `slide` from entry `i` to entry `i + 1` with `n` pieces is allowed: both entries exist,
      entry `i` has `n` pieces, and entry `i + 1` accepts them. */
  predicate StepOk(line: seq<Stack>, i: nat, n: nat)
  {
    i + 1 < |line| && n <= line[i].Len() && line[i + 1].CompatibleWith(line[i].PeekFromTop(n))
  }

  /** `slide` on the sequence: the top `n` pieces of entry `i` move onto entry `i + 1`. */
  function LineStep(line: seq<Stack>, i: nat, n: nat): (r: seq<Stack>)
    requires StepOk(line, i, n)
    ensures |r| == |line|
    ensures r[i] == line[i].DropTop(n)
    ensures r[i + 1] == line[i + 1].AddStack(line[i].PeekFromTop(n))
    ensures forall j :: 0 <= j < |line| && j != i && j != i + 1 ==> r[j] == line[j]
  {
    line[i := line[i].DropTop(n)][i + 1 := line[i + 1].AddStack(line[i].PeekFromTop(n))]
  }

  /** What an entry whose original stack was `orig` holds while the top `arrived` pieces of
      the source stack `src` sit on it (a count beyond the source, or pieces the entry does not
      accept, leave `orig` as it was; a checked walk never asks for either). */
  function Carrying(orig: Stack, src: Stack, arrived: nat): Stack
  {
    if arrived <= src.Len() && orig.CompatibleWith(src.PeekFromTop(arrived)) then
      orig.AddStack(src.PeekFromTop(arrived))
    else orig
  }

  /** What that entry holds once the top `left` of them have moved on. */
  function Landed(orig: Stack, src: Stack, arrived: nat, left: nat): Stack
  {
    var carrying := Carrying(orig, src, arrived);
    if left <= carrying.Len() then carrying.DropTop(left) else orig
  }

  /** The shape a checked walk has: one entry per hop plus the source, carries strictly
      decreasing, the first no higher than the source stack. */
  predicate WalkShape(line0: seq<Stack>, v: seq<nat>)
  {
    |v| > 0 && |line0| == |v| + 1 && StrictlyDecreasing(v) && v[0] <= line0[0].Len()
  }

  /** Entry `i + 1` accepts the top `v[i]` pieces of the source, judged before the move. */
  predicate LineCompatible(line0: seq<Stack>, v: seq<nat>)
    requires WalkShape(line0, v)
  {
    forall i :: 0 <= i < |v| ==> v[i] <= line0[0].Len() && line0[i + 1].CompatibleWith(line0[0].PeekFromTop(v[i]))
  }

  /** The sequence after the first `i` steps of the walk `v` on `line0`: the source keeps what
      was not lifted, entries before `i` hold what was left on them, entry `i` carries, later
      entries are untouched. */
  ghost predicate LineMid(line0: seq<Stack>, v: seq<nat>, i: nat, line: seq<Stack>)
    requires WalkShape(line0, v) && 1 <= i <= |v|
  {
    |line| == |line0| &&
    line[0] == line0[0].DropTop(v[0]) &&
    (forall j {:trigger line[j]} :: 1 <= j < i ==> line[j] == Landed(line0[j], line0[0], v[j - 1], v[j])) &&
    line[i] == Carrying(line0[i], line0[0], v[i - 1]) &&
    (forall j {:trigger line[j]} :: i < j < |line| ==> line[j] == line0[j])
  }

  /** One step of the walk seen from the entry that carries `arrived` source pieces: it has
      `left` of them to hand on, the next entry (original stack `next`) accepts them, and the
      step leaves the two entries holding what `Landed` and `Carrying` say. */
  lemma CarrySplit(below: Stack, next: Stack, src: Stack, arrived: nat, left: nat)
    requires left < arrived <= src.Len() && below.CompatibleWith(src.PeekFromTop(arrived))
    requires next.CompatibleWith(src.PeekFromTop(left))
    ensures left <= Carrying(below, src, arrived).Len()
    ensures Carrying(below, src, arrived).PeekFromTop(left) == src.PeekFromTop(left)
    ensures Carrying(below, src, arrived).DropTop(left) == Landed(below, src, arrived, left)
    ensures next.AddStack(Carrying(below, src, arrived).PeekFromTop(left)) == Carrying(next, src, left)
  {
    PeekOfAdd(below, src.PeekFromTop(arrived), left);
    PeekOfPeek(src, arrived, left);
  }

  /** An entry left behind by the walk holds its original stack, flattened, with the source
      pieces `arrived` to `left` from the top on it, in order. */
  lemma LandedHolds(orig: Stack, src: Stack, arrived: nat, left: nat)
    requires left <= arrived <= src.Len() && orig.CompatibleWith(src.PeekFromTop(arrived))
    ensures Landed(orig, src, arrived, left) == orig.Flatten().Extend(src.PeekFromTop(arrived).DropTop(left))
  {
    DropOfExtend(orig.Flatten(), src.PeekFromTop(arrived), left);
  }

  /** At the end of a checked walk, an entry between the source and the last entry holds its
      original stack, flattened, under the source pieces `v[j - 1]` to `v[j]` from the top. */
  lemma LandedEntry(line0: seq<Stack>, v: seq<nat>, j: nat, s: Stack)
    requires WalkShape(line0, v) && LineCompatible(line0, v) && 1 <= j < |v|
    requires s == Landed(line0[j], line0[0], v[j - 1], v[j])
    ensures s == line0[j].Flatten().Extend(line0[0].PeekFromTop(v[j - 1]).DropTop(v[j]))
  {
    assert v[j] < v[j - 1];
    LandedHolds(line0[j], line0[0], v[j - 1], v[j]);
  }

  /** The first step of a checked walk is allowed and reaches `LineMid(.., 1, ..)`. */
  lemma LineFirstStep(line0: seq<Stack>, v: seq<nat>)
    requires WalkShape(line0, v) && LineCompatible(line0, v)
    ensures StepOk(line0, 0, v[0])
    ensures LineMid(line0, v, 1, LineStep(line0, 0, v[0]))
  {
    var line := LineStep(line0, 0, v[0]);
    assert line[1] == Carrying(line0[1], line0[0], v[0]);
  }

  /** Step `i + 1` of a checked walk is allowed and goes from `LineMid(.., i, ..)` to
      `LineMid(.., i + 1, ..)`. */
  lemma LineNextStep(line0: seq<Stack>, v: seq<nat>, i: nat, line: seq<Stack>)
    requires WalkShape(line0, v) && LineCompatible(line0, v)
    requires 1 <= i < |v| && LineMid(line0, v, i, line)
    ensures StepOk(line, i, v[i])
    ensures LineMid(line0, v, i + 1, LineStep(line, i, v[i]))
  {
    var src := line0[0];
    assert v[i] < v[i - 1] <= v[0];
    assert line[i] == Carrying(line0[i], src, v[i - 1]);
    assert line[i + 1] == line0[i + 1];
    CarrySplit(line0[i], line0[i + 1], src, v[i - 1], v[i]);
  }

  /** Walking a strictly decreasing `v` down a stack: what reached entry `i` (the whole
      stack for `i == 0`, else its top `v[i - 1]` pieces) holds `v[i]` pieces, and its top
      `v[i]` are the top `v[i]` of the stack. */
  lemma PeekAlong(s: Stack, v: seq<nat>, i: nat, full: Stack)
    requires StrictlyDecreasing(v) && 0 < |v| && v[0] <= s.Len() && i < |v|
    requires full == if i == 0 then s else s.PeekFromTop(v[i - 1])
    ensures v[i] <= full.Len() && full.PeekFromTop(v[i]) == s.PeekFromTop(v[i])
  {
    if i > 0 {
      assert v[i] < v[i - 1] <= v[0];
      PeekOfPeek(s, v[i - 1], v[i]);
    } else {
      PeekAll(s);
    }
  }
}
