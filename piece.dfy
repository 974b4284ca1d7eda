/** Pieces, piece kinds and stacks of pieces (src/board/piece.rs). */
module Pieces {
  import opened Options
  import opened Player

  datatype PieceKind = Stone | CapStone | StandingStone

  datatype Piece = Piece(kind: PieceKind, color: Color)

  /** Other pieces may sit on top of this kind. */
  function Stackable(k: PieceKind): (r: bool)
    ensures r <==> k == Stone
  {
    match k
    case Stone => true
    case StandingStone => false
    case CapStone => false
  }

  /** This kind counts toward a road. */
  function Road(k: PieceKind): (r: bool)
    ensures r <==> k == Stone || k == CapStone
  {
    match k
    case Stone => true
    case StandingStone => false
    case CapStone => true
  }

  /** A lone cap stone landing on this kind may flatten it. */
  function Flattenable(k: PieceKind): (r: bool)
    ensures r <==> k == Stone || k == StandingStone
  {
    match k
    case StandingStone => true
    case CapStone => false
    case Stone => true
  }

  /** The two halves of a stack split by `take_off`: what stays and what is lifted. */
  datatype Split = Split(kept: Stack, taken: Stack)

  /** A stack of pieces, built bottom up: `On(below, top)` is `top` pushed on `below`. The
      source keeps the pieces in a `Vec` whose last element is the top; `Content()` is that
      vector. */
  datatype Stack = Empty | On(below: Stack, top: Piece) {

    function Len(): (r: nat)
      ensures r == 0 <==> Empty?
    {
      match this
      case Empty => 0
      case On(b, _) => b.Len() + 1
    }

    predicate IsEmpty() { Empty? }

    function Top(): Option<Piece>
    {
      match this
      case Empty => None
      case On(_, p) => Some(p)
    }

    /** The pieces bottom first, as the source's `content` vector holds them. */
    function Content(): (r: seq<Piece>)
      ensures |r| == Len()
      ensures On? ==> r[|r| - 1] == top
    {
      match this
      case Empty => []
      case On(b, p) => b.Content() + [p]
    }

    /** Every piece is a flat stone. */
    predicate AllStones()
    {
      match this
      case Empty => true
      case On(b, p) => p.kind == Stone && b.AllStones()
    }

    /** Only the top may be a standing stone or a cap stone. */
    predicate WellFormed()
    {
      match this
      case Empty => true
      case On(b, _) => b.AllStones()
    }

    /** Exactly one piece, and it is a cap stone. */
    function IsFlattening(): (r: bool)
      ensures r <==> On? && below.Empty? && top.kind == CapStone
    {
      if Len() == 1 then
        match Top()
        case Some(t) => t.kind == CapStone
        case None => false
      else
        false
    }

    function IsFlattenable(): (r: bool)
      ensures r <==> Empty? || top.kind != CapStone
    {
      match Top()
      case Some(p) => Flattenable(p.kind)
      case None => true
    }

    function IsRoad(): (r: bool)
      ensures r <==> On? && top.kind != StandingStone
    {
      match Top()
      case Some(p) => Road(p.kind)
      case None => false
    }

    function IsStackable(): (r: bool)
      ensures r <==> Empty? || top.kind == Stone
    {
      match Top()
      case Some(p) => Stackable(p.kind)
      case None => true
    }

    /** The colour of the top piece, if any (`color`). */
    function TopColor(): (r: Option<Color>)
      ensures r.None? <==> Empty?
      ensures r.Some? ==> r.value == top.color
    {
      match Top()
      case Some(p) => Some(p.color)
      case None => None
    }

    /** The piece `n` places below the top (`nth_piece`); 0 is the top. */
    function NthPiece(n: nat): (r: Piece)
      requires n < Len()
      ensures n == 0 ==> Top() == Some(r)
      ensures r == Content()[Len() - 1 - n]
    {
      if n == 0 then top else below.NthPiece(n - 1)
    }

    /** `+= Piece`: push one piece on top. */
    function PushPiece(p: Piece): (r: Stack)
      ensures r.Len() == Len() + 1
      ensures r.Top() == Some(p)
      ensures r.DropTop(1) == this
      ensures r.Content() == Content() + [p]
    {
      On(this, p)
    }

    /** `-= n` with the intended meaning: drop the top `n` pieces. */
    function DropTop(n: nat): (r: Stack)
      requires n <= Len()
      ensures r.Len() == Len() - n
    {
      if n == 0 then this else below.DropTop(n - 1)
    }

    /** The top `n` pieces, in order, without changing the stack. */
    function PeekFromTop(n: nat): (r: Stack)
      requires n <= Len()
      ensures r.Len() == n
      ensures n > 0 ==> r.Top() == Top()
    {
      if n == 0 then Empty else On(below.PeekFromTop(n - 1), top)
    }

    /** `take_off(n)`: lift the top `n` pieces off; `kept` is what stays. */
    function TakeOff(n: nat): (r: Split)
      requires n <= Len()
      ensures r.kept.Len() + r.taken.Len() == Len() && r.taken.Len() == n
      ensures r.kept == DropTop(n) && r.taken == PeekFromTop(n)
      ensures r.kept.Content() + r.taken.Content() == Content()
      ensures WellFormed() ==> r.kept.WellFormed() && r.taken.WellFormed()
    {
      SplitRebuilds(this, n);
      TakeOffKeepsWellFormed(this, n);
      Split(DropTop(n), PeekFromTop(n))
    }

    /** Turn a standing-stone top into a flat stone of the same colour (`-= 1` then `+= Piece`);
        otherwise no change. */
    function Flatten(): (r: Stack)
      ensures r.Len() == Len()
      ensures r.TopColor() == TopColor()
      ensures On? ==> r.On? && r.below == below
      ensures On? ==> r.top.kind == (if top.kind == StandingStone then Stone else top.kind)
      ensures Empty? || top.kind != StandingStone ==> r == this
    {
      match this
      case On(b, t) => if t.kind == StandingStone then b.PushPiece(Piece(Stone, t.color)) else this
      case Empty => this
    }

    /** May `other` land on this stack? */
    function CompatibleWith(other: Stack): (r: bool)
      ensures r <==>
        Empty? || top.kind == Stone || (top.kind == StandingStone && other.IsFlattening())
    {
      IsStackable() || (IsFlattenable() && other.IsFlattening())
    }

    /** `content.extend(other.content)`: the pieces of `other`, bottom first, pushed on top. */
    function Extend(other: Stack): (r: Stack)
      ensures r.Len() == Len() + other.Len()
      ensures other.On? ==> r.Top() == other.Top()
    {
      match other
      case Empty => this
      case On(b, p) => Extend(b).PushPiece(p)
    }

    /** `+= Stack`: flatten this stack, then put `other` on top of it in order. */
    function AddStack(other: Stack): (r: Stack)
      requires CompatibleWith(other)
      ensures r.Len() == Len() + other.Len()
      ensures r.DropTop(other.Len()) == Flatten()
      ensures r.PeekFromTop(other.Len()) == other
      ensures other.On? ==> r.Top() == other.Top()
      ensures WellFormed() && other.WellFormed() ==> r.WellFormed()
    {
      var flat := Flatten();
      DropOfExtend(flat, other, other.Len());
      PeekOfExtend(flat, other, other.Len());
      PeekAll(other);
      FlattenedBase(this, other);
      ExtendWellFormed(flat, other);
      flat.Extend(other)
    }

    /** `take_off` exactly as written: it splits the vector at index `len - 1 - n`, which
        does not exist (`usize` underflow, a panic) when `n == len`. */
    function TakeOffAsWritten(n: nat): (r: Option<Split>)
      ensures r.Some? <==> n < Len()
    {
      if n + 1 <= Len() then Some(Split(DropTop(n + 1), PeekFromTop(n + 1))) else None
    }
  }

  /** Peeking at every piece shows the whole stack. */
  lemma {:induction false} PeekAll(s: Stack)
    ensures s.PeekFromTop(s.Len()) == s
  {
    if s.On? {
      PeekAll(s.below);
    }
  }

  /** `-=` twice is `-=` once by the sum. */
  lemma {:induction false} DropDrop(s: Stack, a: nat, b: nat)
    requires a + b <= s.Len()
    ensures s.DropTop(a).DropTop(b) == s.DropTop(a + b)
    decreases a
  {
    if a > 0 {
      DropDrop(s.below, a - 1, b);
    }
  }

  /** `-=` on flat stones leaves flat stones, and so does peeking at them. */
  lemma {:induction false} PartsAllStones(s: Stack, n: nat)
    requires s.AllStones() && n <= s.Len()
    ensures s.DropTop(n).AllStones() && s.PeekFromTop(n).AllStones()
    decreases n
  {
    if n > 0 {
      PartsAllStones(s.below, n - 1);
    }
  }

  /** `take_off` splits a well-formed stack into two well-formed stacks. */
  lemma TakeOffKeepsWellFormed(s: Stack, n: nat)
    requires n <= s.Len()
    ensures s.WellFormed() ==> s.DropTop(n).WellFormed() && s.PeekFromTop(n).WellFormed()
  {
    if s.WellFormed() && n > 0 {
      PartsAllStones(s.below, n - 1);
    }
  }

  /** What `-=` keeps and what `peek_from_top` shows, in order, are the whole vector. */
  lemma {:induction false} SplitRebuilds(s: Stack, n: nat)
    requires n <= s.Len()
    ensures s.DropTop(n).Content() + s.PeekFromTop(n).Content() == s.Content()
    decreases n
  {
    if n > 0 {
      SplitRebuilds(s.below, n - 1);
      assert s.PeekFromTop(n).Content() == s.below.PeekFromTop(n - 1).Content() + [s.top];
    }
  }

  /** Dropping some of the extension's top pieces is extending by fewer pieces. */
  lemma {:induction false} DropOfExtend(base: Stack, other: Stack, l: nat)
    requires l <= other.Len()
    ensures base.Extend(other).DropTop(l) == base.Extend(other.DropTop(l))
    decreases l
  {
    match other
    case Empty =>
    case On(b, p) =>
      if l > 0 {
        DropOfExtend(base, b, l - 1);
      }
  }

  /** The top pieces of an extension are the top pieces of what it was extended by. */
  lemma {:induction false} PeekOfExtend(base: Stack, other: Stack, m: nat)
    requires m <= other.Len()
    ensures base.Extend(other).PeekFromTop(m) == other.PeekFromTop(m)
    decreases m
  {
    if m > 0 {
      PeekOfExtend(base, other.below, m - 1);
    }
  }

  /** Flat stones extended by flat stones are flat stones. */
  lemma {:induction false} ExtendAllStones(base: Stack, other: Stack)
    requires base.AllStones() && other.AllStones()
    ensures base.Extend(other).AllStones()
    decreases other
  {
    if other.On? {
      ExtendAllStones(base, other.below);
    }
  }

  /** Flat stones extended by a well-formed stack make a well-formed stack. */
  lemma ExtendWellFormed(base: Stack, other: Stack)
    ensures base.AllStones() && other.WellFormed() ==> base.Extend(other).WellFormed()
  {
    if base.AllStones() && other.WellFormed() && other.On? {
      ExtendAllStones(base, other.below);
    }
  }

  /** A well-formed stack that accepts `other` is all flat stones once flattened. */
  lemma FlattenedBase(s: Stack, other: Stack)
    ensures s.WellFormed() && s.CompatibleWith(other) ==> s.Flatten().AllStones()
  {
  }

  /** The pieces `+= Stack` put on top are the top of the result. */
  lemma PeekOfAdd(s: Stack, other: Stack, m: nat)
    requires s.CompatibleWith(other) && m <= other.Len()
    ensures s.AddStack(other).PeekFromTop(m) == other.PeekFromTop(m)
  {
    PeekOfExtend(s.Flatten(), other, m);
  }

  /** `-=` on the result of `+= Stack`, for no more than the pieces added, leaves the flattened
      stack with the rest of them on top. */
  lemma DropOfAdd(s: Stack, other: Stack, l: nat)
    requires s.CompatibleWith(other) && l <= other.Len()
    ensures s.AddStack(other).DropTop(l) == s.Flatten().Extend(other.DropTop(l))
  {
    DropOfExtend(s.Flatten(), other, l);
  }

  /** Peeking twice from the top is peeking once: the compatibility walk of the legality
      check, which peeks from what it peeked before, sees the top pieces of the original. */
  lemma {:induction false} PeekOfPeek(s: Stack, a: nat, b: nat)
    requires b <= a <= s.Len()
    ensures s.PeekFromTop(a).PeekFromTop(b) == s.PeekFromTop(b)
    decreases b
  {
    if b > 0 {
      PeekOfPeek(s.below, a - 1, b - 1);
    }
  }

  /** As written, `take_off(n)` (and `peek_from_top`, `-=`, which use the same index) lifts
      one piece more than asked, and panics instead of lifting a whole stack. */
  lemma TakeOffAsWrittenTakesOneMore(s: Stack, n: nat)
    ensures n < s.Len() ==> s.TakeOffAsWritten(n).value.taken.Len() == n + 1 != s.TakeOff(n).taken.Len()
    ensures n == s.Len() ==> s.TakeOffAsWritten(n).None?
  {
  }

  /** The two source tests that slide one piece off a one-piece stack need the intended
      `take_off`: the as-written one cannot lift that piece at all. */
  lemma TakeOffAsWrittenFailsOnSinglePiece(p: Piece)
    ensures On(Empty, p).TakeOffAsWritten(1).None?
    ensures On(Empty, p).TakeOff(1) == Split(Empty, On(Empty, p))
  {
  }
}
