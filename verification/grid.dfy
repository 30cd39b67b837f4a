/**
 The grid coordinate type `Pos` of the pathfinding demo: a pair of `u8`
 coordinates on a SIZE x SIZE board, its checked constructor from signed
 `i8` coordinates, and the two corner cells that hold Start and End.

 Machine integers are modelled as subset types of `int`; every cast and
 every `i8` addition is written out with its two's-complement behaviour.
 */
module Grid {
  import opened Options

  /** Values of Rust's `u8`. */
  type U8 = v: int | 0 <= v < 256

  /** Values of Rust's `i8`. */
  type I8 = v: int | -128 <= v < 128

  /** Side length of the square board. */
  const SIZE: U8 := 10

  /** `v as i8` for a `u8` value: reinterpretation of the same eight bits. */
  function U8AsI8(v: U8): (r: I8)
    ensures (r - v) % 256 == 0
  {
    if v < 128 then v else v - 256
  }

  /** `v as u8` for an `i8` value: reinterpretation of the same eight bits. */
  function I8AsU8(v: I8): (r: U8)
    ensures (r - v) % 256 == 0
  {
    if v < 0 then v + 256 else v
  }

  /** The `i8` result of an addition or subtraction whose exact value is `v`,
      with two's-complement wrap-around (the behaviour of a release build). */
  function WrapI8(v: int): (r: I8)
    ensures (r - v) % 256 == 0
  {
    (v + 128) % 256 - 128
  }

  /** The two casts undo each other. */
  lemma CastsRoundTrip(u: U8, s: I8)
    ensures I8AsU8(U8AsI8(u)) == u
    ensures U8AsI8(I8AsU8(s)) == s
  {
  }

  function Abs(v: int): nat
  {
    if v < 0 then -v else v
  }

  /** A board coordinate. */
  datatype Pos = Pos(x: U8, y: U8) {

    /** On the board: both coordinates below SIZE. */
    predicate Valid() {
      x < SIZE && y < SIZE
    }

    /** The lower-left corner test `min`. */
    predicate IsMin() {
      x == 0 && y == 0
    }

    /** The upper-right corner test `max`. */
    predicate IsMax() {
      x == SIZE - 1 && y == SIZE - 1
    }
  }

  /** Distance counted in unit horizontal and vertical steps. */
  function Manhattan(p: Pos, q: Pos): nat
  {
    Abs(p.x - q.x) + Abs(p.y - q.y)
  }

  /** `q` is one of the four cardinal neighbours of `p`. */
  predicate Adjacent(p: Pos, q: Pos)
  {
    Manhattan(p, q) == 1
  }

  /** The unchecked constructor `Pos::new`; its debug assertions become the precondition. */
  function New(x: U8, y: U8): (p: Pos)
    requires x < SIZE && y < SIZE
    ensures p.Valid()
    ensures p.x == x && p.y == y
  {
    Pos(x, y)
  }

  /** The checked constructor `Pos::try_new` from signed coordinates. */
  function TryNew(x: I8, y: I8): (r: Option<Pos>)
    ensures r.Some? <==> 0 <= x < SIZE && 0 <= y < SIZE
    ensures r.Some? ==> r.value.Valid() && r.value.x == x && r.value.y == y
  {
    var size := U8AsI8(SIZE);
    if x < 0 || y < 0 || x >= size || y >= size then
      None
    else
      Some(Pos(I8AsU8(x), I8AsU8(y)))
  }

  /** Casting a position's coordinates to `i8` and back through `try_new`
      recovers exactly the positions on the board, and nothing else. */
  lemma TryNewRoundTrip(p: Pos)
    ensures TryNew(U8AsI8(p.x), U8AsI8(p.y)) == (if p.Valid() then Some(p) else None)
  {
  }

  /** `min` holds exactly at (0,0), `max` exactly at (SIZE-1,SIZE-1); both are on
      the board, and since SIZE > 1 no cell is both corners. */
  lemma Corners(p: Pos)
    ensures p.IsMin() <==> p == Pos(0, 0)
    ensures p.IsMax() <==> p == Pos(SIZE - 1, SIZE - 1)
    ensures p.IsMin() || p.IsMax() ==> p.Valid()
    ensures !(p.IsMin() && p.IsMax())
  {
  }

  /** Adjacency is symmetric. */
  lemma AdjacentSymmetric(p: Pos, q: Pos)
    ensures Adjacent(p, q) <==> Adjacent(q, p)
  {
  }

  /** One step changes the distance to any fixed cell by at most one. */
  lemma ManhattanStep(a: Pos, p: Pos, q: Pos)
    requires Adjacent(p, q)
    ensures Manhattan(a, q) <= Manhattan(a, p) + 1
  {
  }
}
