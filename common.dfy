/** Values shared by every module of the model: grid cells, world vectors and
    the failure-carrying wrappers that stand for the source's thrown errors. */
module Common {

  /** A grid cell; part positions are whole grid coordinates. */
  datatype Cell = Cell(x: int, y: int)

  /** A world-space vector in grid units, over ideal reals. */
  datatype Vec = Vec(x: real, y: real)

  function Add(a: Vec, b: Vec): Vec { Vec(a.x + b.x, a.y + b.y) }

  function Scale(k: real, a: Vec): Vec { Vec(k * a.x, k * a.y) }

  function CellVec(c: Cell): Vec { Vec(c.x as real, c.y as real) }

  /** Component-wise difference of two cells, as p5's `Vector.sub`. */
  function Offset(a: Cell, b: Cell): Cell { Cell(a.x - b.x, a.y - b.y) }

  datatype Option<T> = None | Some(value: T)

  /** The errors the source throws. */
  datatype Error =
    | MissingBattery              // a port was asked to charge or use without a battery record
    | UnknownPartName(name: string)  // createPart was given a name of no part class

  datatype Result<T> = Ok(value: T) | Err(error: Error)
}
