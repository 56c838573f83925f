/**
 * The simulation box (`class cell`): three edge lengths, the periodic
 * directions, the packing tolerance and the centring flag.
 */
module Box {
  /** `pbc` names the periodic directions ("x", "xy", "xyz", ...; "" for none). */
  datatype Cell = Cell(a: real, b: real, c: real, pbc: string, tol: real, center: bool)

  /** `cell(a, b, c, pbc, tol, center)`: a periodic box takes no tolerance. */
  function NewCell(a: real, b: real, c: real, pbc: string, tol: real, center: bool): (r: Cell)
    ensures r.a == a && r.b == b && r.c == c && r.pbc == pbc && r.center == center
    ensures r.pbc != "" ==> r.tol == 0.0
    ensures r.pbc == "" ==> r.tol == tol
  {
    Cell(a, b, c, pbc, if pbc != "" then 0.0 else tol, center)
  }

  /** `cell.volume`: a box whose three edges are positive has a positive volume. */
  function Volume(box: Cell): (v: real)
    ensures box.a > 0.0 && box.b > 0.0 && box.c > 0.0 ==> v > 0.0
  {
    box.a * box.b * box.c
  }
}
