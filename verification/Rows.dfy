/** Rows of bytes at a pitch, as every picture here is kept. */
module Rows {
  import opened Bytes

  /** Rows in a flat buffer: where the first starts and how far apart they are. */
  datatype Grid = Grid(base: nat, pitch: nat) {
    function Row(y: nat): nat { base + y * pitch }

    /** Row `y`, `row` bytes of it, is inside a buffer of `len`. */
    predicate Fits(len: nat, row: nat, y: nat) { Row(y) + row <= len }

    ghost predicate FitAll(len: nat, row: nat, rows: nat) {
      forall y :: 0 <= y < rows ==> Fits(len, row, y)
    }

    /** Byte `i` is in one of the first `rows` rows. */
    ghost predicate Covers(row: nat, rows: nat, i: nat) {
      exists y :: 0 <= y < rows && Row(y) <= i < Row(y) + row
    }

    ghost function Bytes(s: seq<Byte>, row: nat, y: nat): seq<Byte>
      requires Fits(|s|, row, y)
    {
      s[Row(y)..Row(y) + row]
    }

    lemma RowsApart(y: nat, z: nat)
      requires y < z
      ensures Row(y) + pitch <= Row(z)
    {
      assert z * pitch == (z - y - 1) * pitch + (y + 1) * pitch;
    }
  }
}
