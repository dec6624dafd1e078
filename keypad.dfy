/** The keypad column scan driven by the TIM7 update interrupt.
    The global column index is a `uint8_t`; the row sampler, the debounce
    history and the column driver are collaborators whose bodies are not part
    of this model, so each call to them is recorded in a trace instead. */
module Keypad {

  /** One call from the tick handler into a collaborator. */
  datatype IoCall =
    | ReadRows(rows: int)               // read_rows() returned `rows`
    | UpdateHistory(col: int, rows: int) // update_history(col, rows)
    | DriveColumn(col: int)             // drive_column(col)

  /** The column that follows `c`: `(col + 1) & 3`, computed by C on the
      value promoted to `int` and stored back into the 8-bit global. As the
      mask keeps only the two low bits, 8-bit arithmetic gives the same
      result. */
  function NextColumn(c: bv8): (r: bv8)
    ensures r < 4
    ensures c < 3 ==> r == c + 1
    ensures c == 3 ==> r == 0
  {
    (c + 1) & 3
  }

  /** The column index after `n` ticks starting from `c`. */
  function ColumnAfter(c: bv8, n: nat): (r: bv8)
    ensures n > 0 || c < 4 ==> r < 4
    decreases n
  {
    if n == 0 then c else NextColumn(ColumnAfter(c, n - 1))
  }

  /** From a valid column, four ticks lead back to it, visiting the other
      three columns on the way. */
  lemma FourTicksVisitEveryColumn(c: bv8)
    requires c < 4
    ensures ColumnAfter(c, 4) == c
    ensures {ColumnAfter(c, 1), ColumnAfter(c, 2), ColumnAfter(c, 3), ColumnAfter(c, 4)} == {0, 1, 2, 3}
  {
    var a1, a2, a3, a4 := ColumnAfter(c, 1), ColumnAfter(c, 2), ColumnAfter(c, 3), ColumnAfter(c, 4);
    if c == 0 {
      assert a1 == 1 && a2 == 2 && a3 == 3 && a4 == 0;
    } else if c == 1 {
      assert a1 == 2 && a2 == 3 && a3 == 0 && a4 == 1;
    } else if c == 2 {
      assert a1 == 3 && a2 == 0 && a3 == 1 && a4 == 2;
    } else {
      assert a1 == 0 && a2 == 1 && a3 == 2 && a4 == 3;
    }
  }

  /** The scan is periodic: four more ticks give the same column. */
  lemma {:induction false} ColumnAfterPeriodic(c: bv8, n: nat)
    requires c < 4
    ensures ColumnAfter(c, n + 4) == ColumnAfter(c, n)
    decreases n
  {
    if n == 0 {
      FourTicksVisitEveryColumn(c);
    } else {
      ColumnAfterPeriodic(c, n - 1);
    }
  }

  /** Only the tick count modulo four matters. */
  lemma {:induction false} ColumnAfterMod(c: bv8, n: nat)
    requires c < 4
    ensures ColumnAfter(c, n) == ColumnAfter(c, n % 4)
    decreases n
  {
    if n >= 4 {
      ColumnAfterMod(c, n - 4);
      ColumnAfterPeriodic(c, n - 4);
    }
  }

  /** Starting from a valid column, the scan is back where it began exactly
      when a whole number of four-tick cycles has elapsed: each key's
      history is updated once every four ticks and at no other time. */
  lemma ReturnsEveryFourTicks(c: bv8, n: nat)
    requires c < 4
    ensures ColumnAfter(c, n) == c <==> n % 4 == 0
  {
    ColumnAfterMod(c, n);
    FourTicksVisitEveryColumn(c);
  }

  /** The scan state: the global `col` and the calls made so far. */
  class Scanner {
    var col: bv8
    ghost var calls: seq<IoCall>

    /** The C global starts at zero. */
    constructor ()
      ensures col == 0 && calls == []
    {
      col := 0;
      calls := [];
    }

    /** TIM7_IRQHandler, with `rows` the value `read_rows()` returns on this
        tick. The history update sees the column driven before the tick and
        the driver receives the column after it. */
    method Tick(rows: int)
      modifies this
      ensures col == NextColumn(old(col)) && col < 4
      ensures calls == old(calls) + [ReadRows(rows), UpdateHistory(old(col) as int, rows), DriveColumn(col as int)]
    {
      calls := calls + [ReadRows(rows)];
      calls := calls + [UpdateHistory(col as int, rows)];
      col := NextColumn(col);
      calls := calls + [DriveColumn(col as int)];
    }
  }
}
