/**
 * AddAssignment as flex.c writes it, on the 17 x 1000 cells of
 * `aGroupCodes` laid out row after row.  The guard `count < 1000` admits a
 * row that already holds 999 members; the member is then written to cell
 * 1000 of its row, which is the count cell of the next row (or lies past
 * the array for the last row, which only a direct call can name: showframe
 * passes the group bit of a checked vector word, which is 0..15; see
 * `Words.GroupBitOfCheckedWord`).  `FlexState.AddAssignment` uses the guard
 * count + 1 < 1000 instead, and agrees with the code everywhere else.
 */
module GroupsAsWritten {
  import opened Words
  import opened FlexState

  datatype Option<T> = None | Some(value: T)

  const CELLS: nat := 17000

  /** The rows laid out one after another, as C stores `int aGroupCodes[17][1000]`. */
  function Flatten(rows: seq<seq<int>>): (cells: seq<int>)
    requires GroupsOk(rows)
    ensures |cells| == CELLS
    ensures forall g, k :: 0 <= g < GROUP_ROWS && 0 <= k < MAXIMUM_GROUPSIZE ==> cells[g * 1000 + k] == rows[g][k]
  {
    var cells := seq(CELLS, i requires 0 <= i < CELLS => rows[i / 1000][i % 1000]);
    forall g, k | 0 <= g < GROUP_ROWS && 0 <= k < MAXIMUM_GROUPSIZE
      ensures cells[g * 1000 + k] == rows[g][k]
    {
      FlatIndex(g, k);
    }
    cells
  }

  lemma {:induction false} FlatIndex(g: int, k: int)
    requires 0 <= g < GROUP_ROWS && 0 <= k < MAXIMUM_GROUPSIZE
    ensures (g * 1000 + k) / 1000 == g && (g * 1000 + k) % 1000 == k
  {
  }

  /** The row and slot a cell index stands for. */
  lemma {:induction false} CellOf(i: int) returns (h: int, j: int)
    requires 0 <= i < CELLS
    ensures 0 <= h < GROUP_ROWS && 0 <= j < MAXIMUM_GROUPSIZE && i == h * 1000 + j
  {
    h, j := i / 1000, i % 1000;
  }

  /** Two different (row, slot) pairs are stored in two different cells. */
  lemma {:induction false} CellsDistinct(h: int, j: int, g: int, k: int)
    requires 0 <= j < MAXIMUM_GROUPSIZE && 0 <= k < MAXIMUM_GROUPSIZE && (h != g || j != k)
    ensures h * 1000 + j != g * 1000 + k
  {
    if h < g {
      assert h * 1000 + 1000 <= g * 1000;
    } else if g < h {
      assert g * 1000 + 1000 <= h * 1000;
    }
  }

  /**
   * The member-table update of AddAssignment (flex.c:401-406) as written:
   * None when the store falls outside the array.
   */
  function AddAssignmentAsWritten(cells: seq<int>, groupbit: int, capcode: int): (r: Option<seq<int>>)
    requires |cells| == CELLS && 0 <= groupbit < GROUP_ROWS && cells[groupbit * 1000] >= 0
    ensures r.Some? ==> |r.value| == CELLS
    ensures cells[groupbit * 1000] >= MAXIMUM_GROUPSIZE ==> r == Some(cells)
    ensures r.None? <==> groupbit == 16 && cells[groupbit * 1000] == 999
  {
    var n := cells[groupbit * 1000];
    if n < MAXIMUM_GROUPSIZE then
      var at := groupbit * 1000 + n + 1;
      if 0 <= at < CELLS then Some(cells[groupbit * 1000 := n + 1][at := capcode]) else None
    else Some(cells)
  }

  /** A row of 999 members: the next member overwrites the following row's count. */
  lemma {:induction false} AsWrittenOverrunsNextRow(rows: seq<seq<int>>, capcode: int)
    requires GroupsOk(rows) && rows[0][0] == 999 && capcode != rows[1][0]
    ensures var r := AddAssignmentAsWritten(Flatten(rows), 0, capcode);
            r.Some? && r.value[1000] == capcode && r.value[1000] != Flatten(rows)[1000]
  {
    FlatIndex(1, 0);
  }

  /**
   * The same row in the last group: the store lands past the end of the array.
   * showframe never passes row 16, so only a direct call reaches this.
   */
  lemma {:induction false} AsWrittenOverrunsArray(rows: seq<seq<int>>, capcode: int)
    requires GroupsOk(rows) && rows[16][0] == 999
    ensures AddAssignmentAsWritten(Flatten(rows), 16, capcode).None?
  {
    FlatIndex(16, 0);
  }

  /** Changing one slot of one row changes the one cell it is stored in. */
  lemma {:induction false} FlattenUpdate(rows: seq<seq<int>>, g: int, k: int, v: int)
    requires GroupsOk(rows) && 0 <= g < GROUP_ROWS && 0 <= k < MAXIMUM_GROUPSIZE
    requires RowOk(rows[g][k := v])
    ensures GroupsOk(rows[g := rows[g][k := v]])
    ensures Flatten(rows[g := rows[g][k := v]]) == Flatten(rows)[g * 1000 + k := v]
  {
    var rows' := rows[g := rows[g][k := v]];
    assert GroupsOk(rows');
    FlatIndex(g, k);
    forall i | 0 <= i < CELLS
      ensures Flatten(rows')[i] == Flatten(rows)[g * 1000 + k := v][i]
    {
      FlattenUpdateCell(rows, rows', g, k, v, i);
    }
  }

  /** FlattenUpdate, one cell at a time. */
  lemma {:induction false} FlattenUpdateCell(rows: seq<seq<int>>, rows': seq<seq<int>>, g: int, k: int, v: int, i: int)
    requires GroupsOk(rows) && GroupsOk(rows') && 0 <= g < GROUP_ROWS && 0 <= k < MAXIMUM_GROUPSIZE
    requires rows' == rows[g := rows[g][k := v]] && 0 <= i < CELLS
    ensures Flatten(rows')[i] == Flatten(rows)[g * 1000 + k := v][i]
  {
    var h, j := CellOf(i);
    var a, c := Flatten(rows'), Flatten(rows);
    assert a[i] == rows'[h][j];
    if h == g && j == k {
      assert rows'[h][j] == v;
    } else {
      CellsDistinct(h, j, g, k);
      assert rows'[h][j] == rows[h][j] == c[i];
    }
  }

  /** The row AddAssignment leaves behind when there is room: count + 1 in slot 0, the capcode in slot count + 1. */
  lemma {:induction false} AddedRow(d: Snap, assignedFrame: int, groupbit: int, capcode: int)
    requires SnapOk(d) && 0 <= groupbit < GROUP_ROWS && d.groupCodes[groupbit][0] < 999
    ensures var n := d.groupCodes[groupbit][0];
            AddAssignment(d, assignedFrame, groupbit, capcode).groupCodes
              == d.groupCodes[groupbit := d.groupCodes[groupbit][0 := n + 1][n + 1 := capcode]]
  {
    var rows := d.groupCodes;
    var rows' := AddAssignment(d, assignedFrame, groupbit, capcode).groupCodes;
    var n := rows[groupbit][0];
    var row := rows[groupbit][0 := n + 1][n + 1 := capcode];
    assert Members(rows'[groupbit]) == Members(rows[groupbit]) + [capcode];
    forall k | 0 <= k < MAXIMUM_GROUPSIZE
      ensures rows'[groupbit][k] == row[k]
    {
      if 1 <= k <= n + 1 {
        assert rows'[groupbit][k] == Members(rows'[groupbit])[k - 1];
        if k <= n {
          assert rows[groupbit][k] == Members(rows[groupbit])[k - 1];
        }
      }
    }
    assert rows'[groupbit] == row;
  }

  /** Below 999 members the code as written and the corrected AddAssignment change the same cells in the same way. */
  lemma {:induction false} CorrectedAgreesBelowFull(d: Snap, assignedFrame: int, groupbit: int, capcode: int)
    requires SnapOk(d) && 0 <= groupbit < GROUP_ROWS && d.groupCodes[groupbit][0] < 999
    ensures AddAssignmentAsWritten(Flatten(d.groupCodes), groupbit, capcode)
         == Some(Flatten(AddAssignment(d, assignedFrame, groupbit, capcode).groupCodes))
  {
    var rows := d.groupCodes;
    var n := rows[groupbit][0];
    AddedRow(d, assignedFrame, groupbit, capcode);
    var mid := rows[groupbit := rows[groupbit][0 := n + 1]];
    FlattenUpdate(rows, groupbit, 0, n + 1);
    assert mid[groupbit][n + 1 := capcode] == rows[groupbit][0 := n + 1][n + 1 := capcode];
    FlattenUpdate(mid, groupbit, n + 1, capcode);
    assert mid[groupbit := mid[groupbit][n + 1 := capcode]] == AddAssignment(d, assignedFrame, groupbit, capcode).groupCodes;
    FlatIndex(groupbit, 0);
  }

  /** The corrected guard never lets any row's count reach 1000, whatever sequence of assignments arrives. */
  lemma {:induction false} CorrectedKeepsRows(d: Snap, assignedFrame: int, groupbit: int, capcode: int)
    requires SnapOk(d) && 0 <= groupbit < GROUP_ROWS
    ensures var r := AddAssignment(d, assignedFrame, groupbit, capcode);
            forall g :: 0 <= g < GROUP_ROWS ==> 0 <= r.groupCodes[g][0] < MAXIMUM_GROUPSIZE
  {
  }
}
