/** Cursor and iterator over a record set under a row filter (Data/src/RecordSet.cpp, RowIterator.cpp). Row numbers are 64 bits wide,
    so one less than no rows is the largest of them. */
module RecordCursor {
  import opened Wrappers

  const SIZE_MAX: nat := 0xFFFF_FFFF_FFFF_FFFF

  const POSITION_END: nat := SIZE_MAX

  /** subTotalRowCount() - 1 */
  function LastRow(rows: nat): nat {
    if rows == 0 then SIZE_MAX else rows - 1
  }

  /** The first row after a given one, up to the last, that the filter allows. */
  function NextRow(allow: nat -> bool, row: nat, last: nat): (r: Option<nat>)
    ensures r.Some? ==> row < r.value <= last && allow(r.value) && forall i :: row < i < r.value ==> !allow(i)
    ensures r == None ==> forall i :: row < i <= last ==> !allow(i)
    decreases last - row
  {
    if row >= last then None
    else if allow(row + 1) then Some(row + 1)
    else NextRow(allow, row + 1, last)
  }

  function PreviousRow(allow: nat -> bool, row: nat): (r: Option<nat>)
    ensures r.Some? ==> r.value < row && allow(r.value) && forall i :: r.value < i < row ==> !allow(i)
    ensures r == None ==> forall i: nat :: i < row ==> !allow(i)
  {
    if row == 0 then None
    else if allow(row - 1) then Some(row - 1)
    else PreviousRow(allow, row - 1)
  }

  /** The allowed rows from a given one on, in order. */
  function RowsFrom(allow: nat -> bool, row: nat, rows: nat): seq<nat>
    decreases rows - row
  {
    if row >= rows then []
    else (if allow(row) then [row] else []) + RowsFrom(allow, row + 1, rows)
  }

  /** They are exactly the allowed ones, each once, in increasing order. */
  lemma {:induction false} RowsAreAllowed(allow: nat -> bool, row: nat, rows: nat)
    ensures var s := RowsFrom(allow, row, rows);
            (forall r: nat :: r in s <==> row <= r < rows && allow(r)) && forall i, j :: 0 <= i < j < |s| ==> s[i] < s[j]
    decreases rows - row
  {
    if row < rows {
      RowsAreAllowed(allow, row + 1, rows);
      var t := RowsFrom(allow, row + 1, rows);
      var s := (if allow(row) then [row] else []) + t;
      hide RowsFrom;
      forall i, j | 0 <= i < j < |s| ensures s[i] < s[j] {
        if allow(row) {
          assert s[j] == t[j - 1] && t[j - 1] in t;
        }
      }
    }
  }

  /** Going back undoes going forward from an allowed row. */
  lemma BackFromNext(allow: nat -> bool, row: nat, last: nat)
    requires allow(row) && NextRow(allow, row, last).Some?
    ensures PreviousRow(allow, NextRow(allow, row, last).value) == Some(row)
  {
    var s := NextRow(allow, row, last).value;
    var r := PreviousRow(allow, s);
    assert r != None;
    assert !(r.value < row) && !(row < r.value);
  }

  /** What is left to visit after a row begins with the next one. */
  lemma {:induction false} RestBegins(allow: nat -> bool, row: nat, rows: nat)
    requires rows > 0
    ensures var s := NextRow(allow, row, rows - 1);
            RowsFrom(allow, row + 1, rows) == if s == None then [] else [s.value] + RowsFrom(allow, s.value + 1, rows)
    decreases rows - row
  {
    if row < rows - 1 && !allow(row + 1) { RestBegins(allow, row + 1, rows); }
  }

  lemma {:induction false} RowsBegin(allow: nat -> bool, row: nat, rows: nat)
    ensures var s := RowsFrom(allow, row, rows);
            s != [] ==> row <= s[0] < rows && allow(s[0]) && s == [s[0]] + RowsFrom(allow, s[0] + 1, rows)
    decreases rows - row
  {
    if row < rows && !allow(row) { RowsBegin(allow, row + 1, rows); }
  }

  class RecordSet {
    const rows: nat
    const filtered: bool
    const filter: nat -> bool
    var currentRow: nat

    constructor (rows: nat, filtered: bool, filter: nat -> bool)
      requires rows < SIZE_MAX
      ensures this.rows == rows && this.filtered == filtered && this.filter == filter && currentRow == 0
    {
      this.rows, this.filtered, this.filter, currentRow := rows, filtered, filter, 0;
    }

    predicate IsAllowed(row: nat) {
      !filtered || filter(row)
    }

    function Allow(): nat -> bool {
      (r: nat) => IsAllowed(r)
    }

    /** rowCount */
    method RowCount() returns (count: nat)
      ensures count == |RowsFrom(Allow(), 0, rows)|
    {
      if !filtered {
        AllRows(Allow(), 0, rows);
        return rows;
      }
      count := 0;
      for row := 0 to rows
        invariant count + |RowsFrom(Allow(), row, rows)| == |RowsFrom(Allow(), 0, rows)|
      {
        if IsAllowed(row) { count := count + 1; }
      }
    }

    method MoveFirst() returns (moved: bool)
      modifies this
      ensures moved <==> RowsFrom(Allow(), 0, rows) != []
      ensures currentRow == if moved then RowsFrom(Allow(), 0, rows)[0] else old(currentRow)
    {
      if rows == 0 { return false; }
      if !filtered {
        currentRow := 0;
        return true;
      }
      var row := 0;
      while !IsAllowed(row)
        invariant row < rows && RowsFrom(Allow(), row, rows) == RowsFrom(Allow(), 0, rows) && currentRow == old(currentRow)
        decreases rows - row
      {
        if row >= rows - 1 { return false; }
        row := row + 1;
      }
      currentRow := row;
      return true;
    }

    method MoveNext() returns (moved: bool)
      modifies this
      ensures var next := NextRow(Allow(), old(currentRow), LastRow(rows));
              moved == next.Some? && currentRow == if moved then next.value else old(currentRow)
    {
      var row := currentRow;
      while true
        invariant currentRow == old(currentRow)
        invariant NextRow(Allow(), row, LastRow(rows)) == NextRow(Allow(), currentRow, LastRow(rows))
        decreases LastRow(rows) - row
      {
        if row >= LastRow(rows) { return false; }
        row := row + 1;
        if !(filtered && !IsAllowed(row)) { break; }
      }
      currentRow := row;
      return true;
    }

    method MovePrevious() returns (moved: bool)
      modifies this
      ensures var previous := PreviousRow(Allow(), old(currentRow));
              moved == previous.Some? && currentRow == if moved then previous.value else old(currentRow)
    {
      var row := currentRow;
      while true
        invariant currentRow == old(currentRow) && PreviousRow(Allow(), row) == PreviousRow(Allow(), currentRow)
        decreases row
      {
        if row <= 0 { return false; }
        row := row - 1;
        if !(filtered && !IsAllowed(row)) { break; }
      }
      currentRow := row;
      return true;
    }

    method MoveLast() returns (moved: bool)
      modifies this
      ensures moved <==> PreviousRow(Allow(), rows).Some?
      ensures currentRow == if moved then PreviousRow(Allow(), rows).value else old(currentRow)
    {
      if rows == 0 { return false; }
      var row: nat := rows - 1;
      if !filtered {
        currentRow := row;
        return true;
      }
      while !IsAllowed(row)
        invariant row < rows && currentRow == old(currentRow) && PreviousRow(Allow(), row + 1) == PreviousRow(Allow(), rows)
        decreases row
      {
        if row <= 0 { return false; }
        row := row - 1;
      }
      currentRow := row;
      return true;
    }

    /** row(pos): the check before a row is built. */
    method RowExists(pos: nat) returns (ok: bool)
      ensures ok <==> pos < |RowsFrom(Allow(), 0, rows)|
    {
      var count := RowCount();
      return !(count == 0 || pos > count - 1);
    }

    /** moveFirst, then moveNext as long as it moves: all allowed rows of a record set that is not empty. */
    method VisitAll() returns (visited: seq<nat>)
      requires rows > 0
      modifies this
      ensures visited == RowsFrom(Allow(), 0, rows)
      ensures forall r: nat :: r in visited <==> r < rows && (filtered ==> filter(r))
    {
      hide RowsFrom, NextRow;
      ghost var all := RowsFrom(Allow(), 0, rows);
      RowsBegin(Allow(), 0, rows);
      visited := [];
      var moved := MoveFirst();
      while moved
        invariant if moved then currentRow < rows && visited + ([currentRow] + RowsFrom(Allow(), currentRow + 1, rows)) == all
                  else visited == all
        decreases moved, rows - currentRow
      {
        ghost var rest := RowsFrom(Allow(), currentRow + 1, rows);
        assert visited + ([currentRow] + rest) == visited + [currentRow] + rest;
        visited := visited + [currentRow];
        RestBegins(Allow(), currentRow, rows);
        moved := MoveNext();
      }
      RowsAreAllowed(Allow(), 0, rows);
    }
  }

  lemma {:induction false} AllRows(allow: nat -> bool, row: nat, rows: nat)
    requires row <= rows && forall r :: allow(r)
    ensures |RowsFrom(allow, row, rows)| == rows - row
    decreases rows - row
  {
    if row < rows { AllRows(allow, row + 1, rows); }
  }

  /** moveNext never leaves the record set exactly when there is a row: without any, one less than the row count is no bound. */
  lemma MoveNextStaysInside(rows: nat)
    requires rows < SIZE_MAX
    ensures (forall allow: nat -> bool, row: nat :: var next := NextRow(allow, row, LastRow(rows)); next.Some? ==> next.value < rows)
            <==> rows > 0
  {
    var all: nat -> bool := (r: nat) => true;
    if rows == 0 {
      assert NextRow(all, 0, LastRow(rows)) == Some(1);
    }
  }

  // ----- rows that row() refuses -----

  ghost predicate Increasing(s: seq<nat>) {
    forall i, j :: 0 <= i < j < |s| ==> s[i] < s[j]
  }

  lemma {:induction false} AtLeastIndex(s: seq<nat>, i: nat)
    requires Increasing(s) && i < |s|
    ensures i <= s[i]
  {
    if i > 0 { AtLeastIndex(s, i - 1); }
  }

  lemma {:induction false} GapGrows(s: seq<nat>, p: nat, i: nat)
    requires Increasing(s) && p <= i < |s| && s[p] > p
    ensures s[i] > i
    decreases i
  {
    if i > p { GapGrows(s, p, i - 1); }
  }

  /** Where the numbers pass over one, there is an index smaller than its number. */
  lemma {:induction false} FindGap(s: seq<nat>, gap: nat, i: nat) returns (p: nat)
    requires Increasing(s) && gap !in s && i < |s| && s[i] > gap
    ensures p <= i && s[p] > p
    decreases i
  {
    if i <= gap {
      p := i;
    } else {
      AtLeastIndex(s, i - 1);
      assert s[i - 1] in s;
      p := FindGap(s, gap, i - 1);
    }
  }

  lemma {:induction false} IndexOf(s: seq<nat>, n: nat)
    requires Increasing(s) && n > 0 && forall k: nat :: k < n ==> k in s
    ensures n - 1 < |s| && s[n - 1] == n - 1
  {
    var last: nat := n - 1;
    assert last in s;
    var i :| 0 <= i < |s| && s[i] == last;
    AtLeastIndex(s, i);
    if n > 1 {
      IndexOf(s, n - 1);
      assert s[n - 2] == n - 2;
    }
  }

  /** row() accepts every allowed row exactly when no row before an allowed one is filtered out: it compares the row number with the
      number of allowed rows. */
  lemma RowsAccepted(allow: nat -> bool, rows: nat)
    ensures (forall r: nat :: r < rows && allow(r) ==> r < |RowsFrom(allow, 0, rows)|)
            <==> forall i: nat, j: nat :: i < j < rows && allow(j) ==> allow(i)
  {
    var s := RowsFrom(allow, 0, rows);
    RowsAreAllowed(allow, 0, rows);
    if forall i: nat, j: nat :: i < j < rows && allow(j) ==> allow(i) {
      forall r: nat | r < rows && allow(r) ensures r < |s| {
        assert forall k: nat :: k < r + 1 ==> k in s;
        IndexOf(s, r + 1);
      }
    } else {
      var i: nat, j: nat :| i < j < rows && allow(j) && !allow(i);
      assert j in s && i !in s;
      var r := LastBehindGap(s, i, j);
      assert r < rows && allow(r) && !(r < |s|);
    }
  }

  lemma LastBehindGap(s: seq<nat>, i: nat, j: nat) returns (r: nat)
    requires Increasing(s) && i < j && i !in s && j in s
    ensures r in s && r >= |s|
  {
    var k :| 0 <= k < |s| && s[k] == j;
    var p := FindGap(s, i, k);
    GapGrows(s, p, |s| - 1);
    r := s[|s| - 1];
  }

  // ----- the iterator -----

  class RowIterator {
    const recordSet: RecordSet
    var position: nat

    constructor (recordSet: RecordSet, positionEnd: bool)
      ensures this.recordSet == recordSet && position == if positionEnd then POSITION_END else 0
    {
      this.recordSet, position := recordSet, if positionEnd then POSITION_END else 0;
    }

    /** increment: the position moveNext would reach, or the end; it throws at the end. Over an empty record set that position is a
        row that does not exist. */
    method Increment() returns (ok: bool)
      requires recordSet.rows < SIZE_MAX
      modifies this
      ensures ok == (old(position) != POSITION_END)
      ensures !ok ==> position == old(position)
      ensures ok ==> var next := NextRow(recordSet.Allow(), old(position), LastRow(recordSet.rows));
                     position == if next.Some? then next.value else POSITION_END
      decreases POSITION_END - position
    {
      if position == POSITION_END { return false; }
      var last := LastRow(recordSet.rows);
      ghost var allow := recordSet.Allow();
      ghost var target := NextRow(allow, position, last);
      if position < last {
        position := position + 1;
      } else {
        position := POSITION_END;
      }
      if recordSet.filtered && position != POSITION_END {
        while !recordSet.IsAllowed(position)
          invariant position != POSITION_END && old(position) < position <= last
          invariant target == if allow(position) then Some(position) else NextRow(allow, position, last)
          decreases POSITION_END - position
        {
          var _ := Increment();
          if position == POSITION_END { break; }
        }
      }
      return true;
    }
  }

  lemma BeginsAllowed(allow: nat -> bool, rows: nat)
    requires rows > 0
    ensures [0] + RowsFrom(allow, 1, rows) == RowsFrom(allow, 0, rows) <==> allow(0)
  {
    RowsAreAllowed(allow, 0, rows);
    assert ([0] + RowsFrom(allow, 1, rows))[0] in [0] + RowsFrom(allow, 1, rows);
  }

  /** From the begin iterator to the end: the first row, allowed or not, and then the allowed rows after it. Those are
      the allowed rows if and only if the first one is. */
  method IterateAll(recordSet: RecordSet) returns (visited: seq<nat>)
    requires 0 < recordSet.rows < SIZE_MAX
    ensures visited == [0] + RowsFrom(recordSet.Allow(), 1, recordSet.rows)
    ensures visited == RowsFrom(recordSet.Allow(), 0, recordSet.rows) <==> recordSet.IsAllowed(0)
  {
    hide RowsFrom, NextRow;
    var it := new RowIterator(recordSet, false);
    ghost var allow, rows := recordSet.Allow(), recordSet.rows;
    visited := [];
    while it.position != POSITION_END
      invariant it.position == POSITION_END || it.position < rows
      invariant if it.position == POSITION_END then visited == [0] + RowsFrom(allow, 1, rows)
                else visited + ([it.position] + RowsFrom(allow, it.position + 1, rows)) == [0] + RowsFrom(allow, 1, rows)
      decreases POSITION_END - it.position
    {
      ghost var rest := RowsFrom(allow, it.position + 1, rows);
      assert visited + ([it.position] + rest) == visited + [it.position] + rest;
      visited := visited + [it.position];
      RestBegins(allow, it.position, rows);
      var _ := it.Increment();
    }
    BeginsAllowed(allow, rows);
  }
}
