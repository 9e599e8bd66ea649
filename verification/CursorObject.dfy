/** The visitor object: the loops that move the cursor and fill the cache, each proved against
    its specification. */
module CursorObject {
  import opened Wrappers
  import opened RowCache

  const ROW_END: int := 0xFFFF_FFFF_FFFF_FFFF

  class DumpVisitor {
    const scope: Scope
    const dumper: Dumper
    var rows: Rows
    var pos: nat
    var line: nat
    var da: (int, nat)

    constructor (sc: Scope, d: Dumper)
      ensures scope == sc && dumper == d && At() == Cursor([], 0, 0)
    {
      scope, dumper, rows, pos, line, da := sc, d, [], 0, 0, (0, 0);
    }

    function At(): Cursor
      reads this
    {
      Cursor(rows, pos, line)
    }

    /** The row under the cursor, as the position keeps it. */
    function RowNow(): int
      reads this
    {
      if rows == [] then 0 else if pos >= |rows| then ROW_END else rows[pos].id
    }

    /** The first line at or above a row: the multimap's answer, corrected for equal keys. */
    method LowerIt(row: int) returns (i: nat)
      requires RowsOk(scope, rows)
      ensures i == LowerBound(rows, row, 0)
    {
      i := LowerBound(rows, row, 0);
      if i == |rows| {
        return;
      }
      ghost var i0 := i;
      while i != 0 && rows[i].id == row
        invariant i < |rows| && (i == i0 || (i + 1 == i0 && rows[i].id < row))
      {
        i := i - 1;
      }
      if rows[i].id < row {
        i := i + 1;
      }
    }

    /** Largest span among a line and the earlier ones of its row, and their number. */
    method GroupUp(p: nat) returns (span: nat, n: nat)
      requires p < |rows|
      ensures span == MaxSpan(rows, p) && n == LineOf(rows, p)
    {
      var i: nat := p;
      span, n := rows[p].span, 0;
      while i != 0 && rows[i - 1].id == rows[p].id
        invariant i <= p && n == p - i
        invariant forall k :: i <= k <= p ==> rows[k].id == rows[p].id
        invariant MaxSpan(rows, p) == MaxOf(span, MaxSpan(rows, i))
        invariant span >= rows[i].span
        invariant LineOf(rows, p) == n + LineOf(rows, i)
      {
        i := i - 1;
        span := MaxOf(rows[i].span, span);
        n := n + 1;
      }
    }

    /** Asks the dumper, unless the row has been dumped already. */
    method DumpZ(row: int)
      modifies this`rows
      ensures rows == Dumped(dumper, old(rows), row)
    {
      var i := LowerBound(rows, row, 0);
      if i < |rows| {
        if rows[i].id == row {
          return;
        }
        if i != 0 {
          var span, n := GroupUp(i - 1);
          if rows[i - 1].id + span > row {
            return;
          }
        }
      }
      rows := dumper(rows, row);
    }

    /** Steps down at most `n` lines of the same row, from its first one. */
    method AlongRow(n: nat)
      requires pos < |rows| && line == 0
      modifies this`pos, this`line
      ensures pos == old(pos) + Along(rows, old(pos), n) && line == Along(rows, old(pos), n)
    {
      var left: nat := n;
      while left != 0 && pos + 1 != |rows| && rows[pos + 1].id == rows[pos].id
        invariant old(pos) + line == pos < |rows|
        invariant Along(rows, old(pos), n) == line + Along(rows, pos, left)
        decreases left
      {
        pos, line, left := pos + 1, line + 1, left - 1;
      }
    }

    /** Places the cursor on a row, at most `n` lines down. */
    method SeekIt(row: int, n: nat) returns (ok: bool)
      requires RowsOk(scope, rows)
      modifies this`pos, this`line
      ensures (ok, pos, line) == SeekIn(rows, row, n)
    {
      hide RowsOk, LowerBound, MaxSpan, LineOf, Along;
      pos, line := 0, 0;
      if rows == [] {
        return false;
      }
      pos := LowerIt(row);
      if pos != |rows| {
        if rows[pos].id == row {
          AlongRow(n);
          return true;
        }
        if pos == 0 {
          pos := |rows|;
          return false;
        }
      }
      pos := pos - 1;
      var span;
      span, line := GroupUp(pos);
      if row >= rows[pos].id + span {
        pos, line := |rows|, 0;
        return false;
      }
      return true;
    }

    /** Span of the group if the cursor is on its last line, else nothing. */
    method RowSpan() returns (span: nat)
      requires pos < |rows|
      ensures span == if IsLast(rows, pos) then rows[pos].span else 0
    {
      if pos + 1 != |rows| && rows[pos + 1].id == rows[pos].id {
        return 0;
      }
      return rows[pos].span;
    }

    /** Is there a gap below the cursor's group, and where? */
    method CheckEdgeBelow() returns (edge: bool, row: int, span: nat)
      requires pos <= |rows|
      ensures EdgeBelow(At()) == if edge then Some(row + if span < 1 then 1 else span) else None
    {
      row, span := 0, 0;
      if pos == |rows| {
        return false, row, span;
      }
      row := rows[pos].id;
      if pos + 1 != |rows| && rows[pos + 1].id == row {
        return false, row, span;
      }
      var n;
      span, n := GroupUp(pos);
      return pos + 1 == |rows| || row + span < rows[pos + 1].id, row, span;
    }

    method MoveForward() returns (ok: bool)
      requires Honest(scope, dumper) && CursorOk(scope, At())
      modifies this
      ensures (At(), ok) == Forward(scope, dumper, old(At()))
      ensures CursorOk(scope, At())
      ensures ok ==> da == (RowNow(), line)
    {
      hide RowsOk, Honest, Dumped, Covered, Fills, SeekIn, LowerBound;
      ghost var c := At();
      MoveKeeps(scope, dumper, c, On);
      var edge, row, span := CheckEdgeBelow();
      if edge {
        row := row + if span < 1 then 1 else span;
        if !(row < scope.hi) {
          pos, line := |rows|, 0;
          da := (RowNow(), line);
          return false;
        }
        FillBelow(scope, dumper, c);
        DumpZ(row);
        var found := SeekIt(row, 0);
        if !found {
          return false;
        }
      } else {
        var before, atEnd := RowNow(), pos == |rows|;
        if !atEnd {
          pos := pos + 1;
        }
        line := if atEnd || (pos < |rows| && rows[pos].id == before) then line + 1 else 0;
      }
      da := (RowNow(), line);
      return true;
    }

    /** Is there a gap above the cursor? */
    method CheckEdgeAbove() returns (edge: bool)
      requires pos <= |rows|
      ensures edge == EdgeAbove(scope, At())
    {
      if pos == 0 {
        return true;
      }
      if pos < |rows| {
        if rows[pos - 1].id == rows[pos].id {
          return false;
        }
        if rows[pos].id < scope.hi {
          return rows[pos - 1].id + rows[pos - 1].span < rows[pos].id;
        }
      }
      return false;
    }

    method MoveBackward() returns (ok: bool)
      requires Honest(scope, dumper) && CursorOk(scope, At())
      modifies this
      ensures (At(), ok) == Backward(scope, dumper, old(At()))
      ensures CursorOk(scope, At())
      ensures ok ==> da == (RowNow(), line)
    {
      hide RowsOk, Honest, Dumped, Covered, Fills, SeekIn, LowerBound;
      ghost var c := At();
      MoveKeeps(scope, dumper, c, Back);
      var row := if pos < |rows| then rows[pos].id else 0;
      var edge := CheckEdgeAbove();
      if edge {
        if row <= scope.lo {
          return false;
        }
        FillAbove(scope, dumper, c);
        DumpZ(row - 1);
        var found := SeekIt(row - 1, |rows|);
        if !found {
          return false;
        }
      } else {
        var same := pos < |rows| && rows[pos - 1].id == row;
        pos := pos - 1;
        if pos != 0 {
          if same {
            line := line - 1;
          } else {
            var span;
            span, line := GroupUp(pos);
          }
        } else {
          line := 0;
        }
      }
      da := (RowNow(), line);
      return true;
    }

    /** Goes to a line of a row of the scope; a row beyond the scope is its last one. */
    method SeekTo(row0: int, n: nat) returns (ok: bool)
      requires Honest(scope, dumper) && CursorOk(scope, At()) && scope.lo < scope.hi && scope.lo <= row0
      modifies this
      ensures (At(), ok) == Seek(scope, dumper, old(At()), row0, n)
      ensures CursorOk(scope, At()) && ok && da == (RowNow(), line)
    {
      hide RowsOk, Honest, Dumped, Covered, Fills, SeekIn, LowerBound, LineOf;
      SeekArrives(scope, dumper, At(), row0, n);
      var row := row0;
      if row >= scope.hi {
        row := scope.hi - 1;
      }
      ghost var was := rows;
      if rows == [] {
        DumpZ(row);
      } else {
        pos := LowerIt(row);
        if pos == 0 {
          if rows[pos].id > row {
            DumpZ(row);
          }
        } else if pos == |rows| || rows[pos].id > row {
          pos, line := pos - 1, 0;
          var span := RowSpan();
          if row >= rows[pos].id + span {
            DumpZ(row);
          }
        }
      }
      assert rows == SeekRows(dumper, was, row);
      hide SeekRows, MaxSpan;
      ok := SeekIt(row, n);
      da := (RowNow(), line);
    }
  }

  function MaxOf(a: nat, b: nat): nat { if a > b then a else b }

  lemma MoveKeeps(sc: Scope, d: Dumper, c: Cursor, m: Move)
    requires Honest(sc, d) && CursorOk(sc, c) && !m.Go?
    ensures CursorOk(sc, Moved(sc, d, c, m))
  {
    hide RowsOk, Honest;
    match m {
      case On => if c.pos < |c.rows| { ForwardStep(sc, d, c); }
      case Back => if c.pos < |c.rows| { BackwardStep(sc, d, c); }
    }
  }

  lemma FillBelow(sc: Scope, d: Dumper, c: Cursor)
    requires Honest(sc, d) && CursorOk(sc, c) && EdgeBelow(c).Some? && EdgeBelow(c).value < sc.hi
    ensures RowsOk(sc, Dumped(d, c.rows, EdgeBelow(c).value))
  {
    hide RowsOk, Honest;
    ForwardStep(sc, d, c);
  }

  lemma FillAbove(sc: Scope, d: Dumper, c: Cursor)
    requires Honest(sc, d) && CursorOk(sc, c) && c.pos < |c.rows| && EdgeAbove(sc, c) && c.RowId() > sc.lo
    ensures RowsOk(sc, Dumped(d, c.rows, c.RowId() - 1))
  {
    hide RowsOk, Honest;
    BackwardStep(sc, d, c);
  }
}
