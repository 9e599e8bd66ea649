/** The cache of dumped rows, filled on demand, and the cursor that walks over it. */
module RowCache {
  import opened Wrappers

  // ------------------------------------------------------------------ the cache

  /** A dumped line: the row it starts at and the number of rows it spans. Lines at the same
      row follow each other. */
  datatype Row = Row(id: int, span: nat)

  type Rows = seq<Row>

  /** The rows of the displayed scope. */
  datatype Scope = Scope(lo: nat, hi: int)

  predicate IsLast(rows: Rows, i: int) {
    0 <= i < |rows| && (i + 1 == |rows| || rows[i + 1].id != rows[i].id)
  }

  /** Where the next group starts, or the scope ends. */
  function NextId(sc: Scope, rows: Rows, i: nat): int
    requires i < |rows|
  {
    if i + 1 < |rows| then rows[i + 1].id else sc.hi
  }

  ghost predicate Ordered(rows: Rows) {
    forall i, j :: 0 <= i < j < |rows| ==> rows[i].id <= rows[j].id
  }

  ghost predicate SpansFit(sc: Scope, rows: Rows) {
    forall i :: IsLast(rows, i) ==> 1 <= rows[i].span && rows[i].id + rows[i].span <= NextId(sc, rows, i)
  }

  ghost predicate LastWidest(rows: Rows) {
    forall i, j :: 0 <= i < j && IsLast(rows, j) && rows[i].id == rows[j].id ==> rows[i].span <= rows[j].span
  }

  /** Lines are in the order of their rows; the last line of a group tells its span, which is
      positive and does not reach into the next group. */
  ghost predicate RowsOk(sc: Scope, rows: Rows) {
    && Ordered(rows)
    && (forall i :: 0 <= i < |rows| ==> sc.lo <= rows[i].id < sc.hi)
    && SpansFit(sc, rows) && LastWidest(rows)
  }

  ghost predicate Covered(rows: Rows, da: int) {
    exists i :: IsLast(rows, i) && rows[i].id <= da < rows[i].id + rows[i].span
  }

  /** First line at or above the row, from `i` on. */
  function LowerBound(rows: Rows, da: int, i: nat): (r: nat)
    requires i <= |rows|
    ensures i <= r <= |rows|
    ensures forall k :: i <= k < r ==> rows[k].id < da
    ensures r < |rows| ==> rows[r].id >= da
    decreases |rows| - i
  {
    if i == |rows| || rows[i].id >= da then i else LowerBound(rows, da, i + 1)
  }

  /** Number of earlier lines of the same row. */
  function LineOf(rows: Rows, i: nat): (r: nat)
    requires i < |rows|
    ensures r <= i
    ensures forall k :: i - r <= k <= i ==> rows[k].id == rows[i].id
    ensures r < i ==> rows[i - r - 1].id != rows[i].id
  {
    if i > 0 && rows[i - 1].id == rows[i].id then 1 + LineOf(rows, i - 1) else 0
  }

  /** Largest span among the line and the earlier ones of the same row. */
  function MaxSpan(rows: Rows, i: nat): nat
    requires i < |rows|
  {
    if i > 0 && rows[i - 1].id == rows[i].id then
      var m := MaxSpan(rows, i - 1);
      if m > rows[i].span then m else rows[i].span
    else rows[i].span
  }

  /** At the last line of a group the largest span is its own. */
  lemma {:induction false} MaxSpanAtLast(sc: Scope, rows: Rows, i: nat, j: nat)
    requires RowsOk(sc, rows) && i <= j && IsLast(rows, j) && rows[i].id == rows[j].id
    ensures MaxSpan(rows, i) <= rows[j].span
    ensures i == j ==> MaxSpan(rows, i) == rows[j].span
  {
    if i > 0 && rows[i - 1].id == rows[i].id {
      MaxSpanAtLast(sc, rows, i - 1, j);
    }
  }

  /** Whether a row is covered is seen from the line below it. */
  lemma CoveredIff(sc: Scope, rows: Rows, da: int)
    requires RowsOk(sc, rows)
    ensures var i := LowerBound(rows, da, 0);
            Covered(rows, da) <==>
              || (i < |rows| && rows[i].id == da)
              || (i > 0 && IsLast(rows, i - 1) && da < rows[i - 1].id + rows[i - 1].span)
  {
    hide RowsOk, LowerBound;
    var i := LowerBound(rows, da, 0);
    if i < |rows| && rows[i].id == da {
      var j := LastOf(sc, rows, i);
      LineFacts(sc, rows, j);
      assert rows[j].id <= da < rows[j].id + rows[j].span;
    } else if Covered(rows, da) {
      var j :| IsLast(rows, j) && rows[j].id <= da < rows[j].id + rows[j].span;
      InOrder(sc, rows, i, j);
      assert j < i;
      LineFacts(sc, rows, j);
      InOrder(sc, rows, j + 1, i - 1);
    }
  }

  lemma InOrder(sc: Scope, rows: Rows, i: nat, j: nat)
    requires RowsOk(sc, rows)
    ensures i <= j < |rows| ==> rows[i].id <= rows[j].id
  {}

  /** The last line of a group. */
  lemma {:induction false} LastOf(sc: Scope, rows: Rows, i: nat) returns (j: nat)
    requires RowsOk(sc, rows) && i < |rows|
    ensures i <= j && IsLast(rows, j) && rows[j].id == rows[i].id
    ensures forall k :: i <= k <= j ==> rows[k].id == rows[i].id
    decreases |rows| - i
  {
    if IsLast(rows, i) { j := i; } else { j := LastOf(sc, rows, i + 1); }
  }

  // ------------------------------------------------------------------ filling

  type Dumper = (Rows, int) -> Rows

  /** The dumper has only added lines inside the gap around the row, and covers the row. */
  ghost predicate Fills(sc: Scope, rows: Rows, rows': Rows, da: int) {
    var p, n := LowerBound(rows, da, 0), |rows'| - |rows|;
    && RowsOk(sc, rows') && Covered(rows', da)
    && n >= 0 && rows'[..p] == rows[..p] && rows'[p + n..] == rows[p..]
    && (forall i :: p <= i < p + n ==>
          (p > 0 ==> rows[p - 1].id < rows'[i].id) && (p < |rows| ==> rows'[i].id < rows[p].id))
  }

  /** Any dumper that fills the gap it is asked for. */
  ghost predicate Honest(sc: Scope, d: Dumper) {
    forall rows, da {:trigger d(rows, da)} ::
      RowsOk(sc, rows) && sc.lo <= da < sc.hi && !Covered(rows, da) ==> Fills(sc, rows, d(rows, da), da)
  }

  /** The test whether the row has been dumped already. */
  predicate Begins(rows: Rows, da: int) {
    var i := LowerBound(rows, da, 0);
    i == |rows| || (rows[i].id != da && (i == 0 || rows[i - 1].id + MaxSpan(rows, i - 1) <= da))
  }

  function Dumped(d: Dumper, rows: Rows, da: int): Rows {
    if Begins(rows, da) then d(rows, da) else rows
  }

  /** The test tells uncovered rows, except that it does not look at the span of the last group
      of the cache. */
  lemma BeginsIff(sc: Scope, rows: Rows, da: int)
    requires RowsOk(sc, rows)
    ensures Begins(rows, da) <==> !Covered(rows, da) || forall i :: 0 <= i < |rows| ==> rows[i].id < da
  {
    CoveredIff(sc, rows, da);
    var i := LowerBound(rows, da, 0);
    if i > 0 && i < |rows| && rows[i].id != da {
      assert IsLast(rows, i - 1);
      MaxSpanAtLast(sc, rows, i - 1, i - 1);
    }
  }

  // ------------------------------------------------------------------ the cursor

  /** The cursor: its place in the cache, which is its length at the end, and its line. */
  datatype Cursor = Cursor(rows: Rows, pos: nat, line: nat) {
    predicate AtEnd() { pos == |rows| }

    function RowId(): int
      requires pos < |rows|
    {
      rows[pos].id
    }
  }

  /** Away from the end the line is the number of earlier lines of the same row. */
  ghost predicate CursorOk(sc: Scope, c: Cursor) {
    && RowsOk(sc, c.rows) && c.pos <= |c.rows|
    && (c.pos < |c.rows| ==> c.line == LineOf(c.rows, c.pos))
  }

  /** Steps on at most `line` lines of the same row. */
  function Along(rows: Rows, i: nat, line: nat): (r: nat)
    requires i < |rows|
    ensures i + r < |rows| && r <= line && forall k :: i <= k <= i + r ==> rows[k].id == rows[i].id
    ensures r == line || IsLast(rows, i + r)
    decreases line
  {
    if line == 0 || i + 1 == |rows| || rows[i + 1].id != rows[i].id then 0
    else 1 + Along(rows, i + 1, line - 1)
  }

  /** `DumpIterator::seek`. */
  function SeekIn(rows: Rows, row: int, line: nat): (r: (bool, nat, nat))
    ensures r.1 <= |rows| && (r.0 ==> r.1 < |rows|)
  {
    if rows == [] then (false, 0, 0)
    else
      var i := LowerBound(rows, row, 0);
      if i < |rows| && rows[i].id == row then
        var k := Along(rows, i, line);
        (true, i + k, k)
      else if i == 0 || row >= rows[i - 1].id + MaxSpan(rows, i - 1) then (false, |rows|, 0)
      else (true, i - 1, LineOf(rows, i - 1))
  }

  /** A covered row is found: on its own line if a group starts there, else on the last line of
      the group that spans it. */
  lemma SeekFinds(sc: Scope, rows: Rows, row: int, line: nat)
    requires RowsOk(sc, rows)
    ensures var r := SeekIn(rows, row, line);
            && r.0 == Covered(rows, row)
            && CursorOk(sc, Cursor(rows, r.1, r.2))
            && (r.0 && rows[r.1].id == row ==> r.2 <= line && (r.2 == line || IsLast(rows, r.1)))
            && (r.0 && rows[r.1].id != row ==> IsLast(rows, r.1) && rows[r.1].id < row < rows[r.1].id + rows[r.1].span)
  {
    hide RowsOk, Covered, MaxSpan;
    CoveredIff(sc, rows, row);
    if rows != [] {
      var i := LowerBound(rows, row, 0);
      if i < |rows| && rows[i].id == row {
        var k := Along(rows, i, line);
        LineAlong(rows, i, k);
      } else if i > 0 {
        assert IsLast(rows, i - 1);
        MaxSpanAtLast(sc, rows, i - 1, i - 1);
      }
    }
  }

  lemma {:induction false} LineAlong(rows: Rows, i: nat, k: nat)
    requires i + k < |rows| && (forall j :: i <= j <= i + k ==> rows[j].id == rows[i].id)
    requires i == 0 || rows[i - 1].id != rows[i].id
    ensures LineOf(rows, i + k) == k
  {
    if k > 0 { LineAlong(rows, i, k - 1); }
  }

  /** The gap below the cursor's group, as the row where it starts; none inside a group or
      where the next group follows directly. */
  function EdgeBelow(c: Cursor): Option<int> {
    if c.pos >= |c.rows| || !IsLast(c.rows, c.pos) then None
    else
      var span := MaxSpan(c.rows, c.pos);
      if c.pos + 1 == |c.rows| || c.RowId() + span < c.rows[c.pos + 1].id
      then Some(c.RowId() + if span < 1 then 1 else span)
      else None
  }

  function Forward(sc: Scope, d: Dumper, c: Cursor): (Cursor, bool) {
    match EdgeBelow(c)
    case Some(row) =>
      if row >= sc.hi then (Cursor(c.rows, |c.rows|, 0), false)
      else
        var rows := Dumped(d, c.rows, row);
        var r := SeekIn(rows, row, 0);
        (Cursor(rows, r.1, r.2), r.0)
    case None =>
      if c.pos >= |c.rows| then (c.(line := c.line + 1), true)
      else
        var line := if c.pos + 1 < |c.rows| && c.rows[c.pos + 1].id == c.RowId() then c.line + 1 else 0;
        (Cursor(c.rows, c.pos + 1, line), true)
  }

  /** Is there a gap above the cursor? */
  predicate EdgeAbove(sc: Scope, c: Cursor) {
    || c.pos == 0
    || (c.pos < |c.rows|
        && c.rows[c.pos - 1].id != c.RowId() && c.RowId() < sc.hi
        && c.rows[c.pos - 1].id + c.rows[c.pos - 1].span < c.RowId())
  }

  function Backward(sc: Scope, d: Dumper, c: Cursor): (Cursor, bool)
    requires c.pos <= |c.rows|
  {
    if EdgeAbove(sc, c) then
      var row := if c.pos < |c.rows| then c.RowId() else 0;
      if row <= sc.lo then (c, false)
      else
        var rows := Dumped(d, c.rows, row - 1);
        var r := SeekIn(rows, row - 1, |rows|);
        (Cursor(rows, r.1, r.2), r.0)
    else
      var p := c.pos - 1;
      var line := if p == 0 then 0
                  else if c.pos < |c.rows| && c.rows[p].id == c.RowId() then (if c.line > 0 then c.line - 1 else 0)
                  else LineOf(c.rows, p);
      (Cursor(c.rows, p, line), true)
  }

  /** `DumpVisitor_t::Seek`: the rows after the fills it asks for. */
  function SeekRows(d: Dumper, rows: Rows, row: int): Rows {
    if rows == [] then Dumped(d, rows, row)
    else
      var i := LowerBound(rows, row, 0);
      if i == 0 then (if rows[0].id > row then Dumped(d, rows, row) else rows)
      else if i == |rows| || rows[i].id > row then
        (if row >= rows[i - 1].id + rows[i - 1].span then Dumped(d, rows, row) else rows)
      else rows
  }

  function Seek(sc: Scope, d: Dumper, c: Cursor, row0: int, line: nat): (Cursor, bool) {
    var row := if row0 >= sc.hi then sc.hi - 1 else row0;
    var rows := SeekRows(d, c.rows, row);
    var r := SeekIn(rows, row, line);
    (Cursor(rows, r.1, r.2), r.0)
  }

  // ------------------------------------------------------------------ one step

  /** The two agree on the lines up to `i`. */
  ghost predicate SameUpTo(rows: Rows, rows2: Rows, i: nat) {
    i < |rows| && i < |rows2| && forall k :: 0 <= k <= i ==> rows[k] == rows2[k]
  }

  /** The line follows on line `i` without a gap. */
  predicate Follows(rows: Rows, i: nat) {
    i + 1 < |rows| && (rows[i + 1].id == rows[i].id || rows[i + 1].id == rows[i].id + rows[i].span)
  }

  /** The edge is found exactly where nothing follows, and is then an uncovered row, unless the
      scope ends there. */
  lemma EdgeBelowIs(sc: Scope, c: Cursor)
    requires CursorOk(sc, c) && c.pos < |c.rows|
    ensures match EdgeBelow(c)
            case None => Follows(c.rows, c.pos)
            case Some(row) =>
              && IsLast(c.rows, c.pos) && row == c.RowId() + c.rows[c.pos].span <= sc.hi
              && LowerBound(c.rows, row, 0) == c.pos + 1
              && (row >= sc.hi ==> c.pos + 1 == |c.rows|)
              && (row < sc.hi ==> !Covered(c.rows, row) && Begins(c.rows, row))
  {
    hide RowsOk, Covered, Begins, LowerBound, MaxSpan;
    LineFacts(sc, c.rows, c.pos);
    if c.pos + 1 < |c.rows| { LineFacts(sc, c.rows, c.pos + 1); }
    if IsLast(c.rows, c.pos) {
      MaxSpanAtLast(sc, c.rows, c.pos, c.pos);
      match EdgeBelow(c) {
        case None =>
        case Some(row) =>
          AtLeast(sc, c.rows, c.pos, row);
          assert c.pos + 1 < |c.rows| ==> c.rows[c.pos + 1].id > row;
          assert LowerBound(c.rows, row, 0) == c.pos + 1;
          CoveredIff(sc, c.rows, row);
          BeginsIff(sc, c.rows, row);
      }
    }
  }

  /** The gap is filled from its start on: the next line starts at the requested row. */
  lemma FilledBelow(sc: Scope, c: Cursor, rows': Rows, row: int)
    requires CursorOk(sc, c) && c.pos < |c.rows| && EdgeBelow(c) == Some(row) && row < sc.hi
    requires Fills(sc, c.rows, rows', row)
    ensures c.pos + 1 < |rows'| && SameUpTo(c.rows, rows', c.pos)
    ensures rows'[c.pos + 1].id == row == rows'[c.pos].id + rows'[c.pos].span
    ensures LowerBound(rows', row, 0) == c.pos + 1
  {
    hide EdgeBelow, Begins, RowsOk, Covered;
    EdgeBelowIs(sc, c);
    var p := c.pos + 1;
    forall k | 0 <= k < p && k < |rows'| ensures rows'[k] == c.rows[k] {
      assert rows'[k] == rows'[..p][k] == c.rows[..p][k];
    }
    LineFacts(sc, c.rows, c.pos);
    AtLeast(sc, rows', c.pos, row);
    CoveredIff(sc, rows', row);
    LineFacts(sc, rows', c.pos);
  }

  lemma LineFacts(sc: Scope, rows: Rows, i: nat)
    requires RowsOk(sc, rows) && i < |rows|
    ensures IsLast(rows, i) ==> 1 <= rows[i].span && rows[i].id + rows[i].span <= NextId(sc, rows, i)
    ensures sc.lo <= rows[i].id < sc.hi
  {}

  lemma AtLeast(sc: Scope, rows: Rows, i: nat, row: int)
    requires RowsOk(sc, rows) && i < |rows| && rows[i].id < row
    ensures LowerBound(rows, row, 0) > i
  {}

  /** `Forward` moves on by exactly one line, fills a gap before it enters it, and reports the
      end exactly on the last line of a group that ends with the scope. */
  lemma ForwardStep(sc: Scope, d: Dumper, c: Cursor)
    requires Honest(sc, d) && CursorOk(sc, c) && c.pos < |c.rows|
    ensures var (c2, ok) := Forward(sc, d, c);
            && CursorOk(sc, c2)
            && (ok <==> !(c.pos + 1 == |c.rows| && c.RowId() + c.rows[c.pos].span >= sc.hi))
            && (!ok ==> c2 == Cursor(c.rows, |c.rows|, 0))
            && (ok ==> c2.pos == c.pos + 1 && Follows(c2.rows, c.pos) && SameUpTo(c.rows, c2.rows, c.pos))
            && (Follows(c.rows, c.pos) ==> c2.rows == c.rows)
            && (ok && c2.rows != c.rows ==> c2.RowId() > c.RowId())
  {
    hide RowsOk, Covered, Fills, Begins;
    EdgeBelowIs(sc, c);
    match EdgeBelow(c) {
      case None => NextLine(c.rows, c.pos);
      case Some(row) =>
        if row < sc.hi {
          var rows' := d(c.rows, row);
          InScope(sc, c.rows, c.pos, row);
          assert Fills(sc, c.rows, rows', row);
          FilledBelow(sc, c, rows', row);
          FillsKeeps(sc, c.rows, rows', row);
          SeekFinds(sc, rows', row, 0);
        }
    }
    hide EdgeBelow, IsLast;
    NotBoth(sc, c.rows, c.pos);
  }

  lemma InScope(sc: Scope, rows: Rows, i: nat, row: int)
    requires RowsOk(sc, rows) && i < |rows| && rows[i].id <= row
    ensures sc.lo <= row
  {}

  lemma FillsKeeps(sc: Scope, rows: Rows, rows': Rows, da: int)
    requires Fills(sc, rows, rows', da)
    ensures RowsOk(sc, rows') && Covered(rows', da)
  {}

  lemma NextLine(rows: Rows, i: nat)
    requires i + 1 < |rows|
    ensures LineOf(rows, i + 1) == if rows[i + 1].id == rows[i].id then LineOf(rows, i) + 1 else 0
  {}

  /** No gap, no edge. */
  lemma NotBoth(sc: Scope, rows: Rows, i: nat)
    requires RowsOk(sc, rows) && i < |rows|
    ensures Follows(rows, i) ==> rows[i + 1].id < sc.hi
    ensures Follows(rows, i) && IsLast(rows, i) ==> rows[i + 1].id == rows[i].id + rows[i].span
  {}

  /** The gap is filled up to its end: a line that spans the requested row ends with it. */
  lemma FilledAbove(sc: Scope, c: Cursor, rows': Rows)
    requires CursorOk(sc, c) && c.pos < |c.rows| && EdgeAbove(sc, c) && c.RowId() > sc.lo
    requires Fills(sc, c.rows, rows', c.RowId() - 1)
    ensures var q := c.pos + |rows'| - |c.rows|;
            && c.pos < q && rows'[q..] == c.rows[c.pos..]
            && IsLast(rows', q - 1) && rows'[q - 1].id + rows'[q - 1].span == c.RowId()
            && SeekIn(rows', c.RowId() - 1, |rows'|).1 == q - 1
  {
    hide RowsOk, Covered, EdgeAbove, SeekIn, Begins, Fills;
    LowerAbove(sc, c);
    Grew(sc, c.rows, rows', c.RowId() - 1);
    SeekEnds(sc, rows', c.pos + |rows'| - |c.rows|, c.RowId() - 1);
  }

  /** A fill adds lines, right before the next line. */
  lemma Grew(sc: Scope, rows: Rows, rows': Rows, da: int)
    requires Fills(sc, rows, rows', da) && !Covered(rows, da)
    ensures RowsOk(sc, rows') && Covered(rows', da)
    ensures var p := LowerBound(rows, da, 0);
            var q := p + |rows'| - |rows|;
            && p < q && rows'[..p] == rows[..p] && rows'[q..] == rows[p..]
            && (p < |rows| ==> rows'[q] == rows[p] && rows'[q - 1].id < rows[p].id)
  {
    hide RowsOk, Covered;
    var p := LowerBound(rows, da, 0);
    var q := p + |rows'| - |rows|;
    NoGrowth(rows, rows', p);
    if p < |rows| { assert rows'[q..][0] == rows'[q]; }
  }

  lemma NoGrowth(rows: Rows, rows': Rows, p: nat)
    ensures |rows'| == |rows| && p <= |rows| && rows'[..p] == rows[..p] && rows'[p..] == rows[p..] ==> rows' == rows
  {
    if |rows'| == |rows| && p <= |rows| && rows'[..p] == rows[..p] && rows'[p..] == rows[p..] {
      assert rows' == rows'[..p] + rows'[p..] && rows == rows[..p] + rows[p..];
    }
  }

  /** A covered row right before a line is found on the line above that one. */
  lemma SeekEnds(sc: Scope, rows: Rows, q: nat, row: int)
    requires RowsOk(sc, rows) && 0 < q < |rows| && rows[q].id == row + 1 && rows[q - 1].id <= row && Covered(rows, row)
    ensures IsLast(rows, q - 1) && rows[q - 1].id + rows[q - 1].span == row + 1
    ensures SeekIn(rows, row, |rows|).1 == q - 1
  {
    hide RowsOk, Covered, SeekIn;
    LowerBefore(sc, rows, q, row);
    LineFacts(sc, rows, q - 1);
    CoveredIff(sc, rows, row);
    SeekLast(sc, rows, q, row);
  }

  lemma SeekLast(sc: Scope, rows: Rows, q: nat, row: int)
    requires RowsOk(sc, rows) && 0 < q < |rows| && rows[q].id == row + 1 && IsLast(rows, q - 1) && Covered(rows, row)
    requires LowerBound(rows, row, 0) <= q && forall k :: LowerBound(rows, row, 0) <= k < q ==> rows[k].id == row
    ensures SeekIn(rows, row, |rows|).1 == q - 1
  {
    SeekFinds(sc, rows, row, |rows|);
    hide RowsOk, Covered;
  }

  /** Above an edge the row just below the cursor's is not covered. */
  lemma LowerAbove(sc: Scope, c: Cursor)
    requires CursorOk(sc, c) && c.pos < |c.rows| && EdgeAbove(sc, c)
    ensures LowerBound(c.rows, c.RowId() - 1, 0) == c.pos
    ensures !Covered(c.rows, c.RowId() - 1) && Begins(c.rows, c.RowId() - 1)
    ensures LineOf(c.rows, c.pos) == 0
  {
    hide RowsOk, Covered, Begins, LowerBound;
    var row := c.RowId() - 1;
    var i := LowerBound(c.rows, row, 0);
    if c.pos > 0 {
      LineFacts(sc, c.rows, c.pos - 1);
      LineAbove(sc, c.rows, c.pos);
      if c.rows[c.pos - 1].id < row { AtLeast(sc, c.rows, c.pos - 1, row); }
    }
    LineFacts(sc, c.rows, c.pos);
    CoveredIff(sc, c.rows, row);
    BeginsIff(sc, c.rows, row);
  }

  /** Where the row just below a line is looked up. */
  lemma LowerBefore(sc: Scope, rows: Rows, q: nat, row: int)
    requires RowsOk(sc, rows) && q < |rows| && rows[q].id == row + 1 && (q == 0 || rows[q - 1].id != row + 1)
    ensures LowerBound(rows, row, 0) <= q
    ensures forall k :: LowerBound(rows, row, 0) <= k < q ==> rows[k].id == row
    ensures q > 0 ==> IsLast(rows, q - 1)
  {
    hide LastWidest, SpansFit;
    if q > 0 { assert rows[q - 1].id <= rows[q].id; }
    var i := LowerBound(rows, row, 0);
    forall k | i <= k < q ensures rows[k].id == row {
      assert rows[i].id <= rows[k].id <= rows[q - 1].id;
    }
  }

  lemma BackwardFills(sc: Scope, d: Dumper, c: Cursor)
    requires Honest(sc, d) && CursorOk(sc, c) && c.pos < |c.rows| && EdgeAbove(sc, c) && c.RowId() > sc.lo
    ensures var (c2, ok) := Backward(sc, d, c);
            && ok && CursorOk(sc, c2) && c.line == 0
            && c2.pos + 1 < |c2.rows| && Follows(c2.rows, c2.pos) && c2.rows[c2.pos + 1..] == c.rows[c.pos..]
            && c2.rows[c2.pos].id < c.RowId()
  {
    hide RowsOk, Covered, Fills, Begins, SeekIn;
    LineFacts(sc, c.rows, c.pos);
    LowerAbove(sc, c);
    var row := c.RowId();
    var rows' := d(c.rows, row - 1);
    assert Fills(sc, c.rows, rows', row - 1);
    hide Honest, EdgeAbove;
    FilledAbove(sc, c, rows');
    FillsKeeps(sc, c.rows, rows', row - 1);
    SeekFinds(sc, rows', row - 1, |rows'|);
    var q := c.pos + |rows'| - |c.rows|;
    assert rows'[q..][0] == rows'[q];
    LineFacts(sc, rows', q - 1);
  }

  /** `Backward` moves on by exactly one line as well, and fills a gap from its end; the lines
      from the cursor's on stay as they are. It is refused exactly on the first line of the
      scope. */
  lemma BackwardStep(sc: Scope, d: Dumper, c: Cursor)
    requires Honest(sc, d) && CursorOk(sc, c) && c.pos < |c.rows|
    ensures var (c2, ok) := Backward(sc, d, c);
            && CursorOk(sc, c2)
            && (ok <==> !(c.pos == 0 && c.RowId() == sc.lo))
            && (!ok ==> c2 == c)
            && (ok ==> && c2.pos + 1 < |c2.rows| && Follows(c2.rows, c2.pos) && c2.rows[c2.pos + 1..] == c.rows[c.pos..]
                       && LineOf(c2.rows, c2.pos + 1) == c.line)
            && (c.pos > 0 && Follows(c.rows, c.pos - 1) ==> c2 == Cursor(c.rows, c.pos - 1, LineOf(c.rows, c.pos - 1)))
  {
    hide RowsOk, Honest;
    LineFacts(sc, c.rows, c.pos);
    if c.pos > 0 { LineFacts(sc, c.rows, c.pos - 1); }
    if EdgeAbove(sc, c) {
      if c.RowId() > sc.lo {
        BackwardFills(sc, d, c);
        hide Backward, EdgeAbove;
        var c2 := Backward(sc, d, c).0;
        assert c2.rows[c2.pos + 1..][0] == c2.rows[c2.pos + 1];
        NextLine(c2.rows, c2.pos);
      }
    } else {
      NextLine(c.rows, c.pos - 1);
      assert LineOf(c.rows, c.pos - 1) <= c.pos - 1;
    }
  }

  /** The two undo each other. Going on and back returns to the same line of the same row, in a
      cache that may have grown behind it. */
  lemma ForwardThenBackward(sc: Scope, d: Dumper, c: Cursor)
    requires Honest(sc, d) && CursorOk(sc, c) && c.pos < |c.rows| && Forward(sc, d, c).1
    ensures Backward(sc, d, Forward(sc, d, c).0) == (Cursor(Forward(sc, d, c).0.rows, c.pos, c.line), true)
    ensures SameUpTo(c.rows, Forward(sc, d, c).0.rows, c.pos)
    ensures Follows(c.rows, c.pos) ==> Backward(sc, d, Forward(sc, d, c).0) == (c, true)
  {
    hide RowsOk, Forward, Backward, Honest;
    ForwardStep(sc, d, c);
    var c2 := Forward(sc, d, c).0;
    BackwardStep(sc, d, c2);
    SameLine(c.rows, c2.rows, c.pos);
  }

  lemma {:induction false} SameLine(rows: Rows, rows2: Rows, i: nat)
    requires SameUpTo(rows, rows2, i)
    ensures LineOf(rows, i) == LineOf(rows2, i)
  {
    if i > 0 {
      SameLine(rows, rows2, i - 1);
    }
  }

  /** Going back and on returns to the same line of the same row, in a cache that may have grown
      above it. */
  lemma BackwardThenForward(sc: Scope, d: Dumper, c: Cursor)
    requires Honest(sc, d) && CursorOk(sc, c) && c.pos < |c.rows| && Backward(sc, d, c).1
    ensures var c2, c3 := Backward(sc, d, c).0, Forward(sc, d, Backward(sc, d, c).0).0;
            && Forward(sc, d, c2).1
            && c3.rows == c2.rows && c3.rows[c3.pos..] == c.rows[c.pos..] && c3.line == c.line
            && (c.pos > 0 && Follows(c.rows, c.pos - 1) ==> c3 == c)
  {
    hide RowsOk, Forward, Backward, Honest;
    BackwardStep(sc, d, c);
    var c2 := Backward(sc, d, c).0;
    ForwardStep(sc, d, c2);
    var c3 := Forward(sc, d, c2).0;
    if c.pos > 0 && Follows(c.rows, c.pos - 1) {
      assert c3 == Cursor(c.rows, c.pos, LineOf(c.rows, c.pos));
    }
  }

  /** A seek inside the scope always arrives: at the asked line of the row if a group starts
      there, or at the last line of the group that spans it. */
  lemma SeekArrives(sc: Scope, d: Dumper, c: Cursor, row0: int, line: nat)
    requires Honest(sc, d) && RowsOk(sc, c.rows) && sc.lo < sc.hi && sc.lo <= row0
    ensures var row := if row0 >= sc.hi then sc.hi - 1 else row0;
            var (c2, ok) := Seek(sc, d, c, row0, line);
            && ok && CursorOk(sc, c2) && !c2.AtEnd() && Covered(c2.rows, row)
            && (c2.RowId() == row ==> c2.line <= line && (c2.line == line || IsLast(c2.rows, c2.pos)))
            && (c2.RowId() != row ==> IsLast(c2.rows, c2.pos) && c2.RowId() < row < c2.RowId() + c2.rows[c2.pos].span)
            && (Covered(c.rows, row) ==> c2.rows == c.rows)
  {
    hide RowsOk, Covered, Begins, SeekIn;
    var row := if row0 >= sc.hi then sc.hi - 1 else row0;
    var rows := SeekRows(d, c.rows, row);
    CoveredIff(sc, c.rows, row);
    BeginsIff(sc, c.rows, row);
    if !Covered(c.rows, row) {
      assert Fills(sc, c.rows, d(c.rows, row), row);
    }
    SeekFinds(sc, rows, row, line);
  }

  // ------------------------------------------------------------------ runs

  datatype Move = Go(row: int, line: nat) | On | Back

  function Moved(sc: Scope, d: Dumper, c: Cursor, m: Move): Cursor
    requires c.pos <= |c.rows|
  {
    match m
    case Go(row, line) => Seek(sc, d, c, row, line).0
    case On => Forward(sc, d, c).0
    case Back => Backward(sc, d, c).0
  }

  ghost predicate IsRun(sc: Scope, d: Dumper, run: seq<Cursor>, moves: seq<Move>) {
    && |run| == |moves| + 1 && run[0] == Cursor([], 0, 0)
    && (forall i :: 0 <= i < |moves| ==> run[i].pos <= |run[i].rows| && run[i + 1] == Moved(sc, d, run[i], moves[i]))
    && (forall i :: 0 <= i < |moves| && moves[i].Go? ==> sc.lo <= moves[i].row)
  }

  lemma MoveKeepsCursor(sc: Scope, d: Dumper, c: Cursor, m: Move)
    requires Honest(sc, d) && CursorOk(sc, c) && sc.lo < sc.hi && (m.Go? ==> sc.lo <= m.row)
    ensures CursorOk(sc, Moved(sc, d, c, m))
  {
    hide RowsOk, Honest, Seek;
    match m {
      case Go(row, line) => SeekArrives(sc, d, c, row, line);
      case On => if c.pos < |c.rows| { ForwardStep(sc, d, c); }
      case Back => if c.pos < |c.rows| { BackwardStep(sc, d, c); }
    }
  }

  /** After any mix of seeks and steps the cache is in order, and away from the end the line is
      the number of earlier cached lines of the same row. */
  lemma {:induction false} RunsKeepCursor(sc: Scope, d: Dumper, run: seq<Cursor>, moves: seq<Move>, n: nat)
    requires Honest(sc, d) && sc.lo < sc.hi && IsRun(sc, d, run, moves) && n <= |moves|
    ensures CursorOk(sc, run[n])
  {
    hide RowsOk, Honest, Moved;
    if n == 0 {
      NoRows(sc);
    } else {
      RunsKeepCursor(sc, d, run, moves, n - 1);
      MoveKeepsCursor(sc, d, run[n - 1], moves[n - 1]);
    }
  }

  // ------------------------------------------------------------------ the full walk

  /** Steps on until the end is reported: the lines visited, and the cache at the end. */
  function Walk(sc: Scope, d: Dumper, c: Cursor): (seq<Row>, Rows)
    requires Honest(sc, d) && CursorOk(sc, c) && c.pos < |c.rows|
    decreases sc.hi - c.RowId(), |c.rows| - c.pos
  {
    var r := Forward(sc, d, c);
    if r.1 then
      WalkFalls(sc, d, c);
      var rest := Walk(sc, d, r.0);
      ([c.rows[c.pos]] + rest.0, rest.1)
    else ([c.rows[c.pos]], c.rows)
  }

  /** What falls along the walk. */
  lemma WalkFalls(sc: Scope, d: Dumper, c: Cursor)
    requires Honest(sc, d) && CursorOk(sc, c) && c.pos < |c.rows| && Forward(sc, d, c).1
    ensures var c2 := Forward(sc, d, c).0;
            && c2.pos < |c2.rows| && CursorOk(sc, c2)
            && c2.RowId() >= c.RowId() && c.RowId() < sc.hi && c2.RowId() < sc.hi
            && (c2.RowId() == c.RowId() ==> |c2.rows| - c2.pos < |c.rows| - c.pos)
  {
    hide Honest, RowsOk, Forward;
    ForwardStep(sc, d, c);
    LineFacts(sc, c.rows, c.pos);
    LineFacts(sc, Forward(sc, d, c).0.rows, c.pos + 1);
  }

  /** The lines from `i` on leave no gap up to the end of the scope. */
  ghost predicate NoGaps(sc: Scope, rows: Rows, i: nat) {
    && i < |rows|
    && (forall k :: i <= k < |rows| - 1 ==> Follows(rows, k))
    && rows[|rows| - 1].id + rows[|rows| - 1].span == sc.hi
  }

  lemma SameAt(rows: Rows, rows2: Rows, i: nat, k: nat)
    requires SameUpTo(rows, rows2, i) && k <= i
    ensures k < |rows| && k < |rows2| && rows[k] == rows2[k]
  {}

  lemma FollowsKept(rows: Rows, rows2: Rows, i: nat)
    requires i + 1 < |rows2| && Follows(rows, i) && rows[i] == rows2[i] && rows[i + 1] == rows2[i + 1]
    ensures Follows(rows2, i)
  {}

  lemma NoGapsFrom(sc: Scope, rows: Rows, i: nat)
    requires NoGaps(sc, rows, i + 1) && Follows(rows, i)
    ensures NoGaps(sc, rows, i)
  {}

  /** The walk visits exactly the lines that are in the cache when it ends, each once and in
      order, and leaves no gap from where it started to the end of the scope. */
  lemma {:induction false} WalkVisitsAll(sc: Scope, d: Dumper, c: Cursor)
    requires Honest(sc, d) && CursorOk(sc, c) && c.pos < |c.rows|
    ensures var (visited, rows) := Walk(sc, d, c);
            && RowsOk(sc, rows) && NoGaps(sc, rows, c.pos)
            && SameUpTo(c.rows, rows, c.pos) && visited == rows[c.pos..]
    decreases sc.hi - c.RowId(), |c.rows| - c.pos
  {
    hide RowsOk, Honest, Forward;
    ForwardStep(sc, d, c);
    var (c2, ok) := Forward(sc, d, c);
    if ok {
      hide NoGaps, Follows, LineOf;
      WalkFalls(sc, d, c);
      WalkVisitsAll(sc, d, c2);
      var rows := Walk(sc, d, c2).1;
      SameAt(c.rows, c2.rows, c.pos, c.pos);
      SameAt(c2.rows, rows, c2.pos, c.pos);
      SameAt(c2.rows, rows, c2.pos, c.pos + 1);
      FollowsKept(c2.rows, rows, c.pos);
      assert rows[c.pos..] == [rows[c.pos]] + rows[c.pos + 1..];
      NoGapsFrom(sc, rows, c.pos);
    } else {
      LineFacts(sc, c.rows, c.pos);
    }
  }

  lemma LineAbove(sc: Scope, rows: Rows, i: nat)
    requires RowsOk(sc, rows) && i < |rows|
    ensures i > 0 ==> sc.lo <= rows[i - 1].id <= rows[i].id
  {}

  lemma FirstRow(sc: Scope, c: Cursor)
    requires CursorOk(sc, c) && !c.AtEnd() && c.RowId() <= sc.lo && c.line == 0
    ensures c.pos == 0 && c.RowId() == sc.lo
  {
    hide RowsOk;
    LineFacts(sc, c.rows, c.pos);
    LineAbove(sc, c.rows, c.pos);
  }

  /** A walk from the first row of the scope tiles the whole scope. */
  lemma FullWalk(sc: Scope, d: Dumper)
    requires Honest(sc, d) && sc.lo < sc.hi
    ensures var (c, ok) := Seek(sc, d, Cursor([], 0, 0), sc.lo, 0);
            && ok && CursorOk(sc, c) && c.pos == 0 && !c.AtEnd() && c.RowId() == sc.lo
            && var (visited, rows) := Walk(sc, d, c);
               && visited == rows && RowsOk(sc, rows) && NoGaps(sc, rows, 0) && rows[0].id == sc.lo
  {
    hide Honest, Seek, RowsOk, Walk, Covered;
    NoRows(sc);
    SeekArrives(sc, d, Cursor([], 0, 0), sc.lo, 0);
    var c := Seek(sc, d, Cursor([], 0, 0), sc.lo, 0).0;
    LineFacts(sc, c.rows, c.pos);
    FirstRow(sc, c);
    WalkVisitsAll(sc, d, c);
    var rows := Walk(sc, d, c).1;
    assert rows[0..] == rows;
  }

  lemma NoRows(sc: Scope)
    ensures RowsOk(sc, [])
  {}

  // ------------------------------------------------------------------ an honest dumper

  /** One line for the requested row alone. */
  function OneRow(rows: Rows, da: int): Rows {
    var p := LowerBound(rows, da, 0);
    rows[..p] + [Row(da, 1)] + rows[p..]
  }

  lemma Spliced(rows: Rows, p: nat, x: Row)
    requires p <= |rows|
    ensures var rows' := rows[..p] + [x] + rows[p..];
            && |rows'| == |rows| + 1 && rows'[p] == x
            && (forall i :: 0 <= i < p ==> rows'[i] == rows[i])
            && (forall i :: p < i < |rows'| ==> rows'[i] == rows[i - 1])
  {}

  lemma OneRowOk(sc: Scope, rows: Rows, p: nat, da: int)
    requires RowsOk(sc, rows) && p <= |rows| && sc.lo <= da < sc.hi
    requires p > 0 ==> IsLast(rows, p - 1) && rows[p - 1].id < da && rows[p - 1].id + rows[p - 1].span <= da
    requires p < |rows| ==> da < rows[p].id
    ensures var rows' := rows[..p] + [Row(da, 1)] + rows[p..];
            RowsOk(sc, rows') && IsLast(rows', p)
  {
    var rows' := rows[..p] + [Row(da, 1)] + rows[p..];
    Spliced(rows, p, Row(da, 1));
    OneRowOrdered(rows, rows', p);
    OneRowFits(sc, rows, rows', p);
    OneRowWidest(rows, rows', p);
    hide SpansFit, LastWidest, Ordered;
  }

  ghost predicate IsSpliced(rows: Rows, rows': Rows, p: nat) {
    && p <= |rows| && |rows'| == |rows| + 1 && rows'[p].span == 1
    && (forall i :: 0 <= i < p ==> rows'[i] == rows[i])
    && (forall i :: p < i < |rows'| ==> rows'[i] == rows[i - 1])
    && (p > 0 ==> IsLast(rows, p - 1) && rows[p - 1].id < rows'[p].id)
    && (p > 0 ==> rows[p - 1].id + rows[p - 1].span <= rows'[p].id)
    && (p < |rows| ==> rows'[p].id < rows[p].id)
  }

  lemma OneRowOrdered(rows: Rows, rows': Rows, p: nat)
    requires IsSpliced(rows, rows', p) && Ordered(rows)
    ensures Ordered(rows')
  {}

  lemma OneRowFits(sc: Scope, rows: Rows, rows': Rows, p: nat)
    requires IsSpliced(rows, rows', p) && SpansFit(sc, rows) && rows'[p].id < sc.hi
    ensures SpansFit(sc, rows')
  {
    forall i | IsLast(rows', i) ensures 1 <= rows'[i].span && rows'[i].id + rows'[i].span <= NextId(sc, rows', i) {
      if i < p { assert IsLast(rows, i); } else if i > p { assert IsLast(rows, i - 1); }
    }
  }

  lemma OneRowWidest(rows: Rows, rows': Rows, p: nat)
    requires IsSpliced(rows, rows', p) && Ordered(rows) && LastWidest(rows)
    ensures LastWidest(rows')
  {
    forall i, j | 0 <= i < j && IsLast(rows', j) && rows'[i].id == rows'[j].id ensures rows'[i].span <= rows'[j].span {
      SplicedAlone(rows, rows', p, i, j);
      if j < p {
        assert IsLast(rows, j);
      } else {
        assert IsLast(rows, j - 1);
      }
    }
  }

  /** The new line shares its row with no other. */
  lemma SplicedAlone(rows: Rows, rows': Rows, p: nat, i: nat, j: nat)
    requires IsSpliced(rows, rows', p) && Ordered(rows) && i < j < |rows'| && rows'[i].id == rows'[j].id
    ensures i != p && j != p && (i < p <==> j < p)
  {
    if i < p { assert rows'[i].id <= rows[p - 1].id; }
    if j > p { assert rows[p].id <= rows'[j].id; }
  }

  lemma OneRowFills(sc: Scope, rows: Rows, da: int)
    requires RowsOk(sc, rows) && sc.lo <= da < sc.hi && !Covered(rows, da)
    ensures Fills(sc, rows, OneRow(rows, da), da)
  {
    hide RowsOk, Covered;
    CoveredIff(sc, rows, da);
    var p := LowerBound(rows, da, 0);
    OneRowOk(sc, rows, p, da);
    hide LowerBound;
    OneRowAt(rows, p, da);
  }

  lemma OneRowAt(rows: Rows, p: nat, da: int)
    requires p <= |rows| && (p < |rows| ==> rows[p].id > da)
    ensures var rows' := rows[..p] + [Row(da, 1)] + rows[p..];
            && |rows'| == |rows| + 1 && rows'[p] == Row(da, 1)
            && rows'[..p] == rows[..p] && rows'[p + 1..] == rows[p..]
            && Covered(rows', da)
  {
    var rows' := rows[..p] + [Row(da, 1)] + rows[p..];
    assert p < |rows| ==> rows'[p + 1] == rows[p];
    assert IsLast(rows', p) && rows'[p].id <= da < rows'[p].id + rows'[p].span;
  }

  /** So every cache can be filled. */
  lemma OneRowIsHonest(sc: Scope)
    ensures Honest(sc, OneRow)
  {
    forall rows, da | RowsOk(sc, rows) && sc.lo <= da < sc.hi && !Covered(rows, da)
      ensures Fills(sc, rows, OneRow(rows, da), da)
    {
      OneRowFills(sc, rows, da);
    }
  }

  /** A row inside the span of the last cached group is covered, and dumped again. */
  lemma LastSpanIgnored()
    ensures var sc, rows := Scope(0, 8), [Row(0, 4)];
            RowsOk(sc, rows) && Covered(rows, 2) && Begins(rows, 2)
  {
    var sc, rows := Scope(0, 8), [Row(0, 4)];
    assert IsLast(rows, 0);
    BeginsIff(sc, rows, 2);
  }
}
