/** Fetching the rows of a result page by page (QUERY_SQLVariant.c), from a scrollable cursor in
    one of two styles. */
module RowFetching {
  import opened OpcTypes
  import opened ColumnReading

  const FETCH_LIMIT := 100

  /** A result set; the driver fails to fetch rows from place `reach` on. */
  datatype Results = Results(rows: seq<seq<Column>>, modes: seq<Mode>, reach: nat)

  predicate Sensible(r: Results) {
    r.reach <= |r.rows| && forall i :: 0 <= i < |r.rows| ==> |r.rows[i]| == |r.modes|
  }

  predicate RowReadable(row: seq<Column>, modes: seq<Mode>)
    requires |row| == |modes|
  {
    forall c :: 0 <= c < |row| ==> Readable(row[c], modes[c])
  }

  function CellsOf(row: seq<Column>, modes: seq<Mode>): (cells: seq<Cell>)
    requires |row| == |modes|
  {
    seq(|row|, c requires 0 <= c < |row| => CellOf(row[c], modes[c]))
  }

  // ----- One page -----

  datatype Answer = Page(rows: seq<seq<Cell>>, more: bool) | Failed

  /** The fetch loop with the cursor behind row `pos`. In the look-ahead style the row that does not
      fit is scrolled back over; in the other style the loop stops at a full page without looking. */
  function FetchFrom(r: Results, pos: nat, ahead: bool, size: nat, count: nat): (Answer, nat)
    requires Sensible(r)
    decreases |r.rows| - pos
  {
    if pos >= r.reach then (Page([], false), pos)
    else if count >= size then (Page([], true), if ahead then pos else pos + 1)
    else if !RowReadable(r.rows[pos], r.modes) then (Failed, pos + 1)
    else
      var cells := CellsOf(r.rows[pos], r.modes);
      if count + 1 >= size && !ahead then (Page([cells], true), pos + 1)
      else
        var (rest, end) := FetchFrom(r, pos + 1, ahead, size, count + 1);
        (if rest.Failed? then Failed else Page([cells] + rest.rows, rest.more), end)
  }

  function Min(a: nat, b: nat): nat {
    if a <= b then a else b
  }

  /** All rows from place `i` up to `j` in cells. */
  function AllCells(r: Results, i: nat, j: nat): (cells: seq<seq<Cell>>)
    requires Sensible(r) && i <= j <= |r.rows|
    ensures |cells| == j - i
  {
    seq(j - i, k requires 0 <= k < j - i => CellsOf(r.rows[i + k], r.modes))
  }

  /** The row at which a page of `size` rows from `pos` fails, if there is one. */
  ghost predicate FailsAt(r: Results, pos: nat, size: nat, bad: nat)
    requires Sensible(r)
  {
    && pos <= bad < Min(pos + size, r.reach) && !RowReadable(r.rows[bad], r.modes)
    && forall i :: pos <= i < bad ==> RowReadable(r.rows[i], r.modes)
  }

  ghost predicate PageReadable(r: Results, pos: nat, size: nat)
    requires Sensible(r)
  {
    forall i :: pos <= i < Min(pos + size, r.reach) ==> RowReadable(r.rows[i], r.modes)
  }

  /** A page holds exactly the next rows, and the cursor stands behind them. In the look-ahead style
      more rows are announced exactly when there are any; in the other style when the page is full. */
  lemma {:induction false} PageIsExact(r: Results, pos: nat, ahead: bool, size: nat, count: nat)
    requires Sensible(r) && pos <= r.reach && (count < size || (ahead && count == size)) && PageReadable(r, pos, size - count)
    ensures var end := Min(pos + (size - count), r.reach);
      FetchFrom(r, pos, ahead, size, count)
      == (Page(AllCells(r, pos, end), if ahead then pos + (size - count) < r.reach else pos + (size - count) <= r.reach), end)
    decreases |r.rows| - pos
  {
    var end := Min(pos + (size - count), r.reach);
    if pos < r.reach && count < size {
      assert RowReadable(r.rows[pos], r.modes);
      if count + 1 < size || ahead {
        PageIsExact(r, pos + 1, ahead, size, count + 1);
      } else {
        assert AllCells(r, pos, end) == [CellsOf(r.rows[pos], r.modes)];
      }
      assert AllCells(r, pos, end) == [CellsOf(r.rows[pos], r.modes)] + AllCells(r, pos + 1, end);
    } else {
      assert AllCells(r, pos, end) == [];
    }
  }

  /** A page fails exactly at its first unreadable row, and the cursor then stands behind that row. */
  lemma {:induction false} PageFailsAt(r: Results, pos: nat, ahead: bool, size: nat, count: nat, bad: nat)
    requires Sensible(r) && count < size && FailsAt(r, pos, size - count, bad)
    ensures FetchFrom(r, pos, ahead, size, count) == (Failed, bad + 1)
    decreases |r.rows| - pos
  {
    if pos < bad {
      PageFailsAt(r, pos + 1, ahead, size, count + 1, bad);
    }
  }

  /** Whether a page fails can be told from the rows in its range alone. */
  lemma FailsIff(r: Results, pos: nat, ahead: bool, size: nat)
    requires Sensible(r) && pos <= r.reach && size > 0
    ensures FetchFrom(r, pos, ahead, size, 0).0.Failed? <==> !PageReadable(r, pos, size)
  {
    if PageReadable(r, pos, size) {
      PageIsExact(r, pos, ahead, size, 0);
    } else {
      var i :| pos <= i < Min(pos + size, r.reach) && !RowReadable(r.rows[i], r.modes);
      var bad := FirstBad(r, pos, i);
      PageFailsAt(r, pos, ahead, size, 0, bad);
    }
  }

  lemma {:induction false} FirstBad(r: Results, pos: nat, i: nat) returns (bad: nat)
    requires Sensible(r) && pos <= i < r.reach && !RowReadable(r.rows[i], r.modes)
    ensures pos <= bad <= i && !RowReadable(r.rows[bad], r.modes)
    ensures forall j :: pos <= j < bad ==> RowReadable(r.rows[j], r.modes)
    decreases i
  {
    bad := i;
    if j :| pos <= j < i && !RowReadable(r.rows[j], r.modes) {
      bad := FirstBad(r, pos, j);
    }
  }

  // ----- Many pages -----

  /** The limit that a fetch applies: zero and anything above 100 mean 100. */
  function Limit(requested: nat): (limit: nat)
    ensures 1 <= requested <= 100 ==> limit == requested
    ensures requested == 0 || requested > 100 ==> limit == 100
  {
    if requested == 0 || requested > FETCH_LIMIT then FETCH_LIMIT else requested
  }

  /** Fetches with the given limits, a select being one with the limit 100: the answers in order, and the
      cursor. */
  function Fetches(r: Results, pos: nat, ahead: bool, limits: seq<nat>): (seq<Answer>, nat)
    requires Sensible(r)
    decreases |limits|
  {
    if limits == [] then ([], pos)
    else
      var (answer, next) := FetchFrom(r, pos, ahead, Limit(limits[0]), 0);
      var (rest, end) := Fetches(r, next, ahead, limits[1..]);
      ([answer] + rest, end)
  }

  function Joined(answers: seq<Answer>): seq<seq<Cell>> {
    if answers == [] then []
    else (if answers[0].Page? then answers[0].rows else []) + Joined(answers[1..])
  }

  function Total(limits: seq<nat>): nat {
    if limits == [] then 0 else Limit(limits[0]) + Total(limits[1..])
  }

  ghost predicate ReadableFrom(r: Results, i: nat, j: nat)
    requires Sensible(r) && j <= r.reach
  {
    forall k :: i <= k < j ==> RowReadable(r.rows[k], r.modes)
  }

  /** A page takes the cursor forward over some rows: it holds exactly these, or fails because one of
      them cannot be read. */
  lemma PageCovers(r: Results, pos: nat, ahead: bool, size: nat)
    requires Sensible(r) && pos <= r.reach && size > 0
    ensures var (answer, end) := FetchFrom(r, pos, ahead, size, 0);
      && pos <= end <= Min(pos + size, r.reach)
      && (answer.Page? <==> ReadableFrom(r, pos, end))
      && (answer.Page? ==> answer.rows == AllCells(r, pos, end) && end == Min(pos + size, r.reach))
      && (answer.Page? && !answer.more ==> end == r.reach)
      && (answer.Failed? ==> pos < end)
  {
    if PageReadable(r, pos, size) {
      PageIsExact(r, pos, ahead, size, 0);
    } else {
      var i :| pos <= i < Min(pos + size, r.reach) && !RowReadable(r.rows[i], r.modes);
      var bad := FirstBad(r, pos, i);
      PageFailsAt(r, pos, ahead, size, 0, bad);
    }
  }

  /** For any sequence of limits and both styles the pages together are as many of the next rows as were
      asked for, in order, none lost and none repeated, exactly when all of these can be read. */
  lemma PagesJoinIff(r: Results, pos: nat, ahead: bool, limits: seq<nat>)
    requires Sensible(r) && pos <= r.reach
    ensures var (answers, end) := Fetches(r, pos, ahead, limits);
      var goal := Min(pos + Total(limits), r.reach);
      && (Joined(answers) == AllCells(r, pos, goal) <==> ReadableFrom(r, pos, goal))
      && pos <= end <= goal && (ReadableFrom(r, pos, goal) ==> end == goal)
  {
    PagesCover(r, pos, ahead, limits);
  }

  /** The pages together are the rows that the cursor has passed exactly when all of these can be read. */
  lemma {:induction false} PagesCover(r: Results, pos: nat, ahead: bool, limits: seq<nat>)
    requires Sensible(r) && pos <= r.reach
    ensures var (answers, end) := Fetches(r, pos, ahead, limits);
      && pos <= end <= Min(pos + Total(limits), r.reach) && |Joined(answers)| <= end - pos
      && (Joined(answers) == AllCells(r, pos, end) <==> ReadableFrom(r, pos, end))
      && (ReadableFrom(r, pos, end) ==> end == Min(pos + Total(limits), r.reach))
    decreases |limits|
  {
    if limits == [] {
      assert AllCells(r, pos, pos) == [];
    } else {
      PageCovers(r, pos, ahead, Limit(limits[0]));
      var (answer, next) := FetchFrom(r, pos, ahead, Limit(limits[0]), 0);
      PagesCover(r, next, ahead, limits[1..]);
      var (rest, end) := Fetches(r, next, ahead, limits[1..]);
      CellsSplit(r, pos, next, end);
      JoinedOf(answer, rest);
      if answer.Page? {
        SameTail(answer.rows, Joined(rest), AllCells(r, next, end));
      }
    }
  }

  // ----- What stands in a row -----

  /** The row has a cell for each column, in the order of the columns, that shows its data. */
  ghost predicate ShowsRow(cells: seq<Cell>, row: seq<Column>, modes: seq<Mode>)
    requires |row| == |modes|
  {
    |cells| == |modes| && forall c :: 0 <= c < |modes| ==> Shows(cells[c], row[c], modes[c])
  }

  lemma CellsShowRow(row: seq<Column>, modes: seq<Mode>)
    requires |row| == |modes|
    ensures ShowsRow(CellsOf(row, modes), row, modes)
  {
    forall c | 0 <= c < |modes|
      ensures Shows(CellsOf(row, modes)[c], row[c], modes[c])
    {
      CellShows(row[c], modes[c]);
    }
  }

  /** Row `k` of a page shows row `pos + k` of the result, column by column. */
  lemma PageShowsRows(r: Results, pos: nat, ahead: bool, size: nat, k: nat)
    requires Sensible(r) && pos <= r.reach && size > 0
    requires var answer := FetchFrom(r, pos, ahead, size, 0).0; answer.Page? && k < |answer.rows|
    ensures pos + k < |r.rows| && ShowsRow(FetchFrom(r, pos, ahead, size, 0).0.rows[k], r.rows[pos + k], r.modes)
  {
    PageCovers(r, pos, ahead, size);
    CellsShowRow(r.rows[pos + k], r.modes);
  }

  /** Over any sequence of limits row `k` of the pages together shows row `pos + k` of the result, as long as
      all rows asked for can be read. */
  lemma FetchesShowRows(r: Results, pos: nat, ahead: bool, limits: seq<nat>, k: nat)
    requires Sensible(r) && pos <= r.reach && ReadableFrom(r, pos, Min(pos + Total(limits), r.reach))
    requires k < Min(pos + Total(limits), r.reach) - pos
    ensures var rows := Joined(Fetches(r, pos, ahead, limits).0);
      |rows| == Min(pos + Total(limits), r.reach) - pos && ShowsRow(rows[k], r.rows[pos + k], r.modes)
  {
    PagesJoinIff(r, pos, ahead, limits);
    CellsShowRow(r.rows[pos + k], r.modes);
  }

  /** After a page that failed the next one starts behind the unreadable row: the rows in front of it,
      which had been read already, are lost with it. */
  lemma FailureSkips(r: Results, pos: nat, ahead: bool, requested: nat, bad: nat, limits: seq<nat>)
    requires Sensible(r) && FailsAt(r, pos, Limit(requested), bad)
    ensures Fetches(r, pos, ahead, [requested] + limits)
      == ([Failed] + Fetches(r, bad + 1, ahead, limits).0, Fetches(r, bad + 1, ahead, limits).1)
  {
    PageFailsAt(r, pos, ahead, Limit(requested), 0, bad);
    assert ([requested] + limits)[1..] == limits;
  }

  lemma JoinedOf(answer: Answer, rest: seq<Answer>)
    ensures Joined([answer] + rest) == (if answer.Page? then answer.rows else []) + Joined(rest)
  {
    assert ([answer] + rest)[1..] == rest;
  }

  lemma CellsSplit(r: Results, i: nat, j: nat, k: nat)
    requires Sensible(r) && i <= j <= k <= |r.rows|
    ensures AllCells(r, i, k) == AllCells(r, i, j) + AllCells(r, j, k)
  {
  }

  /** An answer that announces no more rows is the last one: together with the earlier ones it holds
      all rows that the driver yields exactly when all of these can be read, and the whole result exactly
      when moreover the driver yields all of it. */
  lemma NoMoreMeansAllIff(r: Results, ahead: bool, limits: seq<nat>, last: nat)
    requires Sensible(r)
    requires var answer := FetchFrom(r, Fetches(r, 0, ahead, limits).1, ahead, Limit(last), 0).0;
      answer.Page? && !answer.more
    ensures var (answers, pos) := Fetches(r, 0, ahead, limits);
      var all := Joined(answers) + FetchFrom(r, pos, ahead, Limit(last), 0).0.rows;
      && (all == AllCells(r, 0, r.reach) <==> ReadableFrom(r, 0, r.reach))
      && (all == AllCells(r, 0, |r.rows|) <==> ReadableFrom(r, 0, r.reach) && r.reach == |r.rows|)
  {
    PagesCover(r, 0, ahead, limits);
    var (answers, pos) := Fetches(r, 0, ahead, limits);
    PageCovers(r, pos, ahead, Limit(last));
    var rows := FetchFrom(r, pos, ahead, Limit(last), 0).0.rows;
    CellsSplit(r, 0, pos, r.reach);
    SameFront(Joined(answers), AllCells(r, 0, pos), rows);
  }

  lemma SameFront<T>(a: seq<T>, b: seq<T>, c: seq<T>)
    ensures a + c == b + c <==> a == b
  {
    if a + c == b + c {
      assert |a| == |b|;
      assert (a + c)[..|a|] == a && (b + c)[..|b|] == b;
    }
  }

  /** Only the look-ahead style announces more exactly when a further page would hold rows; the other
      style is wrong exactly when the result ends with a full page. */
  lemma MoreIsExactIff(r: Results, pos: nat, ahead: bool, size: nat)
    requires Sensible(r) && pos <= r.reach && size > 0 && PageReadable(r, pos, size)
    ensures var (answer, end) := FetchFrom(r, pos, ahead, size, 0);
      && answer.Page? && (end < r.reach ==> answer.more)
      && ((answer.more <==> end < r.reach) <==> ahead || pos + size != r.reach)
  {
    PageIsExact(r, pos, ahead, size, 0);
  }

  // ----- The loops -----

  /** The statement's cursor. */
  class Statement {
    const results: Results
    var pos: nat

    constructor (results: Results)
      ensures this.results == results && pos == 0
    {
      this.results, pos := results, 0;
    }

    /** SQLFetch. */
    method Fetch() returns (ok: bool)
      modifies this
      ensures ok <==> old(pos) < results.reach
      ensures pos == if ok then old(pos) + 1 else old(pos)
    {
      ok := pos < results.reach;
      if ok {
        pos := pos + 1;
      }
    }

    /** SQLFetchScroll to the prior row. */
    method FetchPrior()
      requires pos > 0
      modifies this
      ensures pos == old(pos) - 1
    {
      pos := pos - 1;
    }
  }

  /** The columns of the current row. */
  method ReadRow(row: seq<Column>, modes: seq<Mode>) returns (cells: Option<seq<Cell>>)
    requires |row| == |modes|
    ensures cells == if RowReadable(row, modes) then Some(CellsOf(row, modes)) else None
  {
    var element := [];
    var i := 0;
    while i < |row|
      invariant 0 <= i <= |row| && |element| == i
      invariant forall c :: 0 <= c < i ==> Readable(row[c], modes[c]) && element[c] == CellOf(row[c], modes[c])
    {
      var reader := new ColumnReader(row[i], modes[i]);
      var cell := ReadColumn(reader);
      if cell.None? {
        return None;
      }
      element := element + [cell.value];
      i := i + 1;
    }
    assert element == CellsOf(row, modes);
    return Some(element);
  }

  method FetchPage(st: Statement, ahead: bool, size: nat) returns (answer: Answer)
    requires Sensible(st.results) && size > 0
    modifies st
    ensures (answer, st.pos) == FetchFrom(st.results, old(st.pos), ahead, size, 0)
  {
    ghost var goal := FetchFrom(st.results, st.pos, ahead, size, 0);
    var rows := [];
    var ok := st.Fetch();
    PrependedNone(goal);
    while ok
      invariant ok ==> 0 < st.pos <= st.results.reach
      invariant ok ==> Prepended(rows, FetchFrom(st.results, st.pos - 1, ahead, size, |rows|)) == goal
      invariant !ok ==> (Page(rows, false), st.pos) == goal
      decreases if ok then st.results.reach - st.pos + 1 else 0
    {
      assert rows + [] == rows;
      if |rows| >= size {
        if ahead {
          st.FetchPrior();
        }
        return Page(rows, true);
      }
      var cells := ReadRow(st.results.rows[st.pos - 1], st.results.modes);
      if cells.None? {
        return Failed;
      }
      PrependedOne(rows, cells.value, FetchFrom(st.results, st.pos, ahead, size, |rows| + 1));
      rows := rows + [cells.value];
      if |rows| >= size && !ahead {
        return Page(rows, true);
      }
      ok := st.Fetch();
      assert rows + [] == rows;
    }
    answer := Page(rows, false);
  }

  function Prepended(rows: seq<seq<Cell>>, answer: (Answer, nat)): (Answer, nat) {
    (if answer.0.Failed? then Failed else Page(rows + answer.0.rows, answer.0.more), answer.1)
  }

  lemma PrependedNone(answer: (Answer, nat))
    ensures Prepended([], answer) == answer
  {
    assert answer.0.Page? ==> [] + answer.0.rows == answer.0.rows;
  }

  lemma PrependedOne(rows: seq<seq<Cell>>, row: seq<Cell>, answer: (Answer, nat))
    ensures Prepended(rows, Prepended([row], answer)) == Prepended(rows + [row], answer)
  {
    assert answer.0.Page? ==> rows + ([row] + answer.0.rows) == (rows + [row]) + answer.0.rows;
  }

  method FetchMore(st: Statement, ahead: bool, requested: nat) returns (answer: Answer)
    requires Sensible(st.results)
    modifies st
    ensures (answer, st.pos) == FetchFrom(st.results, old(st.pos), ahead, Limit(requested), 0)
  {
    var limit := requested;
    if limit == 0 || limit > FETCH_LIMIT {
      limit := FETCH_LIMIT;
    }
    answer := FetchPage(st, ahead, limit);
  }
}
