/** The kanban board of internal/kanban/kanban.go: tasks are split into one
    column per status, and the columns are laid out side by side as a grid
    whose height is the longest column.  The grid is modelled cell by cell;
    the ANSI borders and padding that turn a cell into text are not. */
module Kanban {
  import opened Tasks
  import opened Sequences

  /** `borderColors`: the ANSI colour code of each status column. */
  const BorderColors: map<Status, string> :=
    map[Pending := "34", InProgress := "33", NeedsReview := "35", Completed := "32"]

  /** The colour `BorderColorFromString` falls back to (blue). */
  const DefaultColor: string := "34"

  /** Maps a status label to its column colour; any other text gets blue. */
  function BorderColorFromString(text: string): (c: string)
    ensures c in BorderColors.Values
    ensures text !in StatusLabels ==> c == DefaultColor
    ensures forall k :: 0 <= k < |StatusLabels| && text == StatusLabels[k] ==> c == BorderColors[BoardStatuses[k]]
  {
    if text == "Pending" then BorderColors[Pending]
    else if text == "In Progress" then BorderColors[InProgress]
    else if text == "In Review" then BorderColors[NeedsReview]
    else if text == "Completed" then BorderColors[Completed]
    else assert BorderColors[Pending] == DefaultColor; DefaultColor
  }

  /** Colouring a status by its label gives the column colour of a named
      status and the fallback for any other. */
  lemma ColourOfStatusLabel(s: Status)
    ensures ValidStatus(s) ==> BorderColorFromString(StatusString(s)) == BorderColors[s]
    ensures !ValidStatus(s) ==> BorderColorFromString(StatusString(s)) == DefaultColor
  {
    if ValidStatus(s) {
      assert BoardStatuses[s] == s;
    } else {
      assert "Unknown" !in StatusLabels;
    }
  }

  /** The tasks of `tasks` whose status is `s`, in input order: the reference
      definition of one column. */
  function Column(tasks: seq<Task>, s: Status): seq<Task>
    decreases |tasks|
  {
    if tasks == [] then []
    else
      var last := tasks[|tasks| - 1];
      Column(tasks[..|tasks| - 1], s) + (if last.status == s then [last] else [])
  }

  lemma ColumnAppend(tasks: seq<Task>, t: Task, s: Status)
    ensures Column(tasks + [t], s) == Column(tasks, s) + (if t.status == s then [t] else [])
  {
    assert (tasks + [t])[..|tasks|] == tasks;
  }

  lemma {:induction false} ColumnOfAbsentStatus(tasks: seq<Task>, s: Status)
    requires forall j :: 0 <= j < |tasks| ==> tasks[j].status != s
    ensures Column(tasks, s) == []
  {
    if tasks != [] {
      ColumnOfAbsentStatus(tasks[..|tasks| - 1], s);
    }
  }

  /** A column holds each task of status `s` exactly as often as the input
      does, and no task of another status. */
  lemma {:induction false} ColumnCounts(tasks: seq<Task>, s: Status, t: Task)
    ensures multiset(Column(tasks, s))[t] == if t.status == s then multiset(tasks)[t] else 0
  {
    if tasks != [] {
      var init := tasks[..|tasks| - 1];
      ColumnCounts(init, s, t);
      assert tasks == init + [tasks[|tasks| - 1]];
    }
  }

  lemma ColumnMembers(tasks: seq<Task>, s: Status, t: Task)
    ensures t in Column(tasks, s) <==> t in tasks && t.status == s
  {
    ColumnCounts(tasks, s, t);
  }

  /** A column keeps the relative input order of its tasks. */
  lemma {:induction false} ColumnKeepsOrder(tasks: seq<Task>, s: Status)
    ensures IsSubsequence(Column(tasks, s), tasks)
  {
    if tasks != [] {
      var init, last := tasks[..|tasks| - 1], tasks[|tasks| - 1];
      ColumnKeepsOrder(init, s);
      SubsequenceSnoc(Column(init, s), init, last);
      assert tasks == init + [last];
      if last.status == s {
        assert Column(tasks, s) == Column(init, s) + [last];
      } else {
        assert Column(tasks, s) == Column(init, s);
      }
    }
  }

  /** When every status is one of the four, the columns share out all tasks. */
  lemma {:induction false} ColumnsShareOutTasks(tasks: seq<Task>)
    requires forall j :: 0 <= j < |tasks| ==> ValidStatus(tasks[j].status)
    ensures |Column(tasks, Pending)| + |Column(tasks, InProgress)|
          + |Column(tasks, NeedsReview)| + |Column(tasks, Completed)| == |tasks|
  {
    if tasks != [] {
      ColumnsShareOutTasks(tasks[..|tasks| - 1]);
    }
  }

  /** A task whose status is not one of the four is in none of the board's
      columns. */
  lemma InvalidStatusNotOnBoard(tasks: seq<Task>, t: Task, k: nat)
    requires !ValidStatus(t.status) && k < |BoardStatuses|
    ensures t !in Column(tasks, BoardStatuses[k])
  {
    ColumnMembers(tasks, BoardStatuses[k], t);
  }

  /** The statuses `seperateTaskByStatus` makes entries for: the four of the
      board and every status that occurs in `tasks`. */
  function StatusKeys(tasks: seq<Task>): set<Status>
    decreases |tasks|
  {
    if tasks == [] then {Pending, InProgress, NeedsReview, Completed}
    else StatusKeys(tasks[..|tasks| - 1]) + {tasks[|tasks| - 1].status}
  }

  lemma {:induction false} StatusKeysMembers(tasks: seq<Task>, s: Status)
    ensures s in StatusKeys(tasks) <==> s in BoardStatuses || exists j :: 0 <= j < |tasks| && tasks[j].status == s
  {
    if tasks != [] {
      var init := tasks[..|tasks| - 1];
      StatusKeysMembers(init, s);
      assert forall j :: 0 <= j < |init| ==> init[j] == tasks[j];
      if exists j :: 0 <= j < |tasks| && tasks[j].status == s {
        var j :| 0 <= j < |tasks| && tasks[j].status == s;
        if j < |init| {
          assert init[j].status == s;
        }
      }
    }
  }

  /** A status outside the keys has an empty column. */
  lemma {:induction false} ColumnOutsideKeys(tasks: seq<Task>, s: Status)
    requires s !in StatusKeys(tasks)
    ensures Column(tasks, s) == []
  {
    if tasks != [] {
      ColumnOutsideKeys(tasks[..|tasks| - 1], s);
    }
  }

  /** One step of `seperateTaskByStatus`: appending `t` to the entry of its
      status (made on first use) keeps every entry the column of its key. */
  lemma SeparateStep(before: seq<Task>, t: Task, lists: map<Status, seq<Task>>)
    requires lists.Keys == StatusKeys(before)
    requires forall s :: s in lists ==> lists[s] == Column(before, s)
    ensures var current := if t.status in lists then lists[t.status] else [];
            var next := lists[t.status := current + [t]];
            && next.Keys == StatusKeys(before + [t])
            && forall s :: s in next ==> next[s] == Column(before + [t], s)
  {
    var current := if t.status in lists then lists[t.status] else [];
    var next := lists[t.status := current + [t]];
    assert (before + [t])[..|before|] == before;
    assert StatusKeys(before + [t]) == StatusKeys(before) + {t.status};
    assert next.Keys == lists.Keys + {t.status};
    if t.status !in lists {
      ColumnOutsideKeys(before, t.status);
    }
    assert current == Column(before, t.status);
    forall s | s in next
      ensures next[s] == Column(before + [t], s)
    {
      ColumnAppend(before, t, s);
      if s == t.status {
        assert next[s] == current + [t];
      } else {
        assert next[s] == lists[s];
      }
    }
  }

  /** `seperateTaskByStatus`: one entry per board status, even for an empty
      column, plus one entry per other status that occurs; each entry is the
      column of its status. */
  method SeparateTaskByStatus(tasks: seq<Task>) returns (lists: map<Status, seq<Task>>)
    ensures forall s :: s in lists <==> s in BoardStatuses || exists j :: 0 <= j < |tasks| && tasks[j].status == s
    ensures forall s :: s in lists ==> lists[s] == Column(tasks, s)
  {
    lists := map[Pending := [], InProgress := [], NeedsReview := [], Completed := []];
    for i := 0 to |tasks|
      invariant lists.Keys == StatusKeys(tasks[..i])
      invariant forall s :: s in lists ==> lists[s] == Column(tasks[..i], s)
    {
      var t := tasks[i];
      assert tasks[..i + 1] == tasks[..i] + [t];
      SeparateStep(tasks[..i], t, lists);
      var current := if t.status in lists then lists[t.status] else [];
      lists := lists[t.status := current + [t]];
    }
    assert tasks[..|tasks|] == tasks;
    forall s
      ensures s in lists <==> s in BoardStatuses || exists j :: 0 <= j < |tasks| && tasks[j].status == s
    {
      StatusKeysMembers(tasks, s);
    }
  }

  /** The max-finding loop over the column lengths: the result is at least
      every length and is 0 or one of them. */
  method MaxListLength(lengths: seq<int>) returns (m: int)
    ensures m >= 0
    ensures forall k :: 0 <= k < |lengths| ==> lengths[k] <= m
    ensures m == 0 || m in lengths
  {
    m := 0;
    for k := 0 to |lengths|
      invariant m >= 0
      invariant forall j :: 0 <= j < k ==> lengths[j] <= m
      invariant m == 0 || m in lengths[..k]
    {
      if lengths[k] > m {
        m := lengths[k];
      }
    }
    assert lengths[..|lengths|] == lengths;
  }

  /** One cell of the board: the padded empty cell of a column that has run
      out, or a task shown as its label number and its name. */
  datatype Cell = Blank | Card(number: int, name: string)

  /** `RenderKanban` labels a task with its position in the input,
      `DisplayKanban` with the row number. */
  datatype LabelMode = ByInputPosition | ByRowNumber

  /** The cell the board shows in row `row` of the column for `BoardStatuses[k]`. */
  function ExpectedCell(tasks: seq<Task>, mode: LabelMode, row: nat, k: nat): Cell
    requires k < |BoardStatuses|
  {
    var column := Column(tasks, BoardStatuses[k]);
    if row >= |column| then Blank
    else if mode == ByInputPosition then Card(IndexOf(tasks, column[row]), column[row].name)
    else Card(row, column[row].name)
  }

  /** `lists` holds the column of each board status under its key. */
  ghost predicate Separated(tasks: seq<Task>, lists: map<Status, seq<Task>>) {
    forall k :: 0 <= k < |BoardStatuses| ==>
      BoardStatuses[k] in lists && lists[BoardStatuses[k]] == Column(tasks, BoardStatuses[k])
  }

  /** The inner loop over the four statuses: row `i` of the board. */
  method LayOutRow(tasks: seq<Task>, lists: map<Status, seq<Task>>, mode: LabelMode, i: nat)
    returns (line: seq<Cell>)
    requires Separated(tasks, lists)
    ensures |line| == |BoardStatuses|
    ensures forall k :: 0 <= k < |BoardStatuses| ==> line[k] == ExpectedCell(tasks, mode, i, k)
  {
    line := [];
    for k := 0 to |BoardStatuses|
      invariant |line| == k
      invariant forall j :: 0 <= j < k ==> line[j] == ExpectedCell(tasks, mode, i, j)
    {
      var status := BoardStatuses[k];
      if i >= |lists[status]| {
        line := line + [Blank];
      } else {
        var t := lists[status][i];
        var number := if mode == ByInputPosition then IndexOf(tasks, t) else i;
        line := line + [Card(number, t.name)];
      }
    }
  }

  /** The length of the longest of the four columns, found by the max loop
      over `listLengths`. */
  method BoardHeight(tasks: seq<Task>, lists: map<Status, seq<Task>>) returns (h: int)
    requires Separated(tasks, lists)
    ensures forall k :: 0 <= k < |BoardStatuses| ==> |Column(tasks, BoardStatuses[k])| <= h
    ensures h == 0 || exists k :: 0 <= k < |BoardStatuses| && h == |Column(tasks, BoardStatuses[k])|
  {
    assert Pending == BoardStatuses[0] && InProgress == BoardStatuses[1];
    assert NeedsReview == BoardStatuses[2] && Completed == BoardStatuses[3];
    var lengths := [|lists[Pending]|, |lists[InProgress]|, |lists[NeedsReview]|, |lists[Completed]|];
    assert forall k :: 0 <= k < |BoardStatuses| ==> lengths[k] == |Column(tasks, BoardStatuses[k])|;
    h := MaxListLength(lengths);
  }

  /** The row loop shared by `RenderKanban` and `DisplayKanban`: as many rows
      as the longest column, four cells per row, each cell the one
      `ExpectedCell` describes. */
  method LayOut(tasks: seq<Task>, mode: LabelMode) returns (grid: seq<seq<Cell>>)
    ensures forall k :: 0 <= k < |BoardStatuses| ==> |Column(tasks, BoardStatuses[k])| <= |grid|
    ensures |grid| == 0 || exists k :: 0 <= k < |BoardStatuses| && |grid| == |Column(tasks, BoardStatuses[k])|
    ensures forall i :: 0 <= i < |grid| ==> |grid[i]| == |BoardStatuses|
    ensures forall i, k :: 0 <= i < |grid| && 0 <= k < |BoardStatuses| ==> grid[i][k] == ExpectedCell(tasks, mode, i, k)
  {
    var lists := SeparateTaskByStatus(tasks);
    assert Separated(tasks, lists);
    var maxListLength := BoardHeight(tasks, lists);
    grid := [];
    for i := 0 to maxListLength
      invariant |grid| == i
      invariant forall r :: 0 <= r < i ==> |grid[r]| == |BoardStatuses|
      invariant forall r, k :: 0 <= r < i && 0 <= k < |BoardStatuses| ==> grid[r][k] == ExpectedCell(tasks, mode, r, k)
    {
      var line := LayOutRow(tasks, lists, mode, i);
      grid := grid + [line];
    }
  }

  /** `RenderKanban`: besides the layout, every card names a task of the
      input by its first position there, that task has the column's status,
      and every task with one of the four statuses is shown in its column. */
  method RenderKanban(tasks: seq<Task>) returns (grid: seq<seq<Cell>>)
    ensures forall k :: 0 <= k < |BoardStatuses| ==> |Column(tasks, BoardStatuses[k])| <= |grid|
    ensures |grid| == 0 || exists k :: 0 <= k < |BoardStatuses| && |grid| == |Column(tasks, BoardStatuses[k])|
    ensures forall i :: 0 <= i < |grid| ==> |grid[i]| == |BoardStatuses|
    ensures forall i, k :: 0 <= i < |grid| && 0 <= k < |BoardStatuses| ==>
              (grid[i][k] == Blank <==> i >= |Column(tasks, BoardStatuses[k])|)
    ensures forall i, k :: 0 <= i < |grid| && 0 <= k < |BoardStatuses| && grid[i][k].Card? ==>
              var n := grid[i][k].number;
              0 <= n < |tasks| && tasks[n] == Column(tasks, BoardStatuses[k])[i]
              && n == IndexOf(tasks, tasks[n])
              && tasks[n].status == BoardStatuses[k] && tasks[n].name == grid[i][k].name
    ensures forall i, k :: 0 <= i < |grid| && 0 <= k < |BoardStatuses| ==>
              grid[i][k] == ExpectedCell(tasks, ByInputPosition, i, k)
    ensures forall j :: 0 <= j < |tasks| && ValidStatus(tasks[j].status) ==>
              exists i :: 0 <= i < |grid| && grid[i][tasks[j].status] == Card(IndexOf(tasks, tasks[j]), tasks[j].name)
  {
    grid := LayOut(tasks, ByInputPosition);
    forall i, k | 0 <= i < |grid| && 0 <= k < |BoardStatuses| && grid[i][k].Card?
      ensures var n := grid[i][k].number;
              0 <= n < |tasks| && tasks[n] == Column(tasks, BoardStatuses[k])[i]
              && n == IndexOf(tasks, tasks[n]) && tasks[n].status == BoardStatuses[k]
    {
      var column := Column(tasks, BoardStatuses[k]);
      assert column[i] in column;
      ColumnMembers(tasks, BoardStatuses[k], column[i]);
    }
    forall j | 0 <= j < |tasks| && ValidStatus(tasks[j].status)
      ensures exists i :: 0 <= i < |grid| && grid[i][tasks[j].status] == Card(IndexOf(tasks, tasks[j]), tasks[j].name)
    {
      var k := tasks[j].status;
      assert BoardStatuses[k] == k;
      var column := Column(tasks, k);
      ColumnMembers(tasks, k, tasks[j]);
      var i :| 0 <= i < |column| && column[i] == tasks[j];
      assert grid[i][k] == ExpectedCell(tasks, ByInputPosition, i, k);
    }
  }

  /** `DisplayKanban`: the same layout, but a card's label is its row number,
      shared by every card of the row. */
  method DisplayKanban(tasks: seq<Task>) returns (grid: seq<seq<Cell>>)
    ensures forall k :: 0 <= k < |BoardStatuses| ==> |Column(tasks, BoardStatuses[k])| <= |grid|
    ensures |grid| == 0 || exists k :: 0 <= k < |BoardStatuses| && |grid| == |Column(tasks, BoardStatuses[k])|
    ensures forall i :: 0 <= i < |grid| ==> |grid[i]| == |BoardStatuses|
    ensures forall i, k :: 0 <= i < |grid| && 0 <= k < |BoardStatuses| ==>
              grid[i][k] == if i >= |Column(tasks, BoardStatuses[k])| then Blank
                            else Card(i, Column(tasks, BoardStatuses[k])[i].name)
  {
    grid := LayOut(tasks, ByRowNumber);
  }

  /** The footer loop: one bottom bar per board status, in status order, each
      in its column's colour. */
  method FooterColors() returns (colors: seq<string>)
    ensures |colors| == |BoardStatuses|
    ensures forall k :: 0 <= k < |colors| ==> colors[k] == BorderColors[BoardStatuses[k]]
    ensures colors == ["34", "33", "35", "32"]
  {
    colors := [];
    var status := Pending;
    while status <= Completed
      invariant Pending <= status <= Completed + 1
      invariant |colors| == status
      invariant forall k :: 0 <= k < status ==> colors[k] == BorderColors[BoardStatuses[k]]
    {
      colors := colors + [BorderColors[status]];
      status := status + 1;
    }
  }
}
