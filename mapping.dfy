/**
 * The manager-mapping core of the upload handler: turning the uploaded rows
 * into normalised records, the user-to-manager graph and the manager set,
 * and then into one summary row per manager.
 */
module Mapping {
  import opened Wrappers
  import opened Normalizer
  import opened StringOrder
  import opened Bfs

  /**
   * The four cells of one spreadsheet row that the handler reads, as
   * `r.get(column)` yields them: `None` for an empty cell or a missing column.
   */
  datatype Cells = Cells(firstname: Option<string>, usergroup: Option<string>,
                         manager1: Option<string>, manager2: Option<string>)

  /** A normalised row: `{"user": …, "ug": …, "m1": …, "m2": …}`. */
  datatype Row = Row(user: Option<string>, ug: Option<string>, m1: Option<string>, m2: Option<string>)

  /** One line of the manager summary sheet; `usergroups` is joined with ", " on output. */
  datatype SummaryRow = SummaryRow(manager: string, usergroups: seq<string>, kind: string)

  /** A normalised cell: absent, or a non-empty string without surrounding whitespace. */
  predicate Clean(x: Option<string>)
  {
    x.None? || (x.value != "" && Trimmed(x.value))
  }

  /**
   * Normalising the four cells of a row: a field is absent exactly when its
   * cell is missing or blank, and otherwise is its cell's text, trimmed.
   */
  function ToRow(c: Cells): (r: Row)
    ensures Clean(r.user) && Clean(r.ug) && Clean(r.m1) && Clean(r.m2)
    ensures r.user.None? <==> c.firstname.None? || AllSpace(c.firstname.value)
    ensures r.m1.None? <==> c.manager1.None? || AllSpace(c.manager1.value)
    ensures r.m2.None? <==> c.manager2.None? || AllSpace(c.manager2.value)
    ensures r.ug.None? <==> c.usergroup.None? || AllSpace(c.usergroup.value)
    ensures r.user.Some? ==> StripsTo(c.firstname.value, r.user.value)
    ensures r.ug.Some? ==> StripsTo(c.usergroup.value, r.ug.value)
    ensures r.m1.Some? ==> StripsTo(c.manager1.value, r.m1.value)
    ensures r.m2.Some? ==> StripsTo(c.manager2.value, r.m2.value)
  {
    Row(Normalize(c.firstname), Normalize(c.usergroup), Normalize(c.manager1), Normalize(c.manager2))
  }

  /** The rows the handler records for a sheet, one per input row, in input order. */
  ghost function Rows(cells: seq<Cells>): seq<Row>
  {
    if cells == [] then [] else Rows(cells[..|cells| - 1]) + [ToRow(cells[|cells| - 1])]
  }

  /** Row `i` of the recorded rows is input row `i`, normalised. */
  lemma {:induction false} RowsMeans(cells: seq<Cells>)
    ensures |Rows(cells)| == |cells|
    ensures forall i :: 0 <= i < |cells| ==> Rows(cells)[i] == ToRow(cells[i])
    decreases |cells|
  {
    if cells != [] {
      var init := cells[..|cells| - 1];
      RowsMeans(init);
      var rest := Rows(init);
      var last := ToRow(cells[|cells| - 1]);
      assert Rows(cells) == rest + [last];
      forall i | 0 <= i < |cells| ensures Rows(cells)[i] == ToRow(cells[i]) {
        if i < |init| {
          assert cells[i] == init[i];
          assert (rest + [last])[i] == rest[i];
        }
      }
    }
  }

  lemma RowsAfterCell(cells: seq<Cells>, i: nat)
    requires i < |cells|
    ensures Rows(cells[..i + 1]) == Rows(cells[..i]) + [ToRow(cells[i])]
  {
    assert cells[..i + 1][..i] == cells[..i];
  }

  /** The managers a row names, first then second, skipping the falsy ones. */
  function ManagedBy(r: Row): seq<string>
  {
    (if Truthy(r.m1) then [r.m1.value] else []) + (if Truthy(r.m2) then [r.m2.value] else [])
  }

  /** The managers a row adds to the manager set. */
  function Listed(r: Row): set<string>
  {
    (if Truthy(r.m1) then {r.m1.value} else {}) + (if Truthy(r.m2) then {r.m2.value} else {})
  }

  /** The set of managers collected from a sequence of rows. */
  ghost function ManagerSet(rows: seq<Row>): set<string>
  {
    if rows == [] then {} else ManagerSet(rows[..|rows| - 1]) + Listed(rows[|rows| - 1])
  }

  /** Whether a row names `m` as either of its managers. */
  predicate Names(r: Row, m: string)
  {
    r.m1 == Some(m) || r.m2 == Some(m)
  }

  /** The manager set is exactly the non-empty manager values of all rows. */
  lemma {:induction false} ManagerSetMeans(rows: seq<Row>, m: string)
    ensures m in ManagerSet(rows) <==> m != "" && exists k :: 0 <= k < |rows| && Names(rows[k], m)
    decreases |rows|
  {
    if rows != [] {
      var init := rows[..|rows| - 1];
      ManagerSetMeans(init, m);
      if exists k :: 0 <= k < |rows| && Names(rows[k], m) {
        var k :| 0 <= k < |rows| && Names(rows[k], m);
        if k < |rows| - 1 {
          assert init[k] == rows[k];
        }
      }
      if exists k :: 0 <= k < |init| && Names(init[k], m) {
        var k :| 0 <= k < |init| && Names(init[k], m);
        assert rows[k] == init[k];
      }
    }
  }

  /** The managers appended to `graph[u]`, in row order. */
  ghost function UpLinks(rows: seq<Row>, u: string): seq<string>
  {
    if rows == [] then []
    else
      var r := rows[|rows| - 1];
      UpLinks(rows[..|rows| - 1], u) + (if Truthy(r.user) && r.user.value == u then ManagedBy(r) else [])
  }

  /** The links of several batches of rows are those of each batch in turn: row order is kept. */
  lemma {:induction false} UpLinksAppend(a: seq<Row>, b: seq<Row>, u: string)
    ensures UpLinks(a + b, u) == UpLinks(a, u) + UpLinks(b, u)
    decreases |b|
  {
    if b == [] {
      assert a + b == a;
    } else {
      var b' := b[..|b| - 1];
      assert (a + b)[..|a + b| - 1] == a + b';
      assert (a + b)[|a + b| - 1] == b[|b| - 1];
      UpLinksAppend(a, b', u);
    }
  }

  /** `m` is among `u`'s links exactly when some row of user `u` names `m` as a manager. */
  lemma {:induction false} UpLinksMeans(rows: seq<Row>, u: string, m: string)
    ensures m in UpLinks(rows, u) <==>
              u != "" && m != "" && exists k :: 0 <= k < |rows| && rows[k].user == Some(u) && Names(rows[k], m)
    decreases |rows|
  {
    if rows != [] {
      var init := rows[..|rows| - 1];
      var r := rows[|rows| - 1];
      UpLinksMeans(init, u, m);
      if u != "" && m != "" && r.user == Some(u) && Names(r, m) {
        assert m in ManagedBy(r);
      }
      if exists k :: 0 <= k < |rows| && rows[k].user == Some(u) && Names(rows[k], m) {
        var k :| 0 <= k < |rows| && rows[k].user == Some(u) && Names(rows[k], m);
        if k < |rows| - 1 {
          assert init[k] == rows[k];
        }
      }
      if exists k :: 0 <= k < |init| && init[k].user == Some(u) && Names(init[k], m) {
        var k :| 0 <= k < |init| && init[k].user == Some(u) && Names(init[k], m);
        assert rows[k] == init[k];
      }
    }
  }

  /** The non-empty user names of the rows. */
  ghost function Users(rows: seq<Row>): set<string>
  {
    set k | 0 <= k < |rows| && Truthy(rows[k].user) :: rows[k].user.value
  }

  lemma {:induction false} LinkedIsUser(rows: seq<Row>, u: string)
    requires UpLinks(rows, u) != []
    ensures u in Users(rows)
    decreases |rows|
  {
    var init := rows[..|rows| - 1];
    var r := rows[|rows| - 1];
    if Truthy(r.user) && r.user.value == u {
      assert rows[|rows| - 1] == r;
    } else {
      LinkedIsUser(init, u);
      var k :| 0 <= k < |init| && Truthy(init[k].user) && init[k].user.value == u;
      assert rows[k] == init[k];
    }
  }

  /** The `defaultdict` graph: a key for every user some row gave a manager. */
  ghost function UpGraph(rows: seq<Row>): Graph
  {
    map u | u in Users(rows) && UpLinks(rows, u) != [] :: UpLinks(rows, u)
  }

  /** The graph's edges out of `u` are `u`'s links, and `u` is a key exactly when it has some. */
  lemma UpGraphMeans(rows: seq<Row>, u: string)
    ensures Succ(UpGraph(rows), u) == UpLinks(rows, u)
    ensures u in UpGraph(rows) <==> UpLinks(rows, u) != []
  {
    if UpLinks(rows, u) != [] {
      LinkedIsUser(rows, u);
    }
  }

  lemma LinksAfterRow(rows: seq<Row>, r: Row, u: string)
    ensures UpLinks(rows + [r], u) ==
              UpLinks(rows, u) + (if Truthy(r.user) && r.user.value == u then ManagedBy(r) else [])
  {
    assert (rows + [r])[..|rows|] == rows;
  }

  lemma ManagersAfterRow(rows: seq<Row>, r: Row)
    ensures ManagerSet(rows + [r]) == ManagerSet(rows) + Listed(r)
  {
    assert (rows + [r])[..|rows|] == rows;
  }

  /** `graph` holds, for every user, exactly the links the rows give it. */
  ghost predicate Tracks(graph: Graph, rows: seq<Row>)
  {
    (forall u :: Succ(graph, u) == UpLinks(rows, u)) && (forall u :: u in graph ==> graph[u] != [])
  }

  /**
   * The two appends of row `r` (`g0` to `g1` for the first manager, `g1` to
   * `g2` for the second) add the row's managers to its user's entry only.
   */
  ghost predicate RowAppends(r: Row, g0: Graph, g1: Graph, g2: Graph)
  {
    if Truthy(r.user) then
      && g1 == (if Truthy(r.m1) then g0[r.user.value := Succ(g0, r.user.value) + [r.m1.value]] else g0)
      && g2 == (if Truthy(r.m2) then g1[r.user.value := Succ(g1, r.user.value) + [r.m2.value]] else g1)
    else
      g2 == g0
  }

  lemma SuccAfterRow(r: Row, g0: Graph, g1: Graph, g2: Graph, v: string)
    requires RowAppends(r, g0, g1, g2)
    ensures Succ(g2, v) == Succ(g0, v) + (if Truthy(r.user) && r.user.value == v then ManagedBy(r) else [])
    ensures v in g2 ==> v in g0 || (Truthy(r.user) && r.user.value == v && ManagedBy(r) != [])
  {
    if Truthy(r.user) && r.user.value == v {
      assert Succ(g1, v) == Succ(g0, v) + (if Truthy(r.m1) then [r.m1.value] else []);
    }
  }

  /** The graph after row `r` tracks the rows with `r` added. */
  lemma TracksAfterRow(rows: seq<Row>, r: Row, g0: Graph, g1: Graph, g2: Graph)
    requires Tracks(g0, rows) && RowAppends(r, g0, g1, g2)
    ensures Tracks(g2, rows + [r])
  {
    forall u ensures Succ(g2, u) == UpLinks(rows + [r], u) {
      LinksAfterRow(rows, r, u);
      SuccAfterRow(r, g0, g1, g2, u);
    }
    forall u | u in g2 ensures g2[u] != [] {
      SuccAfterRow(r, g0, g1, g2, u);
    }
  }

  /** A graph that tracks the rows is the graph they determine. */
  lemma TracksIsUpGraph(graph: Graph, rows: seq<Row>)
    requires Tracks(graph, rows)
    ensures graph == UpGraph(rows)
  {
    forall u ensures u in graph <==> u in UpGraph(rows) {
      UpGraphMeans(rows, u);
    }
    forall u | u in graph ensures graph[u] == UpGraph(rows)[u] {
      UpGraphMeans(rows, u);
    }
  }

  /** Lines 108-109 for one row: the manager set gains the row's non-empty managers. */
  method AddManagers(managers: set<string>, r: Row) returns (result: set<string>)
    ensures result == managers + Listed(r)
  {
    result := managers;
    if Truthy(r.m1) {
      result := result + {r.m1.value};
    }
    if Truthy(r.m2) {
      result := result + {r.m2.value};
    }
  }

  /** Lines 111-113 for one row: the user's list gains `m1`, then `m2`, when present. */
  method AddLinks(graph: Graph, r: Row) returns (result: Graph, ghost mid: Graph)
    ensures RowAppends(r, graph, mid, result)
  {
    result, mid := graph, graph;
    if Truthy(r.user) {
      if Truthy(r.m1) {
        result := result[r.user.value := Succ(result, r.user.value) + [r.m1.value]];
      }
      mid := result;
      if Truthy(r.m2) {
        result := result[r.user.value := Succ(result, r.user.value) + [r.m2.value]];
      }
    }
  }

  /**
   * The first pass over the sheet: record each normalised row, collect the
   * managers it names, and append them to the user's entry in the graph.
   */
  method BuildTables(cells: seq<Cells>) returns (rows: seq<Row>, graph: Graph, managers: set<string>)
    ensures rows == Rows(cells)
    ensures managers == ManagerSet(rows)
    ensures graph == UpGraph(rows)
  {
    rows, graph, managers := [], map[], {};
    for i := 0 to |cells|
      invariant rows == Rows(cells[..i])
      invariant managers == ManagerSet(rows)
      invariant Tracks(graph, rows)
    {
      var r := ToRow(cells[i]);
      ManagersAfterRow(rows, r);
      RowsAfterCell(cells, i);
      ghost var rows0, graph0 := rows, graph;
      rows := rows + [r];
      managers := AddManagers(managers, r);
      ghost var graph1;
      graph, graph1 := AddLinks(graph, r);
      TracksAfterRow(rows0, r, graph0, graph1, graph);
    }
    assert cells[..|cells|] == cells;
    TracksIsUpGraph(graph, rows);
  }

  /** `direct_users`: the rows that name `mgr` as either manager, in row order. */
  function DirectRows(rows: seq<Row>, mgr: string): (direct: seq<Row>)
    ensures |direct| <= |rows|
    ensures forall r :: r in direct <==> r in rows && Names(r, mgr)
  {
    if rows == [] then []
    else
      var rest := DirectRows(rows[..|rows| - 1], mgr);
      var r := rows[|rows| - 1];
      assert forall x :: x in rows <==> x in rows[..|rows| - 1] || x == r;
      if Names(r, mgr) then rest + [r] else rest
  }

  /** The usergroups of the rows naming `mgr`, leaving out the missing ones. */
  ghost function DirectGroups(rows: seq<Row>, mgr: string): set<string>
  {
    set k | 0 <= k < |rows| && Names(rows[k], mgr) && Truthy(rows[k].ug) :: rows[k].ug.value
  }

  /** `u` reaches `mgr` along the graph, but only over two or more edges. */
  ghost predicate Far(g: Graph, u: string, mgr: string)
  {
    Reachable(g, u, mgr) && !WithinHops(g, u, mgr, 1)
  }

  /** Some row's user is far from `mgr`: the handler's `indirect_flag`. */
  ghost predicate FarFromSomeUser(rows: seq<Row>, g: Graph, mgr: string)
  {
    exists k :: 0 <= k < |rows| && Truthy(rows[k].user) && Far(g, rows[k].user.value, mgr)
  }

  /** Two or more edges from `u`: reachable, yet neither `u` itself nor one of `u`'s own managers. */
  lemma FarMeans(g: Graph, u: string, mgr: string)
    ensures Far(g, u, mgr) <==> Reachable(g, u, mgr) && mgr != u && mgr !in Succ(g, u)
  {
    WithinOne(g, u, mgr);
  }

  /** On the distances the search returns, `mgr in dist and dist[mgr] >= 2` means `mgr` is far. */
  lemma FarByDistance(g: Graph, u: string, mgr: string, dist: map<string, nat>)
    requires forall k :: k in dist <==> Reachable(g, u, k)
    requires forall k :: k in dist ==> ShortestHops(g, u, k, dist[k])
    ensures (mgr in dist && dist[mgr] >= 2) <==> Far(g, u, mgr)
  {
    if mgr in dist {
      var n := dist[mgr];
      if n >= 2 && WithinHops(g, u, mgr, 1) {
        WithinMonotone(g, u, mgr, 1, n - 1);
      }
      if n < 2 {
        WithinMonotone(g, u, mgr, n, 1);
      }
    }
  }

  /**
   * The loop that sets `indirect_flag`: a search from the user of every row
   * that has one, looking for `mgr` two or more hops away.
   */
  method IndirectFlag(rows: seq<Row>, graph: Graph, mgr: string) returns (flag: bool)
    ensures flag <==> FarFromSomeUser(rows, graph, mgr)
  {
    flag := false;
    for i := 0 to |rows|
      invariant flag <==> exists k :: 0 <= k < i && Truthy(rows[k].user) && Far(graph, rows[k].user.value, mgr)
    {
      var u := rows[i].user;
      if !Truthy(u) {
        continue;
      }
      var dist;
      ghost var log;
      dist, log := Search(u.value, graph);
      FarByDistance(graph, u.value, mgr, dist);
      if mgr in dist && dist[mgr] >= 2 {
        flag := true;
      }
    }
  }

  /** The four-way label of the summary's "Type" column. */
  function Kind(direct: bool, indirect: bool): (k: string)
    ensures k in {"Direct + Indirect", "Direct", "Indirect", "-"}
    ensures k == "Direct + Indirect" <==> direct && indirect
    ensures k == "Direct" <==> direct && !indirect
    ensures k == "Indirect" <==> !direct && indirect
    ensures k == "-" <==> !direct && !indirect
  {
    if direct && indirect then "Direct + Indirect"
    else if direct then "Direct"
    else if indirect then "Indirect"
    else "-"
  }

  /**
   * What a summary line says about its manager: the label from whether some
   * row names it and whether some user is two or more hops from it, and the
   * usergroups of the rows naming it, ascending and without repeats.
   */
  ghost predicate Summarizes(rows: seq<Row>, g: Graph, s: SummaryRow)
  {
    && s.kind == Kind(|DirectRows(rows, s.manager)| > 0, FarFromSomeUser(rows, g, s.manager))
    && StrictlyAscending(s.usergroups)
    && forall x :: x in s.usergroups <==> x in DirectGroups(rows, s.manager)
  }

  /** The usergroup column for one manager: the sorted set of its direct rows' usergroups. */
  function Usergroups(direct: seq<Row>): (groups: seq<string>)
    ensures StrictlyAscending(groups)
    ensures forall x :: x in groups <==> exists r :: r in direct && r.ug == Some(x) && x != ""
  {
    Sorted(set r | r in direct && Truthy(r.ug) :: r.ug.value)
  }

  lemma DirectGroupsMeans(rows: seq<Row>, mgr: string, x: string)
    ensures x in DirectGroups(rows, mgr) <==>
              exists r :: r in DirectRows(rows, mgr) && r.ug == Some(x) && x != ""
  {
    var direct := DirectRows(rows, mgr);
    if exists r :: r in direct && r.ug == Some(x) && x != "" {
      var r :| r in direct && r.ug == Some(x) && x != "";
      var k :| 0 <= k < |rows| && rows[k] == r;
    }
  }

  /** The summary line of one manager: its direct rows, its label and its usergroups. */
  method SummaryLine(rows: seq<Row>, graph: Graph, mgr: string) returns (line: SummaryRow)
    ensures line.manager == mgr && Summarizes(rows, graph, line)
  {
    var direct := DirectRows(rows, mgr);
    var directFlag := |direct| > 0;
    var indirectFlag := IndirectFlag(rows, graph, mgr);
    var kind := Kind(directFlag, indirectFlag);
    var groups := Usergroups(direct);
    forall x ensures x in groups <==> x in DirectGroups(rows, mgr) {
      DirectGroupsMeans(rows, mgr, x);
    }
    line := SummaryRow(mgr, groups, kind);
  }

  /**
   * The second pass: one summary line per manager, in ascending order of
   * name, with its usergroups and its label.
   */
  method Summarize(rows: seq<Row>, graph: Graph, managers: set<string>) returns (summary: seq<SummaryRow>)
    ensures |summary| == |managers|
    ensures forall i, j :: 0 <= i < j < |summary| ==> Less(summary[i].manager, summary[j].manager)
    ensures forall m :: m in managers <==> exists i :: 0 <= i < |summary| && summary[i].manager == m
    ensures forall i :: 0 <= i < |summary| ==> Summarizes(rows, graph, summary[i])
  {
    var order := Sorted(managers);
    summary := [];
    for i := 0 to |order|
      invariant |summary| == i
      invariant Lines(rows, graph, order, summary)
    {
      var line := SummaryLine(rows, graph, order[i]);
      LinesExtend(rows, graph, order, summary, line);
      summary := summary + [line];
    }
    InOrder(managers, order, summary);
  }

  /** `summary` describes the first `|summary|` managers of `order`, one line each. */
  ghost predicate Lines(rows: seq<Row>, g: Graph, order: seq<string>, summary: seq<SummaryRow>)
  {
    && |summary| <= |order|
    && (forall k :: 0 <= k < |summary| ==> summary[k].manager == order[k])
    && (forall k :: 0 <= k < |summary| ==> Summarizes(rows, g, summary[k]))
  }

  lemma LinesExtend(rows: seq<Row>, g: Graph, order: seq<string>, summary: seq<SummaryRow>, line: SummaryRow)
    requires Lines(rows, g, order, summary) && |summary| < |order|
    requires line.manager == order[|summary|] && Summarizes(rows, g, line)
    ensures Lines(rows, g, order, summary + [line])
  {
  }

  /** Lines that follow the sorted manager set one for one list each manager once, ascending. */
  lemma InOrder(managers: set<string>, order: seq<string>, summary: seq<SummaryRow>)
    requires |order| == |managers| && StrictlyAscending(order)
    requires forall x :: x in order <==> x in managers
    requires |summary| == |order|
    requires forall k :: 0 <= k < |order| ==> summary[k].manager == order[k]
    ensures |summary| == |managers|
    ensures forall i, j :: 0 <= i < j < |summary| ==> Less(summary[i].manager, summary[j].manager)
    ensures forall m :: m in managers <==> exists i :: 0 <= i < |summary| && summary[i].manager == m
  {
    forall i, j | 0 <= i < j < |summary| ensures Less(summary[i].manager, summary[j].manager) {
      assert summary[i].manager == order[i] && summary[j].manager == order[j];
    }
    forall m ensures m in managers <==> exists i :: 0 <= i < |summary| && summary[i].manager == m {
      if m in managers {
        var i :| 0 <= i < |order| && order[i] == m;
        assert summary[i].manager == m;
      }
      if exists i :: 0 <= i < |summary| && summary[i].manager == m {
        var i :| 0 <= i < |summary| && summary[i].manager == m;
        assert order[i] in order;
      }
    }
  }

  /**
   * The upload handler's core: from the sheet's rows to the manager summary.
   * Every manager named anywhere gets exactly one line, in ascending order.
   */
  method Process(cells: seq<Cells>) returns (summary: seq<SummaryRow>)
    ensures |summary| == |ManagerSet(Rows(cells))|
    ensures forall i, j :: 0 <= i < j < |summary| ==> Less(summary[i].manager, summary[j].manager)
    ensures forall m :: m in ManagerSet(Rows(cells)) <==> exists i :: 0 <= i < |summary| && summary[i].manager == m
    ensures forall i :: 0 <= i < |summary| ==> Summarizes(Rows(cells), UpGraph(Rows(cells)), summary[i])
    ensures forall i :: 0 <= i < |summary| ==>
              summary[i].kind == (if FarFromSomeUser(Rows(cells), UpGraph(Rows(cells)), summary[i].manager)
                                  then "Direct + Indirect" else "Direct")
  {
    var rows, graph, managers := BuildTables(cells);
    summary := Summarize(rows, graph, managers);
    forall i | 0 <= i < |summary|
      ensures summary[i].kind == (if FarFromSomeUser(rows, graph, summary[i].manager)
                                  then "Direct + Indirect" else "Direct")
    {
      ListedLabel(rows, graph, summary[i]);
    }
  }

  /** A manager in the manager set is named by some row, so it has direct rows. */
  lemma ListedIsDirect(rows: seq<Row>, mgr: string)
    requires mgr in ManagerSet(rows)
    ensures |DirectRows(rows, mgr)| > 0
  {
    ManagerSetMeans(rows, mgr);
    var k :| 0 <= k < |rows| && Names(rows[k], mgr);
    assert rows[k] in DirectRows(rows, mgr);
  }

  /**
   * The label of a listed manager is never "Indirect" or "-": it is
   * "Direct + Indirect" exactly when some user is two or more hops away.
   */
  lemma ListedLabel(rows: seq<Row>, g: Graph, s: SummaryRow)
    requires Summarizes(rows, g, s) && s.manager in ManagerSet(rows)
    ensures s.kind == (if FarFromSomeUser(rows, g, s.manager) then "Direct + Indirect" else "Direct")
  {
    ListedIsDirect(rows, s.manager);
  }
}
