/** The graph demo inside `DataHandler` (data_handler.py): an adjacency list
    that nodes and edges are added to in place, an adjacency matrix read from
    a comma-separated string, and the text table that shows either of them. */
module Graphs {
  import opened Common
  import opened Text

  /** `_adjacency_list`: each node's name mapped to the names it has edges to. */
  type AdjacencyList = map<string, seq<string>>

  // ---------------------------------------------------------------- adjacency list

  /** Every edge ends at a node of the graph. */
  predicate Closed(adj: AdjacencyList) {
    forall a, b :: a in adj && b in adj[a] ==> b in adj
  }

  predicate NoSelfLoops(adj: AdjacencyList) {
    forall a :: a in adj ==> a !in adj[a]
  }

  predicate NoDuplicateEdges(adj: AdjacencyList) {
    forall a :: a in adj ==> Distinct(adj[a])
  }

  /** What `add_adjacency_node` and `add_edge_adjacency_list` keep true of every
      graph they build, directed or not. */
  predicate WellFormed(adj: AdjacencyList) {
    && Closed(adj) && NoSelfLoops(adj) && NoDuplicateEdges(adj)
    && forall a :: a in adj ==> 1 <= |a| <= 3
  }

  /** Every edge has its reverse: the shape of a graph built only from
      undirected edges. */
  predicate Undirected(adj: AdjacencyList) {
    forall a, b :: a in adj && b in adj[a] ==> b in adj && a in adj[b]
  }

  /** A new node starts without edges and keeps the graph well formed and,
      if it was, undirected. */
  lemma WithNodeWellFormed(adj: AdjacencyList, node: string)
    requires WellFormed(adj) && 1 <= |node| <= 3 && node !in adj
    ensures WellFormed(adj[node := []])
    ensures Undirected(adj) ==> Undirected(adj[node := []])
  {
    var r := adj[node := []];
    assert forall a :: a in adj ==> r[a] == adj[a];
  }

  /** The adjacency list after a successful `add_edge_adjacency_list`: `b`
      appended to `a`'s list and, for an undirected edge, `a` to `b`'s. Exactly
      these edges are new; no node is added and no other list changes. */
  function WithEdge(adj: AdjacencyList, a: string, b: string, directed: bool): (r: AdjacencyList)
    requires a in adj && b in adj && a != b
    ensures r.Keys == adj.Keys
    ensures forall x, y :: x in adj ==>
      (y in r[x] <==> y in adj[x] || (x == a && y == b) || (!directed && x == b && y == a))
    ensures forall x :: x in adj && x != a && (directed || x != b) ==> r[x] == adj[x]
  {
    var withForward := adj[a := adj[a] + [b]];
    if directed then withForward else withForward[b := adj[b] + [a]]
  }

  lemma AppendDistinct(s: seq<string>, x: string)
    requires Distinct(s) && x !in s
    ensures Distinct(s + [x])
  {
  }

  /** An edge that passes the checks (both nodes exist, no self-loop, not yet
      present) keeps the graph well formed. */
  lemma WithEdgeWellFormed(adj: AdjacencyList, a: string, b: string, directed: bool)
    requires WellFormed(adj) && a in adj && b in adj && a != b
    requires b !in adj[a] && (!directed ==> a !in adj[b])
    ensures WellFormed(WithEdge(adj, a, b, directed))
  {
    var r := WithEdge(adj, a, b, directed);
    AppendDistinct(adj[a], b);
    if !directed {
      AppendDistinct(adj[b], a);
    }
    forall x | x in r
      ensures Distinct(r[x]) && x !in r[x]
    {
      if x == a {
        assert r[x] == adj[a] + [b];
      } else if !directed && x == b {
        assert r[x] == adj[b] + [a];
      }
    }
  }

  /** Undirected edges added to an undirected graph leave it undirected. */
  lemma WithEdgeUndirected(adj: AdjacencyList, a: string, b: string)
    requires Undirected(adj) && a in adj && b in adj && a != b
    ensures Undirected(WithEdge(adj, a, b, false))
  {
  }

  // ---------------------------------------------------------------- matrix input

  /** `n` has an integer square root. */
  ghost predicate IsPerfectSquare(n: nat) {
    exists k: nat :: Square(k) == n
  }

  function Square(k: nat): nat {
    k * k
  }

  lemma SquareMonotone(a: nat, b: nat)
    requires a <= b
    ensures Square(a) <= Square(b)
  {
    assert a * a <= a * b <= b * b;
  }

  /** The integer square root: the `int(np.sqrt(n))` of the square check. */
  function Isqrt(n: nat): (r: nat)
    ensures Square(r) <= n < Square(r + 1)
  {
    if n == 0 then 0
    else
      var s := Isqrt(n - 1);
      if Square(s + 1) <= n then
        SquareMonotone(s + 1, s + 2);
        s + 1
      else s
  }

  /** The square check `side ** 2 == n` accepts exactly the perfect squares,
      and for those `side` is the root. */
  lemma IsqrtExact(n: nat)
    ensures Square(Isqrt(n)) == n <==> IsPerfectSquare(n)
    ensures forall k: nat :: Square(k) == n ==> Isqrt(n) == k
  {
    var r := Isqrt(n);
    forall k: nat | Square(k) == n
      ensures r == k
    {
      if r < k {
        SquareMonotone(r + 1, k);
      } else if r > k {
        SquareMonotone(k + 1, r);
      }
    }
  }

  /** The rows of a matrix one after the other. */
  function Flatten(rows: seq<seq<int>>): (r: seq<int>)
  {
    if rows == [] then [] else rows[0] + Flatten(rows[1..])
  }

  /** `[values[i : i + side] for i in range(0, len(values), side)]`: consecutive
      slices of `side` values, the last one shorter if the values run out. */
  function Chunks(values: seq<int>, side: nat): (rows: seq<seq<int>>)
    requires side > 0
    ensures Flatten(rows) == values
    ensures forall i :: 0 <= i < |rows| ==> 0 < |rows[i]| <= side
    decreases |values|
  {
    if values == [] then []
    else if |values| <= side then
      assert Flatten([values]) == values + Flatten([]);
      [values]
    else
      var rest := Chunks(values[side..], side);
      assert ([values[..side]] + rest)[1..] == rest;
      assert values[..side] + values[side..] == values;
      [values[..side]] + rest
  }

  /** Every row has as many entries as there are rows. */
  predicate IsSquare(m: seq<seq<int>>) {
    forall i :: 0 <= i < |m| ==> |m[i]| == |m|
  }

  lemma {:induction false} FlattenLength(m: seq<seq<int>>, side: nat)
    requires forall i :: 0 <= i < |m| ==> |m[i]| == side
    ensures |Flatten(m)| == side * |m|
  {
    if m != [] {
      FlattenLength(m[1..], side);
    }
  }

  /** `side * k` values cut into rows of `side` give `k` full rows. */
  lemma {:induction false} ChunksFull(values: seq<int>, side: nat, k: nat)
    requires side > 0 && |values| == side * k
    ensures |Chunks(values, side)| == k
    ensures forall i :: 0 <= i < k ==> |Chunks(values, side)[i]| == side
  {
    if k > 1 {
      assert |values[side..]| == side * (k - 1);
      ChunksFull(values[side..], side, k - 1);
    }
  }

  /** Cutting the flattened rows of a matrix with rows of length `side` gives
      back the matrix. */
  lemma {:induction false} ChunksOfFlatten(m: seq<seq<int>>, side: nat)
    requires side > 0 && forall i :: 0 <= i < |m| ==> |m[i]| == side
    ensures Chunks(Flatten(m), side) == m
  {
    if m != [] {
      var f := Flatten(m);
      FlattenLength(m[1..], side);
      ChunksOfFlatten(m[1..], side);
      assert f[..side] == m[0] && f[side..] == Flatten(m[1..]);
      if |m| == 1 {
        assert f == m[0];
      }
    }
  }

  /** The tokens of a matrix string: spaces removed, cut at commas. */
  function Tokens(text: string): (tokens: seq<string>)
  {
    Split(Remove(text, ' '), ',')
  }

  /** The parse/reshape part of `generate_graph_from_matrix_string`: the
      messages for an empty input, a token that is not an integer and a count
      that is not a perfect square, in that order, else the `side` x `side`
      matrix in row-major order. */
  function ParseMatrix(text: string): (r: Result<seq<seq<int>>>)
    ensures text == "" ==> r == Err("Please fill the input field.")
    ensures r.Ok? <==> text != "" && ParseAll(Tokens(text)).Some? && IsPerfectSquare(|Tokens(text)|)
    ensures r.Ok? ==> IsSquare(r.value) && |r.value| > 0
    ensures r.Ok? ==> Flatten(r.value) == ParseAll(Tokens(text)).value
  {
    if text == "" then Err("Please fill the input field.")
    else
      match ParseAll(Tokens(text))
      case None =>
        Err("Please ensure to follow the suggested formatting, non-integer values were found.")
      case Some(values) =>
        var side := Isqrt(|values|);
        IsqrtExact(|values|);
        if Square(side) != |values| then
          Err("Invalid adjacency matrix, number of elements does not form a square")
        else
          ChunksFull(values, side, side);
          Ok(Chunks(values, side))
  }

  /** A square matrix written out as `generate_graph_from_matrix_string`
      expects it: every entry, row by row, separated by commas. */
  function MatrixText(m: seq<seq<int>>): string {
    Join(",", IntStrings(Flatten(m)))
  }

  /** Reading a written-out square matrix gives the matrix back. */
  lemma ParseMatrixRoundTrip(m: seq<seq<int>>)
    requires IsSquare(m) && m != []
    ensures ParseMatrix(MatrixText(m)) == Ok(m)
  {
    var values := Flatten(m);
    var parts := IntStrings(values);
    FlattenLength(m, |m|);
    assert |values| == Square(|m|);
    assert |values| > 0 by {
      SquareMonotone(1, |m|);
    }
    forall i | 0 <= i < |parts|
      ensures ',' !in parts[i] && ' ' !in parts[i]
    {
      IntToStringAvoids(values[i], ',');
      IntToStringAvoids(values[i], ' ');
    }
    var text := MatrixText(m);
    JoinAvoids(",", parts, ' ');
    RemoveAbsent(text, ' ');
    JoinSplit(parts, ',');
    assert Tokens(text) == parts;
    ParseAllRoundTrip(values);
    assert text != "" by {
      assert Split(text, ',') == parts;
    }
    IsqrtExact(|values|);
    ChunksOfFlatten(m, |m|);
  }

  // ---------------------------------------------------------------- table text

  /** The cells of one row, each followed by a space. */
  function CellsText(cells: seq<string>): string {
    if cells == [] then "" else CellsText(cells[..|cells| - 1]) + cells[|cells| - 1] + " "
  }

  /** One table line: the row heading, the cells, stripped, then a newline. */
  function RowLine(head: string, cells: seq<string>): string {
    Strip(head + " " + CellsText(cells)) + "\n"
  }

  /** The first `n` table lines. */
  function RowLines(heads: seq<string>, cells: seq<seq<string>>, n: nat): string
    requires |heads| == |cells| && n <= |heads|
  {
    if n == 0 then "" else RowLines(heads, cells, n - 1) + RowLine(heads[n - 1], cells[n - 1])
  }

  /** The heading line: three spaces, then the column headings. */
  function HeaderLine(columnHeads: seq<string>): string {
    "   " + Join(" ", columnHeads) + "\n"
  }

  /** The whole table: the heading line, then one line per row. */
  function TableText(columnHeads: seq<string>, rowHeads: seq<string>, cells: seq<seq<string>>): string
    requires |rowHeads| == |cells|
  {
    HeaderLine(columnHeads) + RowLines(rowHeads, cells, |rowHeads|)
  }

  /** `N1`, `N2`, ... : the headings of a matrix's rows and columns. */
  function Labels(k: nat): (r: seq<string>)
    ensures |r| == k
  {
    seq(k, i requires 0 <= i < k => "N" + NatToString(i + 1))
  }

  /** The matrix entries as `str` writes them. */
  function MatrixCells(m: seq<seq<int>>): (r: seq<seq<string>>)
    requires IsSquare(m)
    ensures |r| == |m| && forall i :: 0 <= i < |m| ==> |r[i]| == |m|
    ensures forall i, j :: 0 <= i < |m| && 0 <= j < |m| ==> ParseInt(r[i][j]) == Some(m[i][j])
  {
    var r := seq(|m|, i requires 0 <= i < |m| => IntStrings(m[i]));
    forall i, j | 0 <= i < |m| && 0 <= j < |m|
      ensures ParseInt(r[i][j]) == Some(m[i][j])
    {
      ParseIntRoundTrip(m[i][j]);
    }
    r
  }

  /** The 0/1 cells of the adjacency-list table over `names`: "1" exactly
      where the column node is in the row node's list. */
  function ListCells(adj: AdjacencyList, names: seq<string>): (r: seq<seq<string>>)
    requires forall i :: 0 <= i < |names| ==> names[i] in adj
    ensures |r| == |names| && forall i :: 0 <= i < |names| ==> |r[i]| == |names|
    ensures forall i, j :: 0 <= i < |names| && 0 <= j < |names| ==>
      (r[i][j] == "1" <==> names[j] in adj[names[i]]) && (r[i][j] == "1" || r[i][j] == "0")
  {
    seq(|names|, i requires 0 <= i < |names| =>
      seq(|names|, j requires 0 <= j < |names| => if names[j] in adj[names[i]] then "1" else "0"))
  }

  /** The table of an undirected graph is symmetric about its diagonal. */
  lemma ListCellsSymmetric(adj: AdjacencyList, names: seq<string>, i: nat, j: nat)
    requires forall k :: 0 <= k < |names| ==> names[k] in adj
    requires Undirected(adj) && i < |names| && j < |names|
    ensures ListCells(adj, names)[i][j] == ListCells(adj, names)[j][i]
  {
  }

  /** `adjacency_matrix_table_str`: the matrix's table when a matrix has been
      read, else the adjacency list's table over the sorted node names, else
      nothing (`None`). */
  function Table(matrix: seq<seq<int>>, nodes: seq<string>, adj: AdjacencyList): (r: Option<string>)
    requires IsSquare(matrix)
    requires forall i :: 0 <= i < |nodes| ==> nodes[i] in adj
    ensures r == None <==> matrix == [] && nodes == []
    ensures matrix != [] ==> r == Some(TableText(Labels(|matrix|), Labels(|matrix|), MatrixCells(matrix)))
    ensures matrix == [] && nodes != [] ==>
      var names := SortStrings(nodes);
      (forall i :: 0 <= i < |names| ==> names[i] in multiset(nodes)) &&
      r == Some(TableText(names, names, ListCells(adj, names)))
  {
    if matrix != [] then
      Some(TableText(Labels(|matrix|), Labels(|matrix|), MatrixCells(matrix)))
    else if nodes != [] then
      var names := SortStrings(nodes);
      assert forall i :: 0 <= i < |names| ==> names[i] in multiset(nodes);
      Some(TableText(names, names, ListCells(adj, names)))
    else None
  }

  /** The checks of `add_adjacency_node`, in order: a name is required, it
      may have at most three characters and must not exist yet. */
  function NodeCheck(adj: AdjacencyList, node: string): (r: Check)
    ensures r.Accepted? <==> 1 <= |node| <= 3 && node !in adj
    ensures node == "" ==> r == Rejected("Please enter a value for the node.")
    ensures node != "" && |node| > 3 ==> r == Rejected("Please enter a value between 1 and 3 characters in length.")
    ensures 1 <= |node| <= 3 && node in adj ==> r == Rejected("A node already exists with this name.")
  {
    if node == "" then Rejected("Please enter a value for the node.")
    else if !(1 <= |node| <= 3) then Rejected("Please enter a value between 1 and 3 characters in length.")
    else if node in adj then Rejected("A node already exists with this name.")
    else Accepted
  }

  /** The checks of `add_edge_adjacency_list`, in order: both nodes exist, they
      differ, and the edge is not there yet (in either direction when the
      edge is undirected). A directed edge is not blocked by its reverse. */
  function EdgeCheck(adj: AdjacencyList, node1: string, node2: string, directed: bool): (r: Check)
    ensures r.Accepted? <==>
      node1 in adj && node2 in adj && node1 != node2 && node2 !in adj[node1] && (directed || node1 !in adj[node2])
    ensures node1 !in adj || node2 !in adj ==> r == Rejected("Please choose two nodes using the dropdown menus.")
    ensures node1 in adj && node2 in adj && node1 == node2 ==> r == Rejected("Graph does not support self-loops")
    ensures node1 in adj && node2 in adj && node1 != node2 ==>
      (r == Rejected("Edge already exists.") <==> node2 in adj[node1] || (!directed && node1 in adj[node2]))
  {
    if node1 !in adj || node2 !in adj then Rejected("Please choose two nodes using the dropdown menus.")
    else if node1 == node2 then Rejected("Graph does not support self-loops")
    else if node2 in adj[node1] || (!directed && node1 in adj[node2]) then Rejected("Edge already exists.")
    else Accepted
  }

  // ---------------------------------------------------------------- the graph state

  /** The node list is the dictionary's keys, each once, and the graph is well formed. */
  ghost predicate GraphInvariant(nodes: seq<string>, adj: AdjacencyList) {
    && Distinct(nodes)
    && (forall a :: a in adj <==> a in nodes)
    && WellFormed(adj)
  }

  /** A dictionary is empty exactly when its list of keys is. */
  lemma KeysEmpty(nodes: seq<string>, adj: AdjacencyList)
    requires forall a :: a in adj <==> a in nodes
    ensures nodes == [] <==> adj == map[]
  {
    if nodes != [] {
      assert nodes[0] in adj;
    }
    if adj != map[] {
      var a :| a in adj;
      assert a in nodes;
    }
  }

  /** Adding a node that passed the checks keeps the invariant. */
  lemma AddNodeInvariant(nodes: seq<string>, adj: AdjacencyList, node: string)
    requires GraphInvariant(nodes, adj) && 1 <= |node| <= 3 && node !in adj
    ensures GraphInvariant(nodes + [node], adj[node := []])
    ensures Undirected(adj) ==> Undirected(adj[node := []])
  {
    WithNodeWellFormed(adj, node);
    assert node !in nodes;
  }

  /** Adding an edge that passed the checks keeps the invariant. */
  lemma AddEdgeInvariant(nodes: seq<string>, adj: AdjacencyList, a: string, b: string, directed: bool)
    requires GraphInvariant(nodes, adj) && a in adj && b in adj && a != b
    requires b !in adj[a] && (!directed ==> a !in adj[b])
    ensures GraphInvariant(nodes, WithEdge(adj, a, b, directed))
    ensures Undirected(adj) && !directed ==> Undirected(WithEdge(adj, a, b, directed))
  {
    WithEdgeWellFormed(adj, a, b, directed);
    if Undirected(adj) && !directed {
      WithEdgeUndirected(adj, a, b);
    }
  }

  /** The graph fields of `DataHandler`: `_adjacency_list` (with its keys in
      insertion order, as a Python dict keeps them) and `_adj_matrix`. */
  class Graph {
    var nodes: seq<string>
    var adjacency: AdjacencyList
    var matrix: seq<seq<int>>

    ghost predicate Valid()
      reads this
    {
      GraphInvariant(nodes, adjacency) && IsSquare(matrix)
    }

    constructor()
      ensures Valid() && nodes == [] && adjacency == map[] && matrix == []
    {
      nodes, adjacency, matrix := [], map[], [];
    }

    /** `add_adjacency_node`: the node is added with no edges when
        `NodeCheck` accepts it; otherwise nothing changes. */
    method AddAdjacencyNode(node: string) returns (r: Check)
      requires Valid()
      modifies this
      ensures Valid() && matrix == old(matrix)
      ensures r == NodeCheck(old(adjacency), node)
      ensures r.Accepted? ==> adjacency == old(adjacency)[node := []] && nodes == old(nodes) + [node]
      ensures r.Rejected? ==> adjacency == old(adjacency) && nodes == old(nodes)
    {
      r := NodeCheck(adjacency, node);
      if r.Accepted? {
        AddNodeInvariant(nodes, adjacency, node);
        adjacency := adjacency[node := []];
        nodes := nodes + [node];
      }
    }

    /** `add_edge_adjacency_list`: when `EdgeCheck` accepts, `node2` is appended
        to `node1`'s list and, for an undirected edge, `node1` to `node2`'s;
        otherwise nothing changes. */
    method AddEdgeAdjacencyList(node1: string, node2: string, directed: bool) returns (r: Check)
      requires Valid()
      modifies this
      ensures Valid() && nodes == old(nodes) && matrix == old(matrix)
      ensures r == EdgeCheck(old(adjacency), node1, node2, directed)
      ensures r.Accepted? ==> adjacency == WithEdge(old(adjacency), node1, node2, directed)
      ensures r.Rejected? ==> adjacency == old(adjacency)
    {
      r := EdgeCheck(adjacency, node1, node2, directed);
      if r.Accepted? {
        AddEdgeInvariant(nodes, adjacency, node1, node2, directed);
        ghost var added := WithEdge(adjacency, node1, node2, directed);
        adjacency := adjacency[node1 := adjacency[node1] + [node2]];
        if !directed {
          adjacency := adjacency[node2 := adjacency[node2] + [node1]];
        }
        assert adjacency == added;
      }
    }

    /** `generate_graph_from_matrix_string` without the drawing: on a valid
        string the parsed matrix becomes `_adj_matrix`. */
    method GenerateGraphFromMatrixString(text: string) returns (r: Check)
      requires Valid()
      modifies this
      ensures Valid() && nodes == old(nodes) && adjacency == old(adjacency)
      ensures ParseMatrix(text).Err? ==> r == Rejected(ParseMatrix(text).message) && matrix == old(matrix)
      ensures ParseMatrix(text).Ok? ==> r == Accepted && matrix == ParseMatrix(text).value
    {
      match ParseMatrix(text)
      case Err(message) =>
        r := Rejected(message);
      case Ok(rows) =>
        matrix := rows;
        r := Accepted;
    }

    /** `adjacency_matrix_table_str`, built line by line and cell by cell. */
    method AdjacencyMatrixTableStr() returns (r: Option<string>)
      requires Valid()
      ensures r == Table(matrix, nodes, adjacency)
    {
      if matrix != [] {
        var labels := Labels(|matrix|);
        var cells := MatrixCells(matrix);
        var text := BuildTable(labels, labels, cells);
        return Some(text);
      }
      KeysEmpty(nodes, adjacency);
      if adjacency != map[] {
        var names := SortStrings(nodes);
        assert forall i :: 0 <= i < |names| ==> names[i] in multiset(nodes);
        var cells := ListCells(adjacency, names);
        var text := BuildTable(names, names, cells);
        return Some(text);
      }
      return None;
    }
  }

  /** The inner loop of `adjacency_matrix_table_str`: the row heading, then
      each cell followed by a space; the line is that row stripped. */
  method RowText(head: string, cells: seq<string>) returns (line: string)
    ensures line == RowLine(head, cells)
  {
    var row := head + " ";
    var j := 0;
    while j < |cells|
      invariant 0 <= j <= |cells|
      invariant row == head + " " + CellsText(cells[..j])
    {
      assert cells[..j + 1][..j] == cells[..j];
      row := row + cells[j] + " ";
      j := j + 1;
    }
    assert cells[..j] == cells;
    line := Strip(row) + "\n";
  }

  /** Appending the next row line to a prefix of the table extends it by one row. */
  lemma AppendRowLine(header: string, heads: seq<string>, cells: seq<seq<string>>, i: nat)
    requires |heads| == |cells| && i < |heads|
    ensures (header + RowLines(heads, cells, i)) + RowLine(heads[i], cells[i])
            == header + RowLines(heads, cells, i + 1)
  {
    var lines, line := RowLines(heads, cells, i), RowLine(heads[i], cells[i]);
    assert (header + lines) + line == header + (lines + line);
  }

  /** The outer loop of `adjacency_matrix_table_str`: the heading line, then
      one stripped line per row. */
  method BuildTable(columnHeads: seq<string>, rowHeads: seq<string>, cells: seq<seq<string>>)
    returns (text: string)
    requires |rowHeads| == |cells|
    ensures text == TableText(columnHeads, rowHeads, cells)
  {
    var header := HeaderLine(columnHeads);
    text := header;
    var i := 0;
    while i < |rowHeads|
      invariant 0 <= i <= |rowHeads|
      invariant text == header + RowLines(rowHeads, cells, i)
    {
      var line := RowText(rowHeads[i], cells[i]);
      AppendRowLine(header, rowHeads, cells, i);
      text := text + line;
      i := i + 1;
    }
  }
}
