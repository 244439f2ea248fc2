/** `clustering` of src/main.rs: reading the rows of the input text,
    registering names and scores, checking the pair count, and running the
    heap-driven merge loop until the root is found. Stopping early is an
    `Err` where the source panics; reading the file is left to the caller. */
module Driver {
  import opened Util
  import opened Nodes
  import opened Linkage
  import opened Arena
  import opened Text
  import opened Tokenizer
  import opened Members
  import MaxHeap
  import BinaryTree
  import Newick

  const RowSep: string := "\n"
  const DataSep: string := "\t"

  /** The ways `clustering` stops before writing the tree. */
  datatype Error =
    | WrongFieldCount(count: nat)
    | BadScore(field: string)
    | CountMismatch(samples: nat, expected: nat, accepted: nat)
    | SelfPair
    | HeapExhausted

  /** One input row: from-name, to-name and score. */
  datatype Row = Row(from: Label, to: Label, score: int)

  // ---------------------------------------------------------------------
  // Rows

  lemma Join3(xs: seq<string>, d: string)
    requires |xs| == 3
    ensures Join(xs, d) == xs[0] + d + xs[1] + d + xs[2]
  {
    var tail := xs[1..];
    assert tail[0] == xs[1] && tail[1..] == [xs[2]];
    assert Join(tail[1..], d) == xs[2];
    assert Join(tail, d) == xs[1] + d + xs[2];
  }

  /** One line split on tabs: exactly three fields, the last a score. */
  function ParseRow(line: string, score: string -> Option<int>): (r: Result<Row, Error>)
    ensures var fields := Tokens(line, DataSep);
      (r.Ok? <==> |fields| == 3 && score(fields[2]).Some?) &&
      (|fields| != 3 ==> r == Err(WrongFieldCount(|fields|))) &&
      (|fields| == 3 && score(fields[2]).None? ==> r == Err(BadScore(fields[2]))) &&
      (r.Ok? ==> r.value.score == score(fields[2]).value)
  {
    var fields := Tokens(line, DataSep);
    if |fields| != 3 then Err(WrongFieldCount(|fields|))
    else
      match score(fields[2])
      case None => Err(BadScore(fields[2]))
      case Some(v) => Ok(Row(fields[0], fields[1], v))
  }

  /** The names of a parsed row are tab-free and, with the score field and
      tabs between them, give back the line (up to a trailing tab, which the
      split drops). */
  lemma ParseRowFields(line: string, score: string -> Option<int>)
    requires ParseRow(line, score).Ok?
    ensures var row := ParseRow(line, score).value; var fields := Tokens(line, DataSep);
      (forall j :: !OccursAt(row.from, DataSep, j) && !OccursAt(row.to, DataSep, j)) &&
      line == row.from + DataSep + row.to + DataSep + fields[2] + (if EndsWith(line, DataSep) then DataSep else "")
  {
    var fields := Tokens(line, DataSep);
    TokensJoin(line, DataSep);
    TokensHaveNoDelimiter(line, DataSep);
    Join3(fields, DataSep);
    assert 0 < |fields| && 1 < |fields|;
  }

  /** Every line parsed in order; the first bad line decides the error. */
  function ParseLines(ls: seq<string>, score: string -> Option<int>): Result<seq<Row>, Error>
    decreases |ls|
  {
    if |ls| == 0 then Ok([])
    else
      match ParseLines(ls[..|ls| - 1], score)
      case Err(e) => Err(e)
      case Ok(rows) =>
        match ParseRow(ls[|ls| - 1], score)
        case Err(e) => Err(e)
        case Ok(row) => Ok(rows + [row])
  }

  /** The lines parse exactly when each line does. */
  lemma {:induction false} ParseLinesOk(ls: seq<string>, score: string -> Option<int>)
    ensures ParseLines(ls, score).Ok? <==> forall k :: 0 <= k < |ls| ==> ParseRow(ls[k], score).Ok?
    decreases |ls|
  {
    if |ls| > 0 {
      var init := ls[..|ls| - 1];
      ParseLinesOk(init, score);
      assert forall k :: 0 <= k < |init| ==> init[k] == ls[k];
    }
  }

  /** Parsed lines give one row per line, in order. */
  lemma {:induction false} ParseLinesRows(ls: seq<string>, score: string -> Option<int>)
    requires ParseLines(ls, score).Ok?
    ensures |ParseLines(ls, score).value| == |ls|
    ensures forall k :: 0 <= k < |ls| ==> ParseRow(ls[k], score) == Ok(ParseLines(ls, score).value[k])
    decreases |ls|
  {
    if |ls| > 0 {
      var init := ls[..|ls| - 1];
      ParseLinesRows(init, score);
      assert forall k :: 0 <= k < |init| ==> init[k] == ls[k];
    }
  }

  /** The error reported is that of the first line that does not parse. */
  lemma {:induction false} FirstErrorWins(ls: seq<string>, score: string -> Option<int>, k: nat)
    requires k < |ls| && ParseRow(ls[k], score).Err?
    requires forall j :: 0 <= j < k ==> ParseRow(ls[j], score).Ok?
    ensures ParseLines(ls, score) == Err(ParseRow(ls[k], score).error)
    decreases |ls|
  {
    var init := ls[..|ls| - 1];
    if k < |ls| - 1 {
      assert init[k] == ls[k];
      assert forall j :: 0 <= j < k ==> init[j] == ls[j];
      FirstErrorWins(init, score, k);
    } else {
      assert forall j :: 0 <= j < |init| ==> init[j] == ls[j];
      ParseLinesOk(init, score);
    }
  }

  // ---------------------------------------------------------------------
  // Ingest

  /** The handle of a seen name: the position of its first sighting. */
  function IndexOf(order: seq<Label>, s: Label): (i: nat)
    requires s in order
    ensures i < |order| && order[i] == s
    ensures forall j :: 0 <= j < i ==> order[j] != s
  {
    if order[0] == s then 0 else 1 + IndexOf(order[1..], s)
  }

  /** `index_node_dict` for the names seen: handle i holds the i-th name. */
  function IndOf(order: seq<Label>): map<NodeIndex, Node>
  {
    map i: nat | i < |order| :: NewFromStr(order[i])
  }

  /** `node_index_dict` for the names seen: each singleton to its handle. */
  function NidOf(order: seq<Label>): map<seq<Label>, NodeIndex>
  {
    map s | s in order :: [s] := IndexOf(order, s)
  }

  function SetOf(order: seq<Label>): set<Label>
  {
    set s | s in order
  }

  /** Handles of a prefix's names stay the same as more names arrive. */
  lemma IndexOfPrefix(order: seq<Label>, more: seq<Label>, s: Label)
    requires s in order
    ensures s in order + more && IndexOf(order + more, s) == IndexOf(order, s)
  {
    var i := IndexOf(order, s);
    var w := order + more;
    assert w[i] == s;
    var j := IndexOf(w, s);
    assert forall k :: 0 <= k < i ==> w[k] == order[k];
  }

  /** With no name seen twice, the i-th name has handle i. */
  lemma IndexOfDistinct(order: seq<Label>, i: nat)
    requires NoDup(order) && i < |order|
    ensures IndexOf(order, order[i]) == i
  {
  }

  /** A first sighting adds one handle and one singleton, as the loop does
      with its two `insert`s. */
  lemma RegisterMaps(order: seq<Label>, name: Label)
    requires name !in order
    ensures IndOf(order + [name]) == IndOf(order)[|order| := NewFromStr(name)]
    ensures NidOf(order + [name]) == NidOf(order)[[name] := |order|]
    ensures SetOf(order + [name]) == SetOf(order) + {name}
  {
    var w := order + [name];
    RegisterNid(order, name);
    assert SetOf(w) == SetOf(order) + {name};
    assert forall i :: 0 <= i < |order| ==> w[i] == order[i];
  }

  lemma RegisterNid(order: seq<Label>, name: Label)
    requires name !in order
    ensures NidOf(order + [name]) == NidOf(order)[[name] := |order|]
  {
    var w := order + [name];
    forall s | s in order ensures IndexOf(w, s) == IndexOf(order, s) {
      IndexOfPrefix(order, [name], s);
    }
    NewNameLast(order, name);
    assert NidOf(w).Keys == NidOf(order).Keys + {[name]};
  }

  lemma NewNameLast(order: seq<Label>, name: Label)
    requires name !in order
    ensures IndexOf(order + [name], name) == |order|
  {
  }

  /** Names seen once each give the arena `BinaryT::new` expects. */
  lemma OrderInitial(order: seq<Label>)
    requires NoDup(order)
    ensures Initial(IndOf(order), NidOf(order), SetOf(order))
  {
    var ind, nid, samples := IndOf(order), NidOf(order), SetOf(order);
    NoDupCard(order);
    assert |samples| == |order|;
    forall i | i in ind ensures ind[i].data in nid && nid[ind[i].data] == i {
      IndexOfDistinct(order, i);
    }
    NidCard(order);
  }

  lemma NidCard(order: seq<Label>)
    ensures |NidOf(order)| == |SetOf(order)|
  {
    var nid := NidOf(order);
    var keys := set s | s in order :: [s];
    assert nid.Keys == keys;
    SingletonsCard(SetOf(order));
    assert keys == set s | s in SetOf(order) :: [s];
  }

  lemma {:induction false} SingletonsCard(xs: set<Label>)
    ensures |set s | s in xs :: [s]| == |xs|
    decreases |xs|
  {
    if xs != {} {
      NonEmptyHasMember(xs);
      var x :| x in xs;
      SingletonsCard(xs - {x});
      assert (set s | s in xs :: [s]) == (set s | s in xs - {x} :: [s]) + {[x]};
    }
  }

  /** A name seen before is not added again. */
  function Register(order: seq<Label>, name: Label): (r: seq<Label>)
    ensures name in r && (name in order ==> r == order) && (name !in order ==> r == order + [name])
  {
    if name in order then order else order + [name]
  }

  /** Registering only appends. */
  lemma RegisterExtends(order: seq<Label>, name: Label)
    ensures |order| <= |Register(order, name)| && Register(order, name) == order + Register(order, name)[|order|..]
  {
  }

  /** Registering keeps every name seen once. */
  lemma RegisterNoDup(order: seq<Label>, name: Label)
    requires NoDup(order)
    ensures NoDup(Register(order, name))
  {
  }

  /** The table after storing `v` at (a, b), overwriting any earlier value. */
  function Put(t: Table, a: Label, b: Label, v: int): Table
  {
    if a in t then t[a := t[a][b := v]] else t[a := map[b := v]]
  }

  /** After `Put`, (a, b) holds `v` and every other pair is as before. */
  lemma PutLookup(t: Table, a: Label, b: Label, v: int, x: Label, y: Label)
    ensures Lookup(Put(t, a, b, v), x, y) == if x == a && y == b then Some(v) else Lookup(t, x, y)
  {
  }

  /** A name occurs in the rows, as from-name or to-name. */
  predicate Mentioned(rows: seq<Row>, s: Label)
  {
    exists k :: 0 <= k < |rows| && (rows[k].from == s || rows[k].to == s)
  }

  /** The names the ingest loop registers over `rows`, in the order of
      their first sighting: the i-th holds handle i. */
  function OrderOf(rows: seq<Row>): (o: seq<Label>)
    ensures Registered(rows, o)
  {
    if |rows| == 0 then []
    else
      var o0 := OrderOf(rows[..|rows| - 1]);
      OrderStep(rows, o0);
      Register(Register(o0, rows[|rows| - 1].from), rows[|rows| - 1].to)
  }

  lemma OrderStep(rows: seq<Row>, o0: seq<Label>)
    requires |rows| > 0 && Registered(rows[..|rows| - 1], o0)
    ensures var row := rows[|rows| - 1]; Registered(rows, Register(Register(o0, row.from), row.to))
  {
    var init, row := rows[..|rows| - 1], rows[|rows| - 1];
    var o := Register(Register(o0, row.from), row.to);
    forall k | 0 <= k < |rows| ensures rows[k].from in o && rows[k].to in o {
      if k < |init| {
        assert rows[k] == init[k];
      }
    }
  }

  /** Each name is registered once. */
  lemma {:induction false} OrderNoDup(rows: seq<Row>)
    ensures NoDup(OrderOf(rows))
  {
    if |rows| > 0 {
      var o0 := OrderOf(rows[..|rows| - 1]);
      OrderNoDup(rows[..|rows| - 1]);
      RegisterNoDup(o0, rows[|rows| - 1].from);
      RegisterNoDup(Register(o0, rows[|rows| - 1].from), rows[|rows| - 1].to);
    }
  }

  /** The score table the ingest loop builds over `rows`. */
  function TableOf(rows: seq<Row>): Table
  {
    if |rows| == 0 then map[]
    else
      var row := rows[|rows| - 1];
      Put(TableOf(rows[..|rows| - 1]), row.from, row.to, row.score)
  }

  lemma MentionedSnoc(rows: seq<Row>, s: Label)
    requires |rows| > 0
    ensures var init, row := rows[..|rows| - 1], rows[|rows| - 1];
      Mentioned(rows, s) <==> Mentioned(init, s) || s == row.from || s == row.to
  {
    var init := rows[..|rows| - 1];
    if Mentioned(init, s) {
      var k :| 0 <= k < |init| && (init[k].from == s || init[k].to == s);
      assert rows[k] == init[k];
    }
    if Mentioned(rows, s) {
      var k :| 0 <= k < |rows| && (rows[k].from == s || rows[k].to == s);
      if k < |init| {
        assert init[k] == rows[k];
      }
    }
  }

  /** The names seen are exactly the names the rows mention. */
  lemma {:induction false} IngestNames(rows: seq<Row>, s: Label)
    ensures s in OrderOf(rows) <==> Mentioned(rows, s)
  {
    if |rows| > 0 {
      IngestNames(rows[..|rows| - 1], s);
      MentionedSnoc(rows, s);
    }
  }

  /** Earlier names keep their place as later rows are read. */
  lemma {:induction false} IngestPrefix(rows: seq<Row>, k: nat)
    requires k <= |rows|
    ensures var o, o2 := OrderOf(rows[..k]), OrderOf(rows);
      |o| <= |o2| && o2[..|o|] == o
    decreases |rows|
  {
    if k < |rows| {
      var init := rows[..|rows| - 1];
      assert init[..k] == rows[..k];
      IngestPrefix(init, k);
    } else {
      assert rows[..k] == rows;
    }
  }

  /** The heap entry of one row: its score and the handles of its names. */
  function RowEntry(row: Row, order: seq<Label>): (real, HeapPair)
    requires row.from in order && row.to in order
  {
    (row.score as real, HeapPair(IndexOf(order, row.from), IndexOf(order, row.to)))
  }

  ghost predicate Registered(rows: seq<Row>, order: seq<Label>)
  {
    forall k :: 0 <= k < |rows| ==> rows[k].from in order && rows[k].to in order
  }

  /** One heap entry per row, in row order. */
  function RowEntries(rows: seq<Row>, order: seq<Label>): seq<(real, HeapPair)>
    requires Registered(rows, order)
  {
    if |rows| == 0 then []
    else
      var init := rows[..|rows| - 1];
      assert forall k :: 0 <= k < |init| ==> init[k] == rows[k];
      RowEntries(init, order) + [RowEntry(rows[|rows| - 1], order)]
  }

  /** The k-th queued entry is the k-th row's. */
  lemma {:induction false} RowEntriesAt(rows: seq<Row>, order: seq<Label>)
    requires Registered(rows, order)
    ensures |RowEntries(rows, order)| == |rows|
    ensures forall k :: 0 <= k < |rows| ==> RowEntries(rows, order)[k] == RowEntry(rows[k], order)
  {
    if |rows| > 0 {
      var init := rows[..|rows| - 1];
      assert forall k :: 0 <= k < |init| ==> init[k] == rows[k];
      RowEntriesAt(init, order);
    }
  }

  /** Registering more names leaves earlier rows' entries as they were. */
  lemma RowEntriesExtend(rows: seq<Row>, order: seq<Label>, more: seq<Label>)
    requires Registered(rows, order)
    ensures Registered(rows, order + more) && RowEntries(rows, order) == RowEntries(rows, order + more)
  {
    RowEntriesAt(rows, order);
    RowEntriesAt(rows, order + more);
    forall k | 0 <= k < |rows| ensures RowEntry(rows[k], order) == RowEntry(rows[k], order + more) {
      IndexOfPrefix(order, more, rows[k].from);
      IndexOfPrefix(order, more, rows[k].to);
    }
  }

  predicate HasRow(rows: seq<Row>, a: Label, b: Label)
  {
    exists k :: 0 <= k < |rows| && rows[k].from == a && rows[k].to == b
  }

  lemma HasRowSnoc(rows: seq<Row>, a: Label, b: Label)
    requires |rows| > 0
    ensures var init, row := rows[..|rows| - 1], rows[|rows| - 1];
      HasRow(rows, a, b) <==> HasRow(init, a, b) || (row.from == a && row.to == b)
  {
    var init := rows[..|rows| - 1];
    if HasRow(init, a, b) {
      var k :| 0 <= k < |init| && init[k].from == a && init[k].to == b;
      assert rows[k] == init[k];
    }
    if HasRow(rows, a, b) {
      var k :| 0 <= k < |rows| && rows[k].from == a && rows[k].to == b;
      if k < |init| {
        assert init[k] == rows[k];
      }
    }
  }

  /** The table holds a value for (a, b) exactly when some row is (a, b, _). */
  lemma {:induction false} TableOfRows(rows: seq<Row>, a: Label, b: Label)
    ensures Lookup(TableOf(rows), a, b).Some? <==> HasRow(rows, a, b)
  {
    if |rows| > 0 {
      var init, last := rows[..|rows| - 1], rows[|rows| - 1];
      TableOfRows(init, a, b);
      PutLookup(TableOf(init), last.from, last.to, last.score, a, b);
      HasRowSnoc(rows, a, b);
    }
  }

  /** A repeated (from, to) row overwrites: the last one's score stays. */
  lemma {:induction false} LastRowWins(rows: seq<Row>, k: nat)
    requires k < |rows|
    requires forall j :: k < j < |rows| ==> rows[j].from != rows[k].from || rows[j].to != rows[k].to
    ensures Lookup(TableOf(rows), rows[k].from, rows[k].to) == Some(rows[k].score)
  {
    var init, last := rows[..|rows| - 1], rows[|rows| - 1];
    PutLookup(TableOf(init), last.from, last.to, last.score, rows[k].from, rows[k].to);
    if k < |rows| - 1 {
      assert init[k] == rows[k];
      assert forall j :: k < j < |init| ==> init[j] == rows[j];
      LastRowWins(init, k);
    }
  }

  // ---------------------------------------------------------------------
  // The pair-count check

  /** The sum of the inner tables' sizes, visiting the keys in any order. */
  ghost function Accepted(t: Table, keys: set<Label>): nat
    requires keys <= t.Keys
    decreases keys
  {
    if keys == {} then 0
    else
      NonEmptyHasMember(keys);
      var k :| k in keys;
      |t[k]| + Accepted(t, keys - {k})
  }

  /** The order the keys are visited in does not matter: any key can come
      first. */
  lemma {:induction false} AcceptedRemove(t: Table, keys: set<Label>, k: Label)
    requires keys <= t.Keys && k in keys
    ensures Accepted(t, keys) == |t[k]| + Accepted(t, keys - {k})
    decreases keys
  {
    NonEmptyHasMember(keys);
    var j :| j in keys && Accepted(t, keys) == |t[j]| + Accepted(t, keys - {j});
    if j != k {
      AcceptedRemove(t, keys - {j}, k);
      AcceptedRemove(t, keys - {k}, j);
      assert keys - {j} - {k} == keys - {k} - {j};
    }
  }

  /** Three rows over three names: "a a 10", "a b 5", "b c 1". */
  function SelfPairRows(): seq<Row>
  {
    [Row("a", "a", 10), Row("a", "b", 5), Row("b", "c", 1)]
  }

  /** Those rows pass the count check as written (three samples, three
      stored pairs), yet "a" is paired with itself, and that pair is the
      largest entry queued: the merge loop pops it first and merges the leaf
      "a" with itself. */
  lemma SelfPairPassesCount()
    ensures var rows := SelfPairRows();
      var t := TableOf(rows);
      CheckAsWritten(SetOf(OrderOf(rows)), t).None? && SelfPaired(t) &&
      Check(SetOf(OrderOf(rows)), t) == Some(SelfPair) &&
      |Queue(rows)| == 3 && Queue(rows)[0] == (10.0, HeapPair(0, 0)) &&
      forall k :: 0 <= k < |Queue(rows)| ==> Queue(rows)[k].0 <= 10.0
  {
    SelfPairCount();
    SelfPairQueue();
    var t := TableOf(SelfPairRows());
    assert "a" in t && "a" in t["a"];
  }

  lemma SelfPairCount()
    ensures |SetOf(OrderOf(SelfPairRows()))| == 3
    ensures Accepted(TableOf(SelfPairRows()), TableOf(SelfPairRows()).Keys) == 3
  {
    SelfPairOrder();
    var o := OrderOf(SelfPairRows());
    assert SetOf(o) == {"a", "b", "c"};
    SelfPairAccepted();
  }

  lemma SelfPairAccepted()
    ensures Accepted(TableOf(SelfPairRows()), TableOf(SelfPairRows()).Keys) == 3
  {
    SelfPairTable();
    var t := TableOf(SelfPairRows());
    AcceptedRemove(t, t.Keys, "a");
    assert t.Keys - {"a"} == {"b"};
    AcceptedRemove(t, {"b"}, "b");
    assert {"b"} - {"b"} == {};
  }

  lemma SelfPairQueue()
    ensures var q := Queue(SelfPairRows());
      |q| == 3 && q[0] == (10.0, HeapPair(0, 0)) && forall k :: 0 <= k < |q| ==> q[k].0 <= 10.0
  {
    var rows := SelfPairRows();
    SelfPairOrder();
    var o := OrderOf(rows);
    QueueIsRowEntries(rows);
    RowEntriesAt(rows, o);
    assert IndexOf(o, "a") == 0;
  }

  lemma SelfPairPrefixes()
    ensures SelfPairRows()[..2] == [Row("a", "a", 10), Row("a", "b", 5)]
    ensures SelfPairRows()[..2][..1] == [Row("a", "a", 10)]
    ensures SelfPairRows()[..2][..1][..0] == []
  {
  }

  lemma SelfPairOrder()
    ensures OrderOf(SelfPairRows()) == ["a", "b", "c"]
  {
    var rows := SelfPairRows();
    SelfPairPrefixes();
    assert OrderOf(rows[..2][..1]) == ["a"];
    assert OrderOf(rows[..2]) == ["a", "b"];
  }

  lemma SelfPairTable()
    ensures TableOf(SelfPairRows()) == map["a" := map["a" := 10, "b" := 5], "b" := map["c" := 1]]
  {
    var rows := SelfPairRows();
    SelfPairPrefixes();
    var t1 := TableOf(rows[..2][..1]);
    assert t1 == map["a" := map["a" := 10]];
    var t2 := TableOf(rows[..2]);
    assert t2 == Put(t1, "a", "b", 5);
    assert t2 == map["a" := map["a" := 10, "b" := 5]];
    assert TableOf(rows) == Put(t2, "b", "c", 1);
  }

  /** `(n * n - n) / 2`: the number of unordered pairs of n samples. */
  function Expected(n: nat): nat
  {
    (n * n - n) / 2
  }

  /** The check as written, on the two numbers it compares: the number of
      samples and the number of table entries. */
  function CountCheck(n: nat, accepted: nat): (r: Option<Error>)
    ensures r.None? <==> accepted == (n * n - n) / 2
    ensures r.Some? ==> r.value.CountMismatch? && r.value.accepted == accepted && r.value.samples == n
  {
    if Expected(n) != accepted then Some(CountMismatch(n, Expected(n), accepted)) else None
  }

  /** Some name is paired with itself. */
  predicate SelfPaired(t: Table)
  {
    exists a :: a in t && a in t[a]
  }

  /** `clustering`'s check on an ingest as written. */
  ghost function CheckAsWritten(samples: set<Label>, t: Table): Option<Error>
  {
    CountCheck(|samples|, Accepted(t, t.Keys))
  }

  /** The check the merge loop needs: the count, and no self pair. */
  ghost function Check(samples: set<Label>, t: Table): Option<Error>
  {
    if CheckAsWritten(samples, t).Some? then CheckAsWritten(samples, t)
    else if SelfPaired(t) then Some(SelfPair)
    else None
  }

  /** The `iter().map(len).reduce(+)` over the table: the entries of all
      inner tables, summed in any key order. */
  method CountPairs(t: Table) returns (accepted: nat)
    ensures accepted == Accepted(t, t.Keys)
  {
    accepted := 0;
    var keys := t.Keys;
    while keys != {}
      invariant keys <= t.Keys
      invariant accepted + Accepted(t, keys) == Accepted(t, t.Keys)
      decreases keys
    {
      var k :| k in keys;
      AcceptedRemove(t, keys, k);
      accepted := accepted + |t[k]|;
      keys := keys - {k};
    }
  }

  /** The corrected check, on the state the ingest loop leaves. */
  method CheckPairs(samples: set<Label>, table: Table) returns (err: Option<Error>)
    ensures err == Check(samples, table)
  {
    var accepted := CountPairs(table);
    err := CountCheck(|samples|, accepted);
    if err.None? && SelfPaired(table) {
      err := Some(SelfPair);
    }
  }

  /** A table without self pairs came from rows none of which pairs a name
      with itself, so every queued pair names two different handles. */
  lemma NoSelfPairEntries(rows: seq<Row>)
    requires !SelfPaired(TableOf(rows))
    ensures EntriesDistinct(multiset(RowEntries(rows, OrderOf(rows))))
  {
    var es := RowEntries(rows, OrderOf(rows));
    RowEntriesAt(rows, OrderOf(rows));
    forall e: (real, HeapPair) | e in multiset(es) ensures e.1.fromIndex != e.1.toIndex {
      var k :| 0 <= k < |es| && es[k] == e;
      TableOfRows(rows, rows[k].from, rows[k].to);
      assert HasRow(rows, rows[k].from, rows[k].to);
      assert rows[k].from != rows[k].to;
    }
  }

  // ---------------------------------------------------------------------
  // The ingest loop

  /** The four registration variables of the loop: `all_samples`,
      `index_node_dict`, `node_index_dict` and `node_index`. */
  datatype Registry = Registry(samples: set<Label>, ind: map<NodeIndex, Node>, nid: map<seq<Label>, NodeIndex>, next: nat)

  /** The registry holds exactly the names of `order`, handle i for the i-th. */
  ghost predicate Tracks(reg: Registry, order: seq<Label>)
  {
    reg.samples == SetOf(order) && reg.ind == IndOf(order) && reg.nid == NidOf(order) && reg.next == |order|
  }

  /** `if all_samples.insert(name) { ... }`: a new name gets the next handle
      in both maps and the counter moves on; a known name changes nothing. */
  function Enroll(reg: Registry, name: Label): Registry
  {
    if name in reg.samples then reg
    else Registry(reg.samples + {name}, reg.ind[reg.next := NewFromStr(name)], reg.nid[[name] := reg.next], reg.next + 1)
  }

  /** Enrolling follows `Register` on the name order. */
  lemma EnrollTracks(reg: Registry, order: seq<Label>, name: Label)
    requires Tracks(reg, order)
    ensures Tracks(Enroll(reg, name), Register(order, name))
    ensures name in Enroll(reg, name).samples && Enroll(reg, name).nid[[name]] == IndexOf(Register(order, name), name)
  {
    if name !in order {
      RegisterMaps(order, name);
      NewNameLast(order, name);
    }
  }

  /** Every registered name has its singleton registered. */
  ghost predicate Closed(reg: Registry)
  {
    forall s :: s in reg.samples ==> [s] in reg.nid
  }

  lemma EnrollClosed(reg: Registry, name: Label)
    requires Closed(reg)
    ensures Closed(Enroll(reg, name)) && name in Enroll(reg, name).samples
  {
  }

  /** The registry and table the loop holds after reading `rows`. */
  function Ingested(rows: seq<Row>): (r: (Registry, Table))
    ensures Closed(r.0)
  {
    if |rows| == 0 then (Registry({}, map[], map[], 0), map[])
    else
      var row := rows[|rows| - 1];
      var (reg, t) := Ingested(rows[..|rows| - 1]);
      EnrollClosed(reg, row.from);
      EnrollClosed(Enroll(reg, row.from), row.to);
      (Enroll(Enroll(reg, row.from), row.to), Put(t, row.from, row.to, row.score))
  }

  /** The heap entries the loop queues over `rows`: each row's score with
      the handles its two names have once the row is read. */
  function Queue(rows: seq<Row>): seq<(real, HeapPair)>
  {
    if |rows| == 0 then []
    else
      var row := rows[|rows| - 1];
      var reg := Ingested(rows).0;
      EnrollClosed(Ingested(rows[..|rows| - 1]).0, row.from);
      Queue(rows[..|rows| - 1]) + [(row.score as real, HeapPair(reg.nid[[row.from]], reg.nid[[row.to]]))]
  }

  /** The loop's registry is the one the name order determines, and its
      table is the table of the rows. */
  lemma {:induction false} IngestedTracks(rows: seq<Row>)
    ensures Tracks(Ingested(rows).0, OrderOf(rows)) && Ingested(rows).1 == TableOf(rows)
  {
    if |rows| > 0 {
      var init, row := rows[..|rows| - 1], rows[|rows| - 1];
      IngestedTracks(init);
      var reg := Ingested(init).0;
      var o := OrderOf(init);
      EnrollTracks(reg, o, row.from);
      EnrollTracks(Enroll(reg, row.from), Register(o, row.from), row.to);
    }
  }

  /** The queued entries are the rows' entries under the name order. */
  lemma {:induction false} QueueIsRowEntries(rows: seq<Row>)
    ensures Queue(rows) == RowEntries(rows, OrderOf(rows))
  {
    if |rows| > 0 {
      QueueIsRowEntries(rows[..|rows| - 1]);
      QueueStep(rows);
    }
  }

  lemma QueueStep(rows: seq<Row>)
    requires |rows| > 0
    requires var init := rows[..|rows| - 1]; Queue(init) == RowEntries(init, OrderOf(init))
    ensures Queue(rows) == RowEntries(rows, OrderOf(rows))
  {
    var init, row := rows[..|rows| - 1], rows[|rows| - 1];
    assert rows == init + [row];
    IngestedTracks(rows);
    EntriesStep(init, row);
  }

  /** A line that does not parse after lines that do decides the error. */
  lemma StopAtLine(done: seq<string>, line: string, later: seq<string>, score: string -> Option<int>, rows: seq<Row>)
    requires ParseLines(done, score) == Ok(rows) && ParseRow(line, score).Err?
    ensures ParseLines(done + [line] + later, score) == Err(ParseRow(line, score).error)
  {
    var ls := done + [line] + later;
    ParseLinesOk(done, score);
    assert forall j :: 0 <= j < |done| ==> ls[j] == done[j];
    assert ls[|done|] == line;
    FirstErrorWins(ls, score, |done|);
  }

  lemma ReadRowStep(done: seq<string>, line: string, score: string -> Option<int>, rows: seq<Row>, row: Row)
    requires ParseLines(done, score) == Ok(rows) && ParseRow(line, score) == Ok(row)
    ensures ParseLines(done + [line], score) == Ok(rows + [row])
  {
    assert (done + [line])[..|done|] == done;
  }

  /** One more row: the table gets its score, the name order may grow at
      its end, and the queued entries gain the row's. */
  lemma IngestRowStep(rows: seq<Row>, row: Row)
    ensures OrderOf(rows + [row]) == Register(Register(OrderOf(rows), row.from), row.to)
    ensures TableOf(rows + [row]) == Put(TableOf(rows), row.from, row.to, row.score)
  {
    assert (rows + [row])[..|rows|] == rows;
  }

  lemma EntriesStep(rows: seq<Row>, row: Row)
    ensures var o, o2 := OrderOf(rows), OrderOf(rows + [row]);
      RowEntries(rows + [row], o2) == RowEntries(rows, o) + [RowEntry(row, o2)]
  {
    var o, o2 := OrderOf(rows), OrderOf(rows + [row]);
    OrderGrows(rows, row);
    RowEntriesExtend(rows, o, o2[|o|..]);
    assert (rows + [row])[..|rows|] == rows;
  }

  /** One more row only appends to the name order. */
  lemma OrderGrows(rows: seq<Row>, row: Row)
    ensures var o, o2 := OrderOf(rows), OrderOf(rows + [row]);
      |o| <= |o2| && o2 == o + o2[|o|..]
  {
    IngestRowStep(rows, row);
    var o, o1 := OrderOf(rows), Register(OrderOf(rows), row.from);
    RegisterExtends(o, row.from);
    RegisterExtends(o1, row.to);
    assert o1 == o + o1[|o|..];
  }

  /** The registry after enrolling a row's two names. */
  lemma EnrollRow(reg: Registry, rows: seq<Row>, row: Row)
    requires Tracks(reg, OrderOf(rows))
    ensures var reg2, o2 := Enroll(Enroll(reg, row.from), row.to), OrderOf(rows + [row]);
      Tracks(reg2, o2) && reg2.nid[[row.from]] == IndexOf(o2, row.from) && reg2.nid[[row.to]] == IndexOf(o2, row.to)
  {
    IngestRowStep(rows, row);
    var o := OrderOf(rows);
    var o1 := Register(o, row.from);
    var o2 := Register(o1, row.to);
    EnrollTracks(reg, o, row.from);
    EnrollTracks(Enroll(reg, row.from), o1, row.to);
    RegisterExtends(o1, row.to);
    IndexOfPrefix(o1, o2[|o1|..], row.from);
  }

  /** One line split and checked, as the loop body does before it
      registers anything. */
  method ReadRow(line: string, score: string -> Option<int>) returns (r: Result<Row, Error>)
    ensures r == ParseRow(line, score)
  {
    var fields := SplitRow(line, DataSep);
    if |fields| != 3 {
      return Err(WrongFieldCount(|fields|));
    }
    var parsed := score(fields[2]);
    if parsed.None? {
      return Err(BadScore(fields[2]));
    }
    return Ok(Row(fields[0], fields[1], parsed.value));
  }

  /** The rest of the loop body for one parsed row: register its names,
      store its score and queue it with its two handles. */
  method Load(row: Row, reg: Registry, table: Table, heap: MaxHeap.Heap<HeapPair>, ghost rows: seq<Row>)
    returns (reg2: Registry, table2: Table)
    requires (reg, table) == Ingested(rows)
    requires heap.Valid() && multiset(heap.data) == multiset(Queue(rows))
    modifies heap
    ensures (reg2, table2) == Ingested(rows + [row])
    ensures heap.Valid() && multiset(heap.data) == multiset(Queue(rows + [row]))
  {
    assert (rows + [row])[..|rows|] == rows;
    reg2 := Enroll(Enroll(reg, row.from), row.to);
    if row.from in table {
      table2 := table[row.from := table[row.from][row.to := row.score]];
    } else {
      table2 := table[row.from := map[row.to := row.score]];
    }
    var fromIndex := reg2.nid[[row.from]];
    var toIndex := reg2.nid[[row.to]];
    heap.Insert(row.score as real, HeapPair(fromIndex, toIndex));
  }

  /** The loop body for one line: split and check it, then load the row. */
  method IngestLine(line: string, score: string -> Option<int>, reg: Registry, table: Table,
                    heap: MaxHeap.Heap<HeapPair>, ghost rows: seq<Row>)
    returns (r: Result<Row, Error>, reg2: Registry, table2: Table)
    requires (reg, table) == Ingested(rows)
    requires heap.Valid() && multiset(heap.data) == multiset(Queue(rows))
    modifies heap
    ensures r == ParseRow(line, score) && heap.Valid()
    ensures r.Ok? ==>
      (reg2, table2) == Ingested(rows + [r.value]) && multiset(heap.data) == multiset(Queue(rows + [r.value]))
  {
    r := ReadRow(line, score);
    reg2, table2 := reg, table;
    if r.Ok? {
      reg2, table2 := Load(r.value, reg, table, heap, rows);
    }
  }

  /** Cutting the next line off the unread input moves it to the lines read. */
  lemma NextLine(content: string, done: seq<string>, lines: string)
    requires |lines| > 0 && Tokens(content, RowSep) == done + Tokens(lines, RowSep)
    ensures Tokens(content, RowSep) == done + [Strtok(lines, RowSep).0] + Tokens(Strtok(lines, RowSep).1, RowSep)
  {
  }

  /** The loop of `clustering` over the lines of the input: each line split
      on tabs into from-name, to-name and score, new names registered
      with the next handle, the score stored and queued. It stops at the
      first malformed line. */
  method IngestContent(content: string, score: string -> Option<int>)
    returns (res: Result<(Registry, Table), Error>, heap: MaxHeap.Heap<HeapPair>)
    ensures fresh(heap) && heap.Valid()
    ensures var parsed := ParseLines(Tokens(content, RowSep), score);
      (parsed.Err? ==> res == Err(parsed.error)) &&
      (parsed.Ok? ==> res == Ok(Ingested(parsed.value)) && multiset(heap.data) == multiset(Queue(parsed.value)))
  {
    heap := new MaxHeap.Heap<HeapPair>();
    var reg := Registry({}, map[], map[], 0);
    var table: Table := map[];
    var lines := content;
    ghost var done: seq<string> := [];
    ghost var rows: seq<Row> := [];
    while |lines| > 0
      invariant Tokens(content, RowSep) == done + Tokens(lines, RowSep)
      invariant ParseLines(done, score) == Ok(rows)
      invariant (reg, table) == Ingested(rows)
      invariant heap.Valid() && multiset(heap.data) == multiset(Queue(rows))
      invariant fresh(heap)
      decreases |lines|
    {
      NextLine(content, done, lines);
      var line := Strtok(lines, RowSep).0;
      lines := Strtok(lines, RowSep).1;
      var r;
      r, reg, table := IngestLine(line, score, reg, table, heap, rows);
      if r.Err? {
        res := Err(r.error);
        StopAtLine(done, line, Tokens(lines, RowSep), score, rows);
        return;
      }
      ReadRowStep(done, line, score, rows, r.value);
      rows := rows + [r.value];
      done := done + [line];
    }
    assert Tokens(content, RowSep) == done by {
      assert Tokens(lines, RowSep) == [];
    }
    res := Ok((reg, table));
  }

  // ---------------------------------------------------------------------
  // The merge loop and the whole of `clustering`

  /** Every queued entry of the ingested rows names two handles of the
      arena ingest builds. */
  lemma RowEntriesInArena(rows: seq<Row>)
    ensures var o := OrderOf(rows);
      EntriesOk(NewState(IndOf(o), NidOf(o), SetOf(o)), multiset(RowEntries(rows, o)))
  {
    var o := OrderOf(rows);
    var es := RowEntries(rows, o);
    RowEntriesAt(rows, o);
    forall e: (real, HeapPair) | e in multiset(es) ensures e.1.fromIndex < |o| && e.1.toIndex < |o| {
      var k :| 0 <= k < |es| && es[k] == e;
    }
    var ind := IndOf(o);
    assert forall i: nat :: i < |o| ==> i in ind && |ind[i].data| == 1;
  }

  /** Taking an entry off the queue keeps the facts about the rest. */
  lemma PopKeepsEntries(st: ArenaState, m: multiset<(real, HeapPair)>, e: (real, HeapPair))
    requires EntriesOk(st, m) && EntriesDistinct(m) && e in m
    ensures EntriesOk(st, m - multiset{e}) && EntriesDistinct(m - multiset{e})
    ensures e.1.fromIndex in st.ind && e.1.toIndex in st.ind && e.1.fromIndex != e.1.toIndex
  {
  }

  /** What the merge loop keeps: the arena invariant, duplicate-free
      clusters, and queued pairs of two different existing handles. */
  ghost predicate Ready(st: ArenaState, m: multiset<(real, HeapPair)>)
  {
    Valid(st) && DistinctMembers(st) && EntriesOk(st, m) && EntriesDistinct(m)
  }

  /** One round of the merge loop: pop the closest pair and update the tree
      with it. `more` is false, and nothing changes, when the heap is
      empty. */
  method MergeStep(tree: BinaryTree.BinaryT, heap: MaxHeap.Heap<HeapPair>, table: Table)
    returns (more: bool, ghost e: (real, HeapPair))
    requires Ready(tree.State(), multiset(heap.data)) && heap.Valid()
    modifies tree, heap
    ensures Ready(tree.State(), multiset(heap.data)) && heap.Valid()
    ensures tree.allSamples == old(tree.allSamples)
    ensures more <==> old(heap.data) != []
    ensures !more ==> heap.data == [] && tree.State() == old(tree.State())
    ensures more ==>
      e in old(multiset(heap.data)) && (forall x :: x in old(multiset(heap.data)) ==> x.0 <= e.0) &&
      e.1.fromIndex in old(tree.ind) && e.1.toIndex in old(tree.ind) &&
      tree.State() == UpdateArena(old(tree.State()), e.1.fromIndex, e.1.toIndex) &&
      multiset(heap.data) ==
        old(multiset(heap.data)) - multiset{e} + UpdatePushed(old(tree.State()), e.1.fromIndex, e.1.toIndex, table)
    ensures more ==>
      Progress(tree.State()) < old(Progress(tree.State())) ||
      (Progress(tree.State()) == old(Progress(tree.State())) && |heap.data| < old(|heap.data|))
  {
    ghost var st := tree.State();
    ghost var m := multiset(heap.data);
    var popped := heap.PopMax();
    e := (0.0, HeapPair(0, 0));
    if popped.None? {
      return false, e;
    }
    more := true;
    var pair := popped.value;
    e := pair;
    PopKeepsEntries(st, m, e);
    var li, ri := pair.1.fromIndex, pair.1.toIndex;
    tree.Updating(li, ri, heap, table);
    UpdateKeepsEntriesOk(st, li, ri, table, m - multiset{e});
    UpdateKeepsEntriesDistinct(st, li, ri, table, m - multiset{e});
    UpdateKeepsDistinct(st, li, ri);
    if !Stale(st, li, ri) {
      UpdateProgress(st, li, ri);
    }
  }

  /** One round as the loop sees it: `e` is a largest entry of `m` naming
      two stored handles, the arena moves to `updating` of it, and the heap
      loses `e` and gains what `updating` pushes. */
  ghost predicate Round(st: ArenaState, m: multiset<(real, HeapPair)>, e: (real, HeapPair),
                        st2: ArenaState, m2: multiset<(real, HeapPair)>, t: Table)
  {
    RegistryInverse(st) && e in m && (forall x :: x in m ==> x.0 <= e.0) &&
    e.1.fromIndex in st.ind && e.1.toIndex in st.ind &&
    st2 == UpdateArena(st, e.1.fromIndex, e.1.toIndex) &&
    m2 == m - multiset{e} + UpdatePushed(st, e.1.fromIndex, e.1.toIndex, t)
  }

  /** A run of the merge loop: the arena states and heap contents before
      and after each popped entry, every round taken while no root is set. */
  ghost predicate Run(states: seq<ArenaState>, heaps: seq<multiset<(real, HeapPair)>>,
                      trace: seq<(real, HeapPair)>, t: Table)
  {
    |states| == |trace| + 1 && |heaps| == |trace| + 1 &&
    forall k :: 0 <= k < |trace| ==>
      states[k].root.None? && Round(states[k], heaps[k], trace[k], states[k + 1], heaps[k + 1], t)
  }

  /** A run extends by one round from its last state. */
  lemma RunExtend(states: seq<ArenaState>, heaps: seq<multiset<(real, HeapPair)>>,
                  trace: seq<(real, HeapPair)>, t: Table,
                  e: (real, HeapPair), st2: ArenaState, m2: multiset<(real, HeapPair)>)
    requires Run(states, heaps, trace, t)
    requires states[|trace|].root.None? && Round(states[|trace|], heaps[|trace|], e, st2, m2, t)
    ensures Run(states + [st2], heaps + [m2], trace + [e], t)
  {
    var s2, h2, tr2 := states + [st2], heaps + [m2], trace + [e];
    forall k | 0 <= k < |tr2|
      ensures s2[k].root.None? && Round(s2[k], h2[k], tr2[k], s2[k + 1], h2[k + 1], t)
    {
      if k < |trace| {
        assert s2[k] == states[k] && s2[k + 1] == states[k + 1];
        assert h2[k] == heaps[k] && h2[k + 1] == heaps[k + 1] && tr2[k] == trace[k];
      }
    }
  }

  /** A round's outcome is a function of where it starts and what it pops. */
  lemma RoundDetermined(st: ArenaState, m: multiset<(real, HeapPair)>, e: (real, HeapPair),
                        a: ArenaState, am: multiset<(real, HeapPair)>,
                        b: ArenaState, bm: multiset<(real, HeapPair)>, t: Table)
    requires Round(st, m, e, a, am, t) && Round(st, m, e, b, bm, t)
    ensures a == b && am == bm
  {
  }

  /** Two runs from the same start over the same popped entries agree at
      every step up to `k`. */
  lemma {:induction false} RunAgrees(s1: seq<ArenaState>, h1: seq<multiset<(real, HeapPair)>>,
                                     s2: seq<ArenaState>, h2: seq<multiset<(real, HeapPair)>>,
                                     trace: seq<(real, HeapPair)>, t: Table, k: nat)
    requires Run(s1, h1, trace, t) && Run(s2, h2, trace, t)
    requires s1[0] == s2[0] && h1[0] == h2[0] && k <= |trace|
    ensures s1[k] == s2[k] && h1[k] == h2[k]
    decreases k
  {
    if k > 0 {
      RunAgrees(s1, h1, s2, h2, trace, t, k - 1);
      RoundDetermined(s1[k - 1], h1[k - 1], trace[k - 1], s1[k], h1[k], s2[k], h2[k], t);
    }
  }

  /** The popped entries fix the run: from the same start, the same entries
      give the same arena states and heap contents. */
  lemma RunDetermined(s1: seq<ArenaState>, h1: seq<multiset<(real, HeapPair)>>,
                      s2: seq<ArenaState>, h2: seq<multiset<(real, HeapPair)>>,
                      trace: seq<(real, HeapPair)>, t: Table)
    requires Run(s1, h1, trace, t) && Run(s2, h2, trace, t)
    requires s1[0] == s2[0] && h1[0] == h2[0]
    ensures s1 == s2 && h1 == h2
  {
    forall k | 0 <= k <= |trace| ensures s1[k] == s2[k] && h1[k] == h2[k] {
      RunAgrees(s1, h1, s2, h2, trace, t, k);
    }
  }

  /** The merge loop: rounds until the root is set. It stops with `false`
      where the source's `unwrap` of an empty heap panics. The ghost results
      record the run: the states, the heap contents and the popped entries. */
  method MergeAll(tree: BinaryTree.BinaryT, heap: MaxHeap.Heap<HeapPair>, table: Table)
    returns (found: bool, ghost states: seq<ArenaState>, ghost heaps: seq<multiset<(real, HeapPair)>>,
             ghost trace: seq<(real, HeapPair)>)
    requires Ready(tree.State(), multiset(heap.data)) && heap.Valid()
    modifies tree, heap
    ensures Ready(tree.State(), multiset(heap.data)) && heap.Valid()
    ensures tree.allSamples == old(tree.allSamples)
    ensures found <==> tree.root.Some?
    ensures !found ==> heap.data == []
    ensures Run(states, heaps, trace, table)
    ensures states[0] == old(tree.State()) && heaps[0] == old(multiset(heap.data))
    ensures states[|trace|] == tree.State() && heaps[|trace|] == multiset(heap.data)
  {
    states, heaps, trace := [tree.State()], [multiset(heap.data)], [];
    while tree.root.None?
      invariant Ready(tree.State(), multiset(heap.data)) && heap.Valid()
      invariant tree.allSamples == old(tree.allSamples)
      invariant Run(states, heaps, trace, table)
      invariant states[0] == old(tree.State()) && heaps[0] == old(multiset(heap.data))
      invariant states[|trace|] == tree.State() && heaps[|trace|] == multiset(heap.data)
      decreases Progress(tree.State()), |heap.data|
    {
      ghost var st, m := tree.State(), multiset(heap.data);
      var more, e := MergeStep(tree, heap, table);
      if !more {
        return false, states, heaps, trace;
      }
      RunExtend(states, heaps, trace, table, e, tree.State(), multiset(heap.data));
      states, heaps, trace := states + [tree.State()], heaps + [multiset(heap.data)], trace + [e];
    }
    found := true;
  }

  /** The arena and queue ingest builds from rows with no self-pair are
      ready for the merge loop, and its samples are the names mentioned. */
  lemma StartReady(rows: seq<Row>)
    requires !SelfPaired(TableOf(rows))
    ensures var reg := Ingested(rows).0;
      Initial(reg.ind, reg.nid, reg.samples) &&
      Ready(NewState(reg.ind, reg.nid, reg.samples), multiset(Queue(rows))) &&
      forall s :: s in reg.samples <==> Mentioned(rows, s)
  {
    var reg := Ingested(rows).0;
    var o := OrderOf(rows);
    IngestedTracks(rows);
    OrderNoDup(rows);
    OrderInitial(o);
    InitialValid(reg.ind, reg.nid, reg.samples);
    InitialDistinct(reg.ind, reg.nid, reg.samples);
    QueueIsRowEntries(rows);
    RowEntriesInArena(rows);
    NoSelfPairEntries(rows);
    forall s ensures s in reg.samples <==> Mentioned(rows, s) {
      IngestNames(rows, s);
    }
  }

  /** Once the root is set, the tree below it has each sample as a leaf
      exactly once, and with plain names its text reads back as that tree. */
  lemma FinishedTree(st: ArenaState)
    requires Valid(st) && DistinctMembers(st) && st.root.Some?
    ensures Newick.TreeShaped(st.ind) && st.root.value in st.ind
    ensures var t := Newick.TreeOf(st.ind, st.root.value);
      NoDup(Newick.Labels(t)) && (forall s :: s in Newick.Labels(t) <==> s in st.allSamples) &&
      ((forall s :: s in st.allSamples ==> Newick.Plain(s)) ==>
        Newick.ReadNewick(Newick.NewickText(st.ind, st.root.value)) == Some(t))
  {
    RootHoldsEverySample(st);
    Newick.ArenaTreeShaped(st);
    Newick.TreeOfLabels(st.ind, st.root.value);
    if forall s :: s in st.allSamples ==> Newick.Plain(s) {
      Newick.NewickDecodes(st.ind, st.root.value);
    }
  }

  /** `clustering`: read the rows, check the pair count, merge until the
      root is found and write the tree. The result is the tree's text; its
      leaves are the samples named in the rows, each once, and with names
      free of Newick punctuation the text reads back as the tree. */
  method Clustering(content: string, score: string -> Option<int>)
    returns (r: Result<string, Error>, ghost t: Newick.Tree, ghost states: seq<ArenaState>,
             ghost heaps: seq<multiset<(real, HeapPair)>>, ghost trace: seq<(real, HeapPair)>)
    ensures var parsed := ParseLines(Tokens(content, RowSep), score);
      (parsed.Err? ==> r == Err(parsed.error)) &&
      (parsed.Ok? ==>
        var rows := parsed.value;
        var checked := Check(SetOf(OrderOf(rows)), TableOf(rows));
        (checked.Some? ==> r == Err(checked.value)) &&
        (checked.None? ==> r.Ok? || r == Err(HeapExhausted)) &&
        (checked.None? ==>
          var reg := Ingested(rows).0;
          Run(states, heaps, trace, TableOf(rows)) &&
          states[0] == NewState(reg.ind, reg.nid, reg.samples) && heaps[0] == multiset(Queue(rows)) &&
          var last := states[|trace|];
          (r.Ok? <==> last.root.Some?) && (r.Err? ==> heaps[|trace|] == multiset{}) &&
          (r.Ok? ==>
            Newick.TreeShaped(last.ind) && last.root.value in last.ind &&
            t == Newick.TreeOf(last.ind, last.root.value) &&
            r.value == Newick.NewickText(last.ind, last.root.value))) &&
        (r.Ok? ==>
          r.value == Newick.Print(t) + ";" && NoDup(Newick.Labels(t)) &&
          (forall s :: s in Newick.Labels(t) <==> Mentioned(rows, s)) &&
          ((forall s :: Mentioned(rows, s) ==> Newick.Plain(s)) ==> Newick.ReadNewick(r.value) == Some(t))))
  {
    t := Newick.Leaf("");
    states, heaps, trace := [], [], [];
    var ingested, heap := IngestContent(content, score);
    if ingested.Err? {
      return Err(ingested.error), t, states, heaps, trace;
    }
    ghost var rows := ParseLines(Tokens(content, RowSep), score).value;
    var (reg, table) := ingested.value;
    IngestedTracks(rows);
    var err := CheckPairs(reg.samples, table);
    if err.Some? {
      return Err(err.value), t, states, heaps, trace;
    }
    StartReady(rows);
    var tree := new BinaryTree.BinaryT(reg.ind, reg.nid, reg.samples);
    var found;
    found, states, heaps, trace := MergeAll(tree, heap, table);
    if !found {
      return Err(HeapExhausted), t, states, heaps, trace;
    }
    FinishedTree(tree.State());
    t := Newick.TreeOf(tree.ind, tree.root.value);
    r := Ok(Newick.NewickText(tree.ind, tree.root.value));
  }
}
