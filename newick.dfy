/** Writing the finished tree as Newick text: `to_newick` of
    src/BinaryTree/BinaryTree.rs as written (a breadth-first walk that
    rewrites the text by substring replacement), and a structural writer
    with a reader that decodes it. */
module Newick {
  import opened Util
  import opened Nodes
  import opened Text
  import Arena

  /** Every node is non-empty and a node with two or more members is the
      concatenation of two stored children. */
  ghost predicate TreeShaped(ind: map<NodeIndex, Node>)
  {
    forall i :: i in ind ==> |ind[i].data| >= 1 && (|ind[i].data| >= 2 ==> Split(ind, i))
  }

  ghost predicate Split(ind: map<NodeIndex, Node>, i: NodeIndex)
    requires i in ind
  {
    var n := ind[i];
    n.left.Some? && n.right.Some? && n.left.value in ind && n.right.value in ind &&
    n.data == ind[n.left.value].data + ind[n.right.value].data
  }

  /** The arena invariant gives the tree shape. */
  lemma ArenaTreeShaped(st: Arena.ArenaState)
    requires Arena.MembersWellFormed(st) && Arena.ChildrenWellFormed(st)
    ensures TreeShaped(st.ind)
  {
    forall i | i in st.ind ensures |st.ind[i].data| >= 1 && (|st.ind[i].data| >= 2 ==> Split(st.ind, i)) {
      if |st.ind[i].data| >= 2 {
        assert Arena.ChildrenOk(st, i);
      }
    }
  }

  ghost predicate AllIn(ind: map<NodeIndex, Node>, q: seq<NodeIndex>)
  {
    forall k :: 0 <= k < |q| ==> q[k] in ind
  }

  /** Twice the members less one, summed over the work queue: expanding a
      node replaces its weight by its children's, which is one less. */
  ghost function Weight(ind: map<NodeIndex, Node>, q: seq<NodeIndex>): nat
    requires TreeShaped(ind) && AllIn(ind, q)
  {
    if |q| == 0 then 0 else 2 * |ind[q[0]].data| - 1 + Weight(ind, q[1..])
  }

  lemma {:induction false} WeightAppend(ind: map<NodeIndex, Node>, a: seq<NodeIndex>, b: seq<NodeIndex>)
    requires TreeShaped(ind) && AllIn(ind, a) && AllIn(ind, b)
    ensures AllIn(ind, a + b) && Weight(ind, a + b) == Weight(ind, a) + Weight(ind, b)
    decreases |a|
  {
    if |a| > 0 {
      assert (a + b)[1..] == a[1..] + b;
      WeightAppend(ind, a[1..], b);
    } else {
      assert a + b == b;
    }
  }

  lemma ExpandDecreases(ind: map<NodeIndex, Node>, q: seq<NodeIndex>)
    requires TreeShaped(ind) && AllIn(ind, q) && |q| > 0 && |ind[q[0]].data| >= 2
    ensures var n := ind[q[0]];
      AllIn(ind, q[1..] + [n.left.value, n.right.value]) &&
      Weight(ind, q[1..] + [n.left.value, n.right.value]) < Weight(ind, q)
  {
    var n := ind[q[0]];
    var kids := [n.left.value, n.right.value];
    assert Split(ind, q[0]);
    WeightAppend(ind, q[1..], kids);
    assert kids == [n.left.value] + [n.right.value];
    WeightAppend(ind, [n.left.value], [n.right.value]);
    WeightSingle(ind, n.left.value);
    WeightSingle(ind, n.right.value);
  }

  lemma WeightSingle(ind: map<NodeIndex, Node>, i: NodeIndex)
    requires TreeShaped(ind) && i in ind
    ensures AllIn(ind, [i]) && Weight(ind, [i]) == 2 * |ind[i].data| - 1
  {
    assert [i][1..] == [];
  }

  /** The text `to_newick` builds from work queue `q` and text `out`: a
      singleton is skipped; a larger node queues its two children, and its
      members joined with commas either start the text as "(...);" or have
      every occurrence in the text wrapped in parentheses. */
  function BfsText(ind: map<NodeIndex, Node>, q: seq<NodeIndex>, out: string): string
    requires TreeShaped(ind) && AllIn(ind, q)
    decreases Weight(ind, q)
  {
    if |q| == 0 then out
    else
      var n := ind[q[0]];
      if |n.data| < 2 then BfsText(ind, q[1..], out)
      else
        var cur := Join(n.data, ",");
        var next := if |out| == 0 then "(" + cur + ");" else ReplaceAll(out, cur, "(" + cur + ")");
        ExpandDecreases(ind, q);
        BfsText(ind, q[1..] + [n.left.value, n.right.value], next)
  }

  /** Once the text is started, later expansions only add parentheses. */
  lemma {:induction false} BfsKeepsStripped(ind: map<NodeIndex, Node>, q: seq<NodeIndex>, out: string)
    requires TreeShaped(ind) && AllIn(ind, q) && |out| > 0
    ensures Strip(BfsText(ind, q, out)) == Strip(out)
    decreases Weight(ind, q)
  {
    if |q| > 0 {
      var n := ind[q[0]];
      if |n.data| < 2 {
        BfsKeepsStripped(ind, q[1..], out);
      } else {
        var cur := Join(n.data, ",");
        var next := ReplaceAll(out, cur, "(" + cur + ")");
        WrapKeepsStripped(out, cur);
        ExpandDecreases(ind, q);
        BfsKeepsStripped(ind, q[1..] + [n.left.value, n.right.value], next);
      }
    }
  }

  /** What `to_newick` yields from the root: nothing for a singleton root,
      and otherwise text that, with its parentheses deleted, is the root's
      members joined with commas followed by ";". */
  lemma BfsRootText(ind: map<NodeIndex, Node>, r: NodeIndex)
    requires TreeShaped(ind) && r in ind
    ensures |ind[r].data| < 2 ==> BfsText(ind, [r], "") == ""
    ensures |ind[r].data| >= 2 ==>
      Strip(BfsText(ind, [r], "")) == Strip(Join(ind[r].data, ",")) + ";"
  {
    var n := ind[r];
    assert AllIn(ind, [r]);
    if |n.data| >= 2 {
      var cur := Join(n.data, ",");
      var first := "(" + cur + ");";
      ExpandDecreases(ind, [r]);
      assert [r][1..] == [];
      BfsKeepsStripped(ind, [] + [n.left.value, n.right.value], first);
      assert first == "(" + (cur + ");");
      StripConcat("(", cur + ");");
      StripConcat(cur, ");");
      assert Strip(");") == ";";
    } else {
      assert [r][1..] == [];
    }
  }

  // ---------------------------------------------------------------------
  // Labels and the structural writer

  /** A label Newick can carry: no parenthesis, comma or semicolon. */
  predicate Plain(s: string)
  {
    forall k :: 0 <= k < |s| ==> s[k] != '(' && s[k] != ')' && s[k] != ',' && s[k] != ';'
  }

  lemma {:induction false} JoinNoParens(xs: seq<string>)
    requires forall k :: 0 <= k < |xs| ==> NoParens(xs[k])
    ensures NoParens(Join(xs, ","))
    decreases |xs|
  {
    if |xs| >= 2 {
      JoinNoParens(xs[1..]);
      assert NoParens(xs[0]);
    } else if |xs| == 1 {
      assert NoParens(xs[0]);
    }
  }

  /** For labels without parentheses, `to_newick` with its parentheses
      deleted is exactly the root's members joined with commas followed by
      ";". */
  lemma BfsRootMembers(ind: map<NodeIndex, Node>, r: NodeIndex)
    requires TreeShaped(ind) && r in ind && |ind[r].data| >= 2
    requires forall k :: 0 <= k < |ind[r].data| ==> NoParens(ind[r].data[k])
    ensures Strip(BfsText(ind, [r], "")) == Join(ind[r].data, ",") + ";"
  {
    BfsRootText(ind, r);
    JoinNoParens(ind[r].data);
    StripNoParens(Join(ind[r].data, ","));
  }

  /** The shape a merge history gives: a binary tree with labelled leaves. */
  datatype Tree = Leaf(name: Label) | Inner(left: Tree, right: Tree)

  /** The tree below handle `i`. */
  function TreeOf(ind: map<NodeIndex, Node>, i: NodeIndex): Tree
    requires TreeShaped(ind) && i in ind
    decreases |ind[i].data|
  {
    var n := ind[i];
    if |n.data| < 2 then Leaf(n.data[0])
    else
      assert Split(ind, i);
      Inner(TreeOf(ind, n.left.value), TreeOf(ind, n.right.value))
  }

  function Labels(t: Tree): seq<Label>
  {
    match t
    case Leaf(x) => [x]
    case Inner(l, r) => Labels(l) + Labels(r)
  }

  /** The tree below a node has exactly its members as leaves, in order. */
  lemma {:induction false} TreeOfLabels(ind: map<NodeIndex, Node>, i: NodeIndex)
    requires TreeShaped(ind) && i in ind
    ensures Labels(TreeOf(ind, i)) == ind[i].data
    decreases |ind[i].data|
  {
    var n := ind[i];
    if |n.data| < 2 {
      assert n.data == [n.data[0]];
    } else {
      assert Split(ind, i);
      TreeOfLabels(ind, n.left.value);
      TreeOfLabels(ind, n.right.value);
    }
  }

  /** Newick text of a tree: a leaf is its label, an inner node the
      bracketed pair of its subtrees. */
  function Print(t: Tree): string
  {
    match t
    case Leaf(x) => x
    case Inner(l, r) => "(" + Print(l) + "," + Print(r) + ")"
  }

  /** The Newick text of the whole tree. */
  function NewickText(ind: map<NodeIndex, Node>, r: NodeIndex): string
    requires TreeShaped(ind) && r in ind
  {
    Print(TreeOf(ind, r)) + ";"
  }

  // ---------------------------------------------------------------------
  // Reading Newick text back

  predicate Stop(c: char)
  {
    c == '(' || c == ')' || c == ',' || c == ';'
  }

  /** The length of the label at the start of `s`. */
  function LabelLength(s: string): (n: nat)
    ensures n <= |s|
    ensures forall k :: 0 <= k < n ==> !Stop(s[k])
    ensures n < |s| ==> Stop(s[n])
  {
    if |s| == 0 || Stop(s[0]) then 0 else 1 + LabelLength(s[1..])
  }

  lemma {:induction false} LabelLengthOfPlain(x: string, rest: string)
    requires Plain(x) && (|rest| == 0 || Stop(rest[0]))
    ensures LabelLength(x + rest) == |x|
    decreases |x|
  {
    if |x| > 0 {
      assert (x + rest)[1..] == x[1..] + rest;
      LabelLengthOfPlain(x[1..], rest);
    } else {
      assert x + rest == rest;
    }
  }

  /** Reads one tree from the front of `s`, returning it and what follows. */
  function ReadTree(s: string): (r: Option<(Tree, string)>)
    ensures r.Some? ==> |r.value.1| <= |s|
    decreases |s|
  {
    if |s| > 0 && s[0] == '(' then
      var first := ReadTree(s[1..]);
      if first.None? then None
      else
        var r1 := first.value.1;
        if |r1| == 0 || r1[0] != ',' then None
        else
          var second := ReadTree(r1[1..]);
          if second.None? then None
          else
            var r2 := second.value.1;
            if |r2| == 0 || r2[0] != ')' then None
            else Some((Inner(first.value.0, second.value.0), r2[1..]))
    else
      var n := LabelLength(s);
      Some((Leaf(s[..n]), s[n..]))
  }

  /** Reads a whole Newick text: one tree and then ";". */
  function ReadNewick(s: string): Option<Tree>
  {
    match ReadTree(s)
    case Some((t, rest)) => if rest == ";" then Some(t) else None
    case None => None
  }

  predicate AllPlain(t: Tree)
  {
    match t
    case Leaf(x) => Plain(x)
    case Inner(l, r) => AllPlain(l) && AllPlain(r)
  }

  /** Reading back what `Print` wrote gives the tree and leaves the rest. */
  lemma {:induction false} ReadPrint(t: Tree, rest: string)
    requires AllPlain(t) && (|rest| == 0 || rest[0] == ',' || rest[0] == ')' || rest[0] == ';')
    ensures ReadTree(Print(t) + rest) == Some((t, rest))
  {
    match t
    case Leaf(x) =>
      ReadLeaf(x, rest);
    case Inner(l, r) =>
      var tail2 := ")" + rest;
      var tail := "," + Print(r) + tail2;
      ReadPrint(l, tail);
      ReadPrint(r, tail2);
      ReadInner(Print(l), Print(r), l, r, rest);
      assert Print(t) + rest == "(" + Print(l) + "," + Print(r) + ")" + rest;
  }

  lemma ReadLeaf(x: string, rest: string)
    requires Plain(x) && (|rest| == 0 || Stop(rest[0]))
    requires |x| == 0 ==> |rest| == 0 || rest[0] != '('
    ensures ReadTree(x + rest) == Some((Leaf(x), rest))
  {
    LabelLengthOfPlain(x, rest);
    var s := x + rest;
    if |x| > 0 {
      assert s[0] == x[0];
    }
    assert s[..|x|] == x && s[|x|..] == rest;
  }

  lemma ReadInner(pl: string, pr: string, l: Tree, r: Tree, rest: string)
    requires ReadTree(pl + ("," + pr + (")" + rest))) == Some((l, "," + pr + (")" + rest)))
    requires ReadTree(pr + (")" + rest)) == Some((r, ")" + rest))
    ensures ReadTree("(" + pl + "," + pr + ")" + rest) == Some((Inner(l, r), rest))
  {
    InnerPieces(pl, pr, rest);
    ReadOpen("(" + pl + "," + pr + ")" + rest, l, "," + pr + (")" + rest), r, ")" + rest);
  }

  lemma InnerPieces(pl: string, pr: string, rest: string)
    ensures var s := "(" + pl + "," + pr + ")" + rest;
      var tail := "," + pr + (")" + rest);
      |s| > 0 && s[0] == '(' && s[1..] == pl + tail &&
      tail[0] == ',' && tail[1..] == pr + (")" + rest) &&
      (")" + rest)[0] == ')' && (")" + rest)[1..] == rest
  {
    var tail2 := ")" + rest;
    var tail := "," + pr + tail2;
    var s := "(" + (pl + tail);
    assert s == "(" + pl + "," + pr + ")" + rest;
    assert tail == "," + (pr + tail2);
  }

  /** One bracketed pair read from the front of `s`. */
  lemma ReadOpen(s: string, l: Tree, tail: string, r: Tree, tail2: string)
    requires |s| > 0 && s[0] == '(' && ReadTree(s[1..]) == Some((l, tail))
    requires |tail| > 0 && tail[0] == ',' && ReadTree(tail[1..]) == Some((r, tail2))
    requires |tail2| > 0 && tail2[0] == ')'
    ensures ReadTree(s) == Some((Inner(l, r), tail2[1..]))
  {
  }

  /** Every leaf label of the tree below a node is one of its members. */
  lemma {:induction false} TreeOfPlain(ind: map<NodeIndex, Node>, i: NodeIndex)
    requires TreeShaped(ind) && i in ind
    requires forall j, k :: j in ind && 0 <= k < |ind[j].data| ==> Plain(ind[j].data[k])
    ensures AllPlain(TreeOf(ind, i))
    decreases |ind[i].data|
  {
    var n := ind[i];
    if |n.data| >= 2 {
      assert Split(ind, i);
      TreeOfPlain(ind, n.left.value);
      TreeOfPlain(ind, n.right.value);
    }
  }

  /** The structural text decodes to exactly the tree below the root, and its
      leaves are the root's members in order. */
  lemma NewickDecodes(ind: map<NodeIndex, Node>, r: NodeIndex)
    requires TreeShaped(ind) && r in ind
    requires forall j, k :: j in ind && 0 <= k < |ind[j].data| ==> Plain(ind[j].data[k])
    ensures ReadNewick(NewickText(ind, r)) == Some(TreeOf(ind, r))
    ensures Labels(TreeOf(ind, r)) == ind[r].data
  {
    TreeOfPlain(ind, r);
    ReadPrint(TreeOf(ind, r), ";");
    TreeOfLabels(ind, r);
  }

  // ---------------------------------------------------------------------
  // The replacement can rewrite the wrong occurrence

  /** The arena left by merging leaves x with y, then zx with yz, then the
      two pairs: handles 0..3 are the leaves and 5, 6, 7 the merges. */
  function ScrambleArena(): map<NodeIndex, Node>
  {
    map[0 := Node(["x"], Some(5), None, None),
        1 := Node(["y"], Some(5), None, None),
        2 := Node(["zx"], Some(6), None, None),
        3 := Node(["yz"], Some(6), None, None),
        5 := Node(["x", "y"], Some(7), Some(0), Some(1)),
        6 := Node(["zx", "yz"], Some(7), Some(2), Some(3)),
        7 := Node(["x", "y", "zx", "yz"], None, Some(5), Some(6))]
  }

  lemma ScrambleShaped()
    ensures TreeShaped(ScrambleArena())
    ensures forall j, k :: j in ScrambleArena() && 0 <= k < |ScrambleArena()[j].data| ==> Plain(ScrambleArena()[j].data[k])
  {
    var ind := ScrambleArena();
    forall i | i in ind ensures |ind[i].data| >= 1 && (|ind[i].data| >= 2 ==> Split(ind, i)) {
      assert i in {0, 1, 2, 3, 5, 6, 7};
    }
    forall j, k | j in ind && 0 <= k < |ind[j].data| ensures Plain(ind[j].data[k]) {
      assert j in {0, 1, 2, 3, 5, 6, 7};
    }
  }

  /** The first text, from the root, and what wrapping "x,y" makes of it. */
  lemma ScrambleFirstWrap(out: string, p: string)
    requires out == "(x,y,zx,yz);" && p == "x,y"
    ensures ReplaceAll(out, p, "(" + p + ")") == "((x,y),z(x,y)z);"
  {
    var w := "(" + p + ")";
    var end := ");";
    var s5 := "z" + end;
    var s4 := p + s5;
    var s3 := "z" + s4;
    var s2 := "," + s3;
    var s1 := p + s2;
    assert out == "(" + s1;
    calc {
      ReplaceAll(out, p, w);
    == { ReplaceMiss('(', s1, p, w); }
      "(" + ReplaceAll(s1, p, w);
    == { ReplaceHit(p, s2, w); }
      "(" + (w + ReplaceAll(s2, p, w));
    == { ReplaceMiss(',', s3, p, w); }
      "(" + (w + ("," + ReplaceAll(s3, p, w)));
    == { ReplaceMiss('z', s4, p, w); }
      "(" + (w + ("," + ("z" + ReplaceAll(s4, p, w))));
    == { ReplaceHit(p, s5, w); }
      "(" + (w + ("," + ("z" + (w + ReplaceAll(s5, p, w)))));
    == { ReplaceMiss('z', end, p, w); }
      "(" + (w + ("," + ("z" + (w + ("z" + ReplaceAll(end, p, w))))));
    == { assert ReplaceAll(end, p, w) == end; }
      "(" + (w + ("," + ("z" + (w + ("z" + end)))));
    == { assert w == "(x,y)"; }
      "((x,y),z(x,y)z);";
    }
  }

  /** "zx,yz" no longer occurs, so the second wrap changes nothing. */
  lemma ScrambleSecondWrap(out: string, p: string)
    requires out == "((x,y),z(x,y)z);" && p == "zx,yz"
    ensures ReplaceAll(out, p, "(" + p + ")") == out
  {
    var w := "(" + p + ")";
    var a, b, end := "((x,y),", "(x,y)", "z);";
    var s2 := b + end;
    var s1 := "z" + s2;
    assert out == a + s1;
    calc {
      ReplaceAll(out, p, w);
    == { ReplaceSkip(a, s1, p, w); }
      a + ReplaceAll(s1, p, w);
    == { ReplaceMiss('z', s2, p, w); }
      a + ("z" + ReplaceAll(s2, p, w));
    == { ReplaceSkip(b, end, p, w); }
      a + ("z" + (b + ReplaceAll(end, p, w)));
    == { assert ReplaceAll(end, p, w) == end; }
      a + ("z" + (b + end));
    }
  }

  lemma ScrambleJoins()
    ensures Join(ScrambleArena()[7].data, ",") == "x,y,zx,yz"
    ensures Join(ScrambleArena()[5].data, ",") == "x,y"
    ensures Join(ScrambleArena()[6].data, ",") == "zx,yz"
  {
    var ind := ScrambleArena();
    assert Join(["x", "y", "zx", "yz"], ",") == "x,y,zx,yz" by {
      assert ["x", "y", "zx", "yz"][1..] == ["y", "zx", "yz"];
      assert ["y", "zx", "yz"][1..] == ["zx", "yz"];
      assert ["zx", "yz"][1..] == ["yz"];
    }
    assert Join(["x", "y"], ",") == "x,y" by {
      assert ["x", "y"][1..] == ["y"];
    }
    assert Join(["zx", "yz"], ",") == "zx,yz" by {
      assert ["zx", "yz"][1..] == ["yz"];
    }
    assert ind[7].data == ["x", "y", "zx", "yz"];
    assert ind[5].data == ["x", "y"];
    assert ind[6].data == ["zx", "yz"];
  }

  lemma ScrambleBfs()
    requires TreeShaped(ScrambleArena())
    ensures AllIn(ScrambleArena(), [7]) && BfsText(ScrambleArena(), [7], "") == "((x,y),z(x,y)z);"
  {
    ScrambleExpand();
    ScrambleLeaves();
  }

  /** The three inner nodes expand the text to its final form. */
  lemma ScrambleExpand()
    requires TreeShaped(ScrambleArena())
    ensures AllIn(ScrambleArena(), [7]) && AllIn(ScrambleArena(), [0, 1, 2, 3])
    ensures BfsText(ScrambleArena(), [7], "") == BfsText(ScrambleArena(), [0, 1, 2, 3], "((x,y),z(x,y)z);")
  {
    var ind := ScrambleArena();
    var out1, out2 := "(x,y,zx,yz);", "((x,y),z(x,y)z);";
    ScrambleJoins();
    assert ind[7].left == Some(5) && ind[7].right == Some(6);
    assert ind[5].left == Some(0) && ind[5].right == Some(1);
    assert ind[6].left == Some(2) && ind[6].right == Some(3);
    assert AllIn(ind, [7]) && AllIn(ind, [5, 6]) && AllIn(ind, [6, 0, 1]) && AllIn(ind, [0, 1, 2, 3]);
    calc {
      BfsText(ind, [7], "");
    == { assert [7][1..] + [5, 6] == [5, 6];
         assert "(" + Join(ind[7].data, ",") + ");" == out1;
         BfsStart(ind, [7], out1); }
      BfsText(ind, [5, 6], out1);
    == { assert [5, 6][1..] + [0, 1] == [6, 0, 1];
         ScrambleFirstWrap(out1, Join(ind[5].data, ","));
         BfsWrap(ind, [5, 6], out1, out2); }
      BfsText(ind, [6, 0, 1], out2);
    == { assert [6, 0, 1][1..] + [2, 3] == [0, 1, 2, 3];
         ScrambleSecondWrap(out2, Join(ind[6].data, ","));
         BfsWrap(ind, [6, 0, 1], out2, out2); }
      BfsText(ind, [0, 1, 2, 3], out2);
    }
  }

  /** The four leaves left on the queue change nothing. */
  lemma ScrambleLeaves()
    requires TreeShaped(ScrambleArena())
    ensures AllIn(ScrambleArena(), [0, 1, 2, 3])
    ensures BfsText(ScrambleArena(), [0, 1, 2, 3], "((x,y),z(x,y)z);") == "((x,y),z(x,y)z);"
  {
    var ind := ScrambleArena();
    var out2 := "((x,y),z(x,y)z);";
    assert AllIn(ind, [0, 1, 2, 3]) && AllIn(ind, [1, 2, 3]) && AllIn(ind, [2, 3]) && AllIn(ind, [3]) && AllIn(ind, []);
    calc {
      BfsText(ind, [0, 1, 2, 3], out2);
    == { assert [0, 1, 2, 3][1..] == [1, 2, 3]; BfsSkip(ind, [0, 1, 2, 3], out2); }
      BfsText(ind, [1, 2, 3], out2);
    == { assert [1, 2, 3][1..] == [2, 3]; BfsSkip(ind, [1, 2, 3], out2); }
      BfsText(ind, [2, 3], out2);
    == { assert [2, 3][1..] == [3]; BfsSkip(ind, [2, 3], out2); }
      BfsText(ind, [3], out2);
    == { assert [3][1..] == []; BfsSkip(ind, [3], out2); }
      BfsText(ind, [], out2);
    }
  }

  lemma BfsStart(ind: map<NodeIndex, Node>, q: seq<NodeIndex>, next: string)
    requires TreeShaped(ind) && AllIn(ind, q) && |q| > 0 && |ind[q[0]].data| >= 2
    requires next == "(" + Join(ind[q[0]].data, ",") + ");"
    ensures Split(ind, q[0]) && AllIn(ind, q[1..] + [ind[q[0]].left.value, ind[q[0]].right.value])
    ensures BfsText(ind, q, "") == BfsText(ind, q[1..] + [ind[q[0]].left.value, ind[q[0]].right.value], next)
  {
    ExpandDecreases(ind, q);
  }

  lemma BfsWrap(ind: map<NodeIndex, Node>, q: seq<NodeIndex>, out: string, next: string)
    requires TreeShaped(ind) && AllIn(ind, q) && |q| > 0 && |ind[q[0]].data| >= 2 && |out| > 0
    requires next == ReplaceAll(out, Join(ind[q[0]].data, ","), "(" + Join(ind[q[0]].data, ",") + ")")
    ensures Split(ind, q[0]) && AllIn(ind, q[1..] + [ind[q[0]].left.value, ind[q[0]].right.value])
    ensures BfsText(ind, q, out) == BfsText(ind, q[1..] + [ind[q[0]].left.value, ind[q[0]].right.value], next)
  {
    ExpandDecreases(ind, q);
  }

  lemma BfsSkip(ind: map<NodeIndex, Node>, q: seq<NodeIndex>, out: string)
    requires TreeShaped(ind) && AllIn(ind, q) && |q| > 0 && |ind[q[0]].data| < 2
    ensures AllIn(ind, q[1..]) && BfsText(ind, q, out) == BfsText(ind, q[1..], out)
  {
  }

  /** Reading the scrambled text fails: after "(x,y)," the leaf "z" is
      followed by "(" where ")" must close the pair. */
  lemma ScrambleUnreadable()
    ensures ReadNewick("((x,y),z(x,y)z);") == None
  {
    var after := "(x,y)z);";
    var r2 := "z" + after;
    var r1 := "," + r2;
    var pair := "(" + "x" + "," + "y" + ")";
    var inner := pair + r1;
    assert ReadTree(inner) == Some((Inner(Leaf("x"), Leaf("y")), r1)) by {
      ReadLeaf("x", "," + "y" + (")" + r1));
      ReadLeaf("y", ")" + r1);
      ReadInner("x", "y", Leaf("x"), Leaf("y"), r1);
    }
    assert ReadTree(r2) == Some((Leaf("z"), after)) by {
      ReadLeaf("z", after);
    }
    var s := "(" + inner;
    assert s == "((x,y),z(x,y)z);";
    assert ReadTree(s) == None by {
      assert s[0] == '(' && s[1..] == inner;
      assert r1[0] == ',' && r1[1..] == r2;
      assert after[0] == '(';
    }
  }

  lemma ScrambleTree()
    requires TreeShaped(ScrambleArena())
    ensures 7 in ScrambleArena()
    ensures TreeOf(ScrambleArena(), 7) == Inner(Inner(Leaf("x"), Leaf("y")), Inner(Leaf("zx"), Leaf("yz")))
  {
    var ind := ScrambleArena();
    assert TreeOf(ind, 0) == Leaf("x") && TreeOf(ind, 1) == Leaf("y");
    assert TreeOf(ind, 2) == Leaf("zx") && TreeOf(ind, 3) == Leaf("yz");
    assert TreeOf(ind, 5) == Inner(Leaf("x"), Leaf("y"));
    assert TreeOf(ind, 6) == Inner(Leaf("zx"), Leaf("yz"));
  }

  /** In that arena "x,y" also occurs across the boundary of "zx" and "yz",
      so `to_newick` wraps that occurrence too and the result is no Newick
      text at all; the structural writer gives the right tree. */
  lemma BfsScrambles()
    ensures TreeShaped(ScrambleArena()) && 7 in ScrambleArena()
    ensures BfsText(ScrambleArena(), [7], "") == "((x,y),z(x,y)z);"
    ensures ReadNewick(BfsText(ScrambleArena(), [7], "")) == None
    ensures Strip(BfsText(ScrambleArena(), [7], "")) == Join(ScrambleArena()[7].data, ",") + ";"
    ensures TreeOf(ScrambleArena(), 7) == Inner(Inner(Leaf("x"), Leaf("y")), Inner(Leaf("zx"), Leaf("yz")))
    ensures ReadNewick(NewickText(ScrambleArena(), 7)) == Some(TreeOf(ScrambleArena(), 7))
  {
    ScrambleShaped();
    ScrambleBfs();
    ScrambleUnreadable();
    ScrambleTree();
    BfsRootMembers(ScrambleArena(), 7);
    NewickDecodes(ScrambleArena(), 7);
  }

  // Where no label pattern collides, the two writers agree

  /** The arena left by merging s1 with s2, then that pair with s3. The
      second round pops the entry (candidate 2, new node 4), so the root
      lists s3 first: handles 0..2 are the leaves and 4, 5 the merges. */
  function AgreeArena(): map<NodeIndex, Node>
  {
    map[0 := Node(["s1"], Some(4), None, None),
        1 := Node(["s2"], Some(4), None, None),
        2 := Node(["s3"], Some(5), None, None),
        4 := Node(["s1", "s2"], Some(5), Some(0), Some(1)),
        5 := Node(["s3", "s1", "s2"], None, Some(2), Some(4))]
  }

  lemma AgreeShaped()
    ensures TreeShaped(AgreeArena())
    ensures forall j, k :: j in AgreeArena() && 0 <= k < |AgreeArena()[j].data| ==> Plain(AgreeArena()[j].data[k])
  {
    var ind := AgreeArena();
    forall i | i in ind ensures |ind[i].data| >= 1 && (|ind[i].data| >= 2 ==> Split(ind, i)) {
      assert i in {0, 1, 2, 4, 5};
    }
    forall j, k | j in ind && 0 <= k < |ind[j].data| ensures Plain(ind[j].data[k]) {
      assert j in {0, 1, 2, 4, 5};
    }
  }

  lemma AgreeJoins()
    ensures Join(AgreeArena()[5].data, ",") == "s3,s1,s2"
    ensures Join(AgreeArena()[4].data, ",") == "s1,s2"
  {
    var ind := AgreeArena();
    assert Join(["s3", "s1", "s2"], ",") == "s3,s1,s2" by {
      assert ["s3", "s1", "s2"][1..] == ["s1", "s2"];
      assert ["s1", "s2"][1..] == ["s2"];
    }
    assert Join(["s1", "s2"], ",") == "s1,s2" by {
      assert ["s1", "s2"][1..] == ["s2"];
    }
    assert ind[5].data == ["s3", "s1", "s2"];
    assert ind[4].data == ["s1", "s2"];
  }

  /** The root's text, and what wrapping "s1,s2" makes of it. */
  lemma AgreeWrap(out: string, p: string)
    requires out == "(s3,s1,s2);" && p == "s1,s2"
    ensures ReplaceAll(out, p, "(" + p + ")") == "(s3,(s1,s2));"
  {
    var w := "(" + p + ")";
    var end := ");";
    var s4 := p + end;
    var s3 := "," + s4;
    var s2 := "3" + s3;
    var s1 := "s" + s2;
    assert out == "(" + s1;
    calc {
      ReplaceAll(out, p, w);
    == { ReplaceMiss('(', s1, p, w); }
      "(" + ReplaceAll(s1, p, w);
    == { ReplaceMiss('s', s2, p, w); }
      "(" + ("s" + ReplaceAll(s2, p, w));
    == { ReplaceMiss('3', s3, p, w); }
      "(" + ("s" + ("3" + ReplaceAll(s3, p, w)));
    == { ReplaceMiss(',', s4, p, w); }
      "(" + ("s" + ("3" + ("," + ReplaceAll(s4, p, w))));
    == { ReplaceHit(p, end, w); }
      "(" + ("s" + ("3" + ("," + (w + ReplaceAll(end, p, w)))));
    == { assert ReplaceAll(end, p, w) == end; }
      "(" + ("s" + ("3" + ("," + (w + end))));
    == { assert w == "(s1,s2)"; }
      "(s3,(s1,s2));";
    }
  }

  /** `to_newick` on that arena: the root, a leaf, the pair, two leaves. */
  lemma AgreeBfs()
    requires TreeShaped(AgreeArena())
    ensures AllIn(AgreeArena(), [5]) && BfsText(AgreeArena(), [5], "") == "(s3,(s1,s2));"
  {
    var ind := AgreeArena();
    var out1, out2 := "(s3,s1,s2);", "(s3,(s1,s2));";
    AgreeJoins();
    assert ind[5].left == Some(2) && ind[5].right == Some(4);
    assert ind[4].left == Some(0) && ind[4].right == Some(1);
    assert AllIn(ind, [5]) && AllIn(ind, [2, 4]) && AllIn(ind, [4]) && AllIn(ind, [0, 1]) && AllIn(ind, [1]) && AllIn(ind, []);
    calc {
      BfsText(ind, [5], "");
    == { assert [5][1..] + [2, 4] == [2, 4];
         assert "(" + Join(ind[5].data, ",") + ");" == out1;
         BfsStart(ind, [5], out1); }
      BfsText(ind, [2, 4], out1);
    == { assert [2, 4][1..] == [4]; BfsSkip(ind, [2, 4], out1); }
      BfsText(ind, [4], out1);
    == { assert [4][1..] + [0, 1] == [0, 1];
         AgreeWrap(out1, Join(ind[4].data, ","));
         BfsWrap(ind, [4], out1, out2); }
      BfsText(ind, [0, 1], out2);
    == { assert [0, 1][1..] == [1]; BfsSkip(ind, [0, 1], out2); }
      BfsText(ind, [1], out2);
    == { assert [1][1..] == []; BfsSkip(ind, [1], out2); }
      BfsText(ind, [], out2);
    }
  }

  lemma AgreeTree()
    requires TreeShaped(AgreeArena())
    ensures 5 in AgreeArena()
    ensures TreeOf(AgreeArena(), 5) == Inner(Leaf("s3"), Inner(Leaf("s1"), Leaf("s2")))
  {
    var ind := AgreeArena();
    assert TreeOf(ind, 0) == Leaf("s1") && TreeOf(ind, 1) == Leaf("s2") && TreeOf(ind, 2) == Leaf("s3");
    assert TreeOf(ind, 4) == Inner(Leaf("s1"), Leaf("s2"));
  }

  /** The structural writer's text for that arena. */
  lemma AgreeText()
    requires TreeShaped(AgreeArena())
    ensures 5 in AgreeArena()
    ensures TreeOf(AgreeArena(), 5) == Inner(Leaf("s3"), Inner(Leaf("s1"), Leaf("s2")))
    ensures NewickText(AgreeArena(), 5) == "(s3,(s1,s2));"
  {
    AgreeTree();
    assert Print(Inner(Leaf("s3"), Inner(Leaf("s1"), Leaf("s2")))) == "(s3,(s1,s2))";
  }

  /** On that arena `to_newick` and the structural writer give the same
      text, "(s3,(s1,s2));", and it reads back as the merged tree. */
  lemma BfsAgrees()
    ensures TreeShaped(AgreeArena()) && 5 in AgreeArena()
    ensures BfsText(AgreeArena(), [5], "") == "(s3,(s1,s2));"
    ensures NewickText(AgreeArena(), 5) == BfsText(AgreeArena(), [5], "")
    ensures ReadNewick(BfsText(AgreeArena(), [5], "")) == Some(Inner(Leaf("s3"), Inner(Leaf("s1"), Leaf("s2"))))
  {
    AgreeShaped();
    AgreeBfs();
    AgreeText();
    NewickDecodes(AgreeArena(), 5);
  }
}
