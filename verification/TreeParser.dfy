/**
 Trees written as name{child,child,...}, and the stack parser that reads them back.
 The parser's nodes are numbered in the order of their creation; a number stands for a pointer.
 */
module TreeFormat {

  datatype Tree = Tree(name: string, children: seq<Tree>)

  predicate IsOp(c: char) {
    c == '{' || c == '}' || c == ','
  }

  ghost predicate GoodName(name: string) {
    name != "" && forall c :: c in name ==> !IsOp(c)
  }

  ghost predicate GoodTree(t: Tree) {
    GoodName(t.name) && forall c :: c in t.children ==> GoodTree(c)
  }

  function Print(t: Tree): string {
    if t.children == [] then t.name else t.name + "{" + PrintList(t.children) + "}"
  }

  function PrintList(ts: seq<Tree>): string {
    if ts == [] then ""
    else if |ts| == 1 then Print(ts[0])
    else Print(ts[0]) + "," + PrintList(ts[1..])
  }

  // ----- the parser -----

  datatype Rec = Rec(name: string, kids: seq<nat>)

  /** The nodes, the stack of numbers (top last), and the node that was made last. */
  datatype Machine = Machine(nodes: seq<Rec>, stack: seq<nat>, last: nat)

  /** Numbers name nodes, and children are younger than their parents. */
  predicate Linked(nodes: seq<Rec>) {
    forall i, j :: 0 <= i < |nodes| && 0 <= j < |nodes[i].kids| ==> i < nodes[i].kids[j] < |nodes|
  }

  predicate Sound(m: Machine) {
    && Linked(m.nodes) && (m.nodes != [] ==> m.last < |m.nodes|)
    && forall i :: 0 <= i < |m.stack| ==> m.stack[i] < |m.nodes|
  }

  function AddKids(nodes: seq<Rec>, i: nat, kids: seq<nat>): seq<Rec> {
    if i < |nodes| then nodes[i := Rec(nodes[i].name, nodes[i].kids + kids)] else nodes
  }

  /** A new node, which becomes a child of the node on top of the stack. */
  function Create(m: Machine, name: string): Machine {
    var k := |m.nodes|;
    var nodes := if m.stack == [] then m.nodes else AddKids(m.nodes, m.stack[|m.stack| - 1], [k]);
    Machine(nodes + [Rec(name, [])], m.stack, k)
  }

  /** What the parser does on an operator character.  Without a node there is nothing to push. */
  function Operate(m: Machine, c: char): Machine {
    if c == '{' && m.nodes != [] then m.(stack := m.stack + [m.last])
    else if c == '}' && m.stack != [] then m.(stack := m.stack[..|m.stack| - 1])
    else m
  }

  /** find_first_of("{},", from): the length if there is no operator. */
  function FindOp(s: string, from: nat): (k: nat)
    requires from <= |s|
    ensures from <= k <= |s| && (k < |s| ==> IsOp(s[k])) && forall i :: from <= i < k ==> !IsOp(s[i])
    decreases |s| - from
  {
    if from == |s| || IsOp(s[from]) then from else FindOp(s, from + 1)
  }

  ghost predicate NameBefore(s: string, i: nat)
    requires i <= |s|
  {
    exists j :: 0 <= j < i && !IsOp(s[j])
  }

  /** A text that can be parsed: some name comes before every opening brace. */
  ghost predicate Parsable(s: string) {
    forall i :: 0 <= i < |s| && s[i] == '{' ==> NameBefore(s, i)
  }

  /** One turn of the parser's loop: the text up to an operator, and the operator. */
  function TurnOf(name: string, c: char, m: Machine): Machine {
    Operate(if name != "" then Create(m, name) else m, c)
  }

  /** What the parser takes in one turn: the text up to an operator, and the operator. */
  datatype Token = Token(name: string, op: char)

  /** The turns that a text gives from a position on. */
  function Tokens(s: string, from: nat): seq<Token>
    requires from <= |s|
    decreases |s| - from
  {
    var k := FindOp(s, from);
    if k == |s| then [] else [Token(s[from..k], s[k])] + Tokens(s, k + 1)
  }

  /** The parser's turns, from a machine on. */
  function Run(ts: seq<Token>, m: Machine): Machine {
    if ts == [] then m else Run(ts[1..], TurnOf(ts[0].name, ts[0].op, m))
  }

  const START := Machine([], [], 0)

  lemma CreateSound(m: Machine, name: string)
    requires Sound(m)
    ensures Sound(Create(m, name))
  {
  }

  lemma OperateSound(m: Machine, c: char)
    requires Sound(m)
    ensures Sound(Operate(m, c))
  {
  }

  lemma {:induction false} RunSound(ts: seq<Token>, m: Machine)
    requires Sound(m)
    ensures Sound(Run(ts, m))
  {
    if ts != [] {
      CreateSound(m, ts[0].name);
      var m1 := if ts[0].name != "" then Create(m, ts[0].name) else m;
      OperateSound(m1, ts[0].op);
      RunSound(ts[1..], Operate(m1, ts[0].op));
    }
  }

  /** From position base on the text s is b. */
  ghost predicate EndsIn(s: string, base: nat, b: string) {
    |s| == base + |b| && forall i :: base <= i < |s| ==> s[i] == b[i - base]
  }

  lemma FindShift(s: string, base: nat, b: string, from: nat, at: nat)
    requires EndsIn(s, base, b) && from <= |b| && at == base + from
    ensures FindOp(s, at) == base + FindOp(b, from)
  {
    var k, l := FindOp(b, from), FindOp(s, at);
    assert k < |b| ==> s[base + k] == b[k];
    assert l < |s| ==> s[l] == b[l - base];
  }

  lemma SameSlice(s: string, base: nat, b: string, from: nat, k: nat)
    requires EndsIn(s, base, b) && from <= k < |b|
    ensures s[base + from..base + k] == b[from..k] && s[base + k] == b[k]
  {
  }

  lemma FirstToken(s: string, from: nat, k: nat)
    requires from <= |s| && k == FindOp(s, from) < |s|
    ensures Tokens(s, from) == [Token(s[from..k], s[k])] + Tokens(s, k + 1)
  {
  }

  lemma NoToken(s: string, from: nat)
    requires from <= |s| && FindOp(s, from) == |s|
    ensures Tokens(s, from) == []
  {
  }

  /** What was read does not matter for the rest. */
  lemma {:induction false} TokensShift(s: string, base: nat, b: string, from: nat, at: nat)
    requires EndsIn(s, base, b) && from <= |b| && at == base + from
    ensures Tokens(s, at) == Tokens(b, from)
    decreases |b| - from
  {
    var k := FindOp(b, from);
    FindShift(s, base, b, from, at);
    if k < |b| {
      SameSlice(s, base, b, from, k);
      TokensShift(s, base, b, k + 1, base + k + 1);
      FirstToken(b, from, k);
      FirstToken(s, at, base + k);
      assert Tokens(s, at) == [Token(b[from..k], b[k])] + Tokens(b, k + 1);
    } else {
      NoToken(b, from);
      NoToken(s, at);
    }
  }

  /** The result for a whole text. */
  function Parse(s: string): Machine {
    Run(Tokens(s, 0), START)
  }

  // ----- what parsing a printed tree should leave -----

  function Size(t: Tree): (n: nat)
    ensures n >= 1
  {
    1 + SizeList(t.children)
  }

  function SizeList(ts: seq<Tree>): nat {
    if ts == [] then 0 else Size(ts[0]) + SizeList(ts[1..])
  }

  /** The numbers of subtrees that are laid out one after the other from k on. */
  function KidIds(ts: seq<Tree>, k: nat): seq<nat> {
    if ts == [] then [] else [k] + KidIds(ts[1..], k + Size(ts[0]))
  }

  function Layout(t: Tree, k: nat): (r: seq<Rec>)
    ensures |r| == Size(t)
  {
    [Rec(t.name, KidIds(t.children, k + 1))] + LayoutList(t.children, k + 1)
  }

  function LayoutList(ts: seq<Tree>, k: nat): (r: seq<Rec>)
    ensures |r| == SizeList(ts)
  {
    if ts == [] then [] else Layout(ts[0], k) + LayoutList(ts[1..], k + Size(ts[0]))
  }

  /** There is a node on top of the stack. */
  predicate Ready(m: Machine) {
    m.stack != [] && m.stack[|m.stack| - 1] < |m.nodes|
  }

  /** The machine after trees have become children of the node on top of the stack. */
  function Attach(m: Machine, ts: seq<Tree>): (r: Machine)
    requires Ready(m)
    ensures Ready(r) && r.stack == m.stack
  {
    var k := |m.nodes|;
    Machine(AddKids(m.nodes, m.stack[|m.stack| - 1], KidIds(ts, k)) + LayoutList(ts, k), m.stack,
            if ts == [] then m.last else k + SizeList(ts) - 1)
  }

  lemma AddKidsAppend(nodes: seq<Rec>, more: seq<Rec>, rest: seq<Rec>, i: nat, a: seq<nat>, b: seq<nat>)
    requires i < |nodes|
    ensures AddKids(AddKids(nodes, i, a) + more, i, b) + rest == AddKids(nodes, i, a + b) + (more + rest)
  {
    assert (nodes[i].kids + a) + b == nodes[i].kids + (a + b);
  }

  lemma AttachAppends(m: Machine, t: Tree, ts: seq<Tree>)
    requires Ready(m)
    ensures Attach(m, [t] + ts) == Attach(Attach(m, [t]), ts)
  {
    var k, top := |m.nodes|, m.stack[|m.stack| - 1];
    assert ([t] + ts)[1..] == ts && [t][1..] == [];
    assert LayoutList([t], k) == Layout(t, k);
    assert KidIds([t], k) == [k];
    assert KidIds([t] + ts, k) == [k] + KidIds(ts, k + Size(t));
    AddKidsAppend(m.nodes, Layout(t, k), LayoutList(ts, k + Size(t)), top, [k], KidIds(ts, k + Size(t)));
  }

  // ----- parsing what was printed -----

  lemma FindName(name: string, c: char, rest: string)
    requires GoodName(name) && IsOp(c)
    ensures var s := name + [c] + rest;
            FindOp(s, 0) == |name| && s[0..|name|] == name && s[|name|] == c && EndsIn(s, |name| + 1, rest)
  {
    var s := name + [c] + rest;
    assert forall i :: 0 <= i < |name| ==> s[i] == name[i] && name[i] in name;
    assert s[|name|] == c;
  }

  lemma TokensOfName(name: string, c: char, rest: string)
    requires GoodName(name) && IsOp(c)
    ensures Tokens(name + [c] + rest, 0) == [Token(name, c)] + Tokens(rest, 0)
  {
    var s := name + [c] + rest;
    FindName(name, c, rest);
    FirstToken(s, 0, |name|);
    TokensShift(s, |name| + 1, rest, 0, |name| + 1);
  }

  lemma TokensOfOp(c: char, rest: string)
    requires IsOp(c)
    ensures Tokens([c] + rest, 0) == [Token("", c)] + Tokens(rest, 0)
  {
    var s := [c] + rest;
    assert FindOp(s, 0) == 0 && s[0..0] == "";
    FirstToken(s, 0, 0);
    TokensShift(s, 1, rest, 0, 1);
  }

  lemma RunFirst(t: Token, ts: seq<Token>, m: Machine)
    ensures Run([t] + ts, m) == Run(ts, TurnOf(t.name, t.op, m))
  {
    assert ([t] + ts)[1..] == ts;
  }

  lemma RunName(name: string, c: char, rest: string, m: Machine)
    requires GoodName(name) && IsOp(c)
    ensures Run(Tokens(name + [c] + rest, 0), m) == Run(Tokens(rest, 0), Operate(Create(m, name), c))
  {
    TokensOfName(name, c, rest);
    RunFirst(Token(name, c), Tokens(rest, 0), m);
  }

  lemma RunOp(c: char, rest: string, m: Machine)
    requires IsOp(c)
    ensures Run(Tokens([c] + rest, 0), m) == Run(Tokens(rest, 0), Operate(m, c))
  {
    TokensOfOp(c, rest);
    RunFirst(Token("", c), Tokens(rest, 0), m);
  }

  lemma AttachLeaf(m: Machine, t: Tree)
    requires Ready(m) && t.children == []
    ensures Attach(m, [t]) == Create(m, t.name)
  {
    var k := |m.nodes|;
    assert [t][1..] == [];
    assert KidIds([t], k) == [k] && LayoutList([t], k) == [Rec(t.name, [])];
  }

  lemma FillLast(a: seq<Rec>, name: string, kids: seq<nat>)
    ensures AddKids(a + [Rec(name, [])], |a|, kids) == a + [Rec(name, kids)]
  {
    assert [] + kids == kids;
  }

  lemma AttachToLast(m: Machine, a: seq<Rec>, name: string, ts: seq<Tree>)
    requires ts != [] && m.stack != [] && m.stack[|m.stack| - 1] == |a| && m.nodes == a + [Rec(name, [])]
    ensures var k := |a| + 1;
            Attach(m, ts) == Machine(a + [Rec(name, KidIds(ts, k))] + LayoutList(ts, k), m.stack, k + SizeList(ts) - 1)
  {
    FillLast(a, name, KidIds(ts, |a| + 1));
  }

  lemma AttachSingle(m: Machine, t: Tree)
    requires Ready(m)
    ensures var k := |m.nodes|;
            Attach(m, [t]) == Machine(AddKids(m.nodes, m.stack[|m.stack| - 1], [k]) + Layout(t, k), m.stack, k + Size(t) - 1)
  {
    var k := |m.nodes|;
    assert [t][1..] == [];
    assert KidIds([t], k) == [k] && LayoutList([t], k) == Layout(t, k) && SizeList([t]) == Size(t);
  }

  /** A node with its children attached is the tree attached. */
  lemma AttachInner(m: Machine, t: Tree)
    requires Ready(m) && t.children != []
    ensures var r := Attach(Operate(Create(m, t.name), '{'), t.children);
            Attach(m, [t]) == Machine(r.nodes, m.stack, r.last) && r.stack == m.stack + [|m.nodes|]
  {
    var k, ts := |m.nodes|, t.children;
    var a := AddKids(m.nodes, m.stack[|m.stack| - 1], [k]);
    var m1 := Operate(Create(m, t.name), '{');
    assert m1 == Machine(a + [Rec(t.name, [])], m.stack + [k], k);
    AttachToLast(m1, a, t.name, ts);
    AttachSingle(m, t);
    assert a + [Rec(t.name, KidIds(ts, k + 1))] + LayoutList(ts, k + 1) == a + Layout(t, k);
  }

  /** Parsing a printed tree and the operator behind it makes the tree a child of the node on the stack. */
  lemma {:induction false} ParseTree(t: Tree, op: char, rest: string, m: Machine)
    requires Ready(m) && GoodTree(t) && (op == ',' || op == '}')
    ensures Run(Tokens(Print(t) + [op] + rest, 0), m) == Run(Tokens(rest, 0), Operate(Attach(m, [t]), op))
    decreases t, 1
  {
    if t.children == [] {
      AttachLeaf(m, t);
      RunName(t.name, op, rest, m);
    } else {
      AttachInner(m, t);
      var m1 := Operate(Create(m, t.name), '{');
      var inner := PrintList(t.children) + "}" + ([op] + rest);
      assert Print(t) + [op] + rest == t.name + ['{'] + inner;
      RunName(t.name, '{', inner, m);
      ParseList(t.children, [op] + rest, m1);
      RunOp(op, rest, Operate(Attach(m1, t.children), '}'));
    }
  }

  lemma {:induction false} ParseList(ts: seq<Tree>, rest: string, m: Machine)
    requires Ready(m) && ts != [] && forall t :: t in ts ==> GoodTree(t)
    ensures Run(Tokens(PrintList(ts) + "}" + rest, 0), m) == Run(Tokens(rest, 0), Operate(Attach(m, ts), '}'))
    decreases ts, 0
  {
    var t := ts[0];
    assert t in ts;
    if |ts| == 1 {
      assert ts == [t];
      ParseTree(t, '}', rest, m);
    } else {
      var more := PrintList(ts[1..]) + "}" + rest;
      assert PrintList(ts) + "}" + rest == Print(t) + [','] + more;
      ParseTree(t, ',', more, m);
      ParseList(ts[1..], rest, Attach(m, [t]));
      AttachAppends(m, t, ts[1..]);
      assert ts == [t] + ts[1..];
    }
  }

  // ----- reading the nodes as a tree -----

  /** The tree below node i. */
  function TreeAt(nodes: seq<Rec>, i: nat): Tree
    requires Linked(nodes) && i < |nodes|
    decreases |nodes| - i
  {
    Tree(nodes[i].name, seq(|nodes[i].kids|, j requires 0 <= j < |nodes[i].kids| => TreeAt(nodes, nodes[i].kids[j])))
  }

  /** The nodes from number k on are this stretch. */
  ghost predicate HoldsAt(nodes: seq<Rec>, k: nat, part: seq<Rec>) {
    k + |part| <= |nodes| && forall i :: 0 <= i < |part| ==> nodes[k + i] == part[i]
  }

  lemma HoldsParts(nodes: seq<Rec>, k: nat, a: seq<Rec>, b: seq<Rec>)
    requires HoldsAt(nodes, k, a + b)
    ensures HoldsAt(nodes, k, a) && HoldsAt(nodes, k + |a|, b)
  {
    forall i | 0 <= i < |a| ensures nodes[k + i] == a[i] {
      assert (a + b)[i] == a[i];
    }
    forall i | 0 <= i < |b| ensures nodes[k + |a| + i] == b[i] {
      assert nodes[k + (|a| + i)] == (a + b)[|a| + i] == b[i];
    }
  }

  /** The trees below nodes that are listed by their numbers. */
  ghost predicate TreesAt(nodes: seq<Rec>, ids: seq<nat>, ts: seq<Tree>)
    requires Linked(nodes)
  {
    |ids| == |ts| && forall j :: 0 <= j < |ids| ==> ids[j] < |nodes| && TreeAt(nodes, ids[j]) == ts[j]
  }

  lemma {:induction false} LayoutIsTree(t: Tree, k: nat, nodes: seq<Rec>)
    requires Linked(nodes) && HoldsAt(nodes, k, Layout(t, k))
    ensures TreeAt(nodes, k) == t
    decreases t, 1
  {
    var root := Rec(t.name, KidIds(t.children, k + 1));
    HoldsParts(nodes, k, [root], LayoutList(t.children, k + 1));
    assert nodes[k + 0] == [root][0];
    LayoutIsTrees(t.children, k + 1, nodes);
    assert TreeAt(nodes, k).children == t.children;
  }

  lemma TreesAtCons(nodes: seq<Rec>, k: nat, t: Tree, ids: seq<nat>, ts: seq<Tree>)
    requires Linked(nodes) && k < |nodes| && TreeAt(nodes, k) == t && TreesAt(nodes, ids, ts)
    ensures TreesAt(nodes, [k] + ids, [t] + ts)
  {
  }

  lemma {:induction false} LayoutIsTrees(ts: seq<Tree>, k: nat, nodes: seq<Rec>)
    requires Linked(nodes) && HoldsAt(nodes, k, LayoutList(ts, k))
    ensures TreesAt(nodes, KidIds(ts, k), ts)
    decreases ts, 0
  {
    if ts != [] {
      var n := Size(ts[0]);
      HoldsParts(nodes, k, Layout(ts[0], k), LayoutList(ts[1..], k + n));
      LayoutIsTree(ts[0], k, nodes);
      LayoutIsTrees(ts[1..], k + n, nodes);
      TreesAtCons(nodes, k, ts[0], KidIds(ts[1..], k + n), ts[1..]);
      assert ts == [ts[0]] + ts[1..];
    }
  }

  lemma FirstNode(name: string)
    ensures Operate(Create(START, name), '{') == Machine([Rec(name, [])], [0], 0)
  {
  }

  lemma RunEnd(m: Machine)
    ensures Run(Tokens("", 0), m) == m
  {
  }

  lemma AttachRoot(m: Machine, t: Tree)
    requires m == Machine([Rec(t.name, [])], [0], 0)
    ensures Attach(m, t.children).nodes == Layout(t, 0)
  {
    assert [] + KidIds(t.children, 1) == KidIds(t.children, 1);
  }

  lemma ParseChildren(t: Tree)
    requires GoodTree(t) && t.children != []
    ensures Run(Tokens(PrintList(t.children) + "}" + "", 0), Machine([Rec(t.name, [])], [0], 0)).nodes == Layout(t, 0)
  {
    var m := Machine([Rec(t.name, [])], [0], 0);
    ParseList(t.children, "", m);
    RunEnd(Operate(Attach(m, t.children), '}'));
    AttachRoot(m, t);
  }

  /** What the parser leaves of a printed tree that has children. */
  lemma RunPrinted(t: Tree)
    requires GoodTree(t) && t.children != []
    ensures Parse(Print(t)).nodes == Layout(t, 0)
  {
    var inner := PrintList(t.children) + "}" + "";
    assert Print(t) == t.name + ['{'] + inner;
    FirstNode(t.name);
    RunName(t.name, '{', inner, START);
    ParseChildren(t);
  }

  lemma PrintedIsParsable(t: Tree)
    requires GoodTree(t)
    ensures Parsable(Print(t))
  {
    var s := Print(t);
    assert s[0] == t.name[0] && t.name[0] in t.name;
    assert forall i :: 0 < i <= |s| ==> NameBefore(s, i);
  }

  /** The round trip: a printed tree that has children is read back as it was. */
  lemma RoundTrip(t: Tree)
    requires GoodTree(t) && t.children != []
    ensures var nodes := Parse(Print(t)).nodes;
            nodes != [] && Linked(nodes) && TreeAt(nodes, 0) == t
  {
    RunSound(Tokens(Print(t), 0), START);
    RunPrinted(t);
    LayoutIsTree(t, 0, Layout(t, 0));
  }

  /** A tree without children is printed without an operator, and the parser makes no node of it. */
  lemma SingleNodeIsLost(t: Tree)
    requires GoodTree(t) && t.children == []
    ensures Parse(Print(t)).nodes == []
  {
    assert forall i :: 0 <= i < |t.name| ==> t.name[i] in t.name;
  }

  // ----- levels -----

  /** The depths, from level on, at which a name occurs. */
  function Levels(t: Tree, name: string, level: int): set<int>
    decreases t, 0
  {
    (if t.name == name then {level} else {}) + LevelsOf(t.children, name, level + 1)
  }

  function LevelsOf(ts: seq<Tree>, name: string, level: int): set<int>
    decreases ts
  {
    if ts == [] then {} else Levels(ts[0], name, level) + LevelsOf(ts[1..], name, level)
  }

  /** Following a path of child positions down from the root leads to a node with this name. */
  ghost predicate NamedAt(t: Tree, path: seq<nat>, name: string)
    decreases |path|
  {
    if path == [] then t.name == name
    else path[0] < |t.children| && NamedAt(t.children[path[0]], path[1..], name)
  }

  lemma {:induction false} LevelHasPath(t: Tree, name: string, level: int, d: int) returns (path: seq<nat>)
    requires d in Levels(t, name, level)
    ensures NamedAt(t, path, name) && d == level + |path|
    decreases t, 1
  {
    if t.name == name && d == level {
      path := [];
    } else {
      var i, rest := LevelHasPathOf(t.children, name, level + 1, d);
      path := [i] + rest;
    }
  }

  lemma {:induction false} LevelHasPathOf(ts: seq<Tree>, name: string, level: int, d: int)
    returns (i: nat, path: seq<nat>)
    requires d in LevelsOf(ts, name, level)
    ensures i < |ts| && NamedAt(ts[i], path, name) && d == level + |path|
    decreases ts, 0
  {
    if d in Levels(ts[0], name, level) {
      path := LevelHasPath(ts[0], name, level, d);
      i := 0;
    } else {
      i, path := LevelHasPathOf(ts[1..], name, level, d);
      i := i + 1;
    }
  }

  lemma {:induction false} LevelsOfMember(ts: seq<Tree>, name: string, level: int, i: nat)
    requires i < |ts|
    ensures Levels(ts[i], name, level) <= LevelsOf(ts, name, level)
  {
    if i > 0 {
      LevelsOfMember(ts[1..], name, level, i - 1);
    }
  }

  lemma {:induction false} PathHasLevel(t: Tree, name: string, level: int, path: seq<nat>)
    requires NamedAt(t, path, name)
    ensures level + |path| in Levels(t, name, level)
    decreases |path|
  {
    if path != [] {
      PathHasLevel(t.children[path[0]], name, level + 1, path[1..]);
      LevelsOfMember(t.children, name, level + 1, path[0]);
    }
  }

  /** The levels collected are exactly the depths, the root's being 1, at which the name occurs. */
  lemma LevelsAreDepths(t: Tree, name: string, d: int)
    ensures d in Levels(t, name, 1) <==> exists path :: NamedAt(t, path, name) && d == |path| + 1
  {
    if d in Levels(t, name, 1) {
      var path := LevelHasPath(t, name, 1, d);
    }
    forall path | NamedAt(t, path, name) && d == |path| + 1 ensures d in Levels(t, name, 1) {
      PathHasLevel(t, name, 1, path);
    }
  }
}

/**
 The program on real nodes: create_tree links objects, and Traverse walks over them.
 */
module TreeProgram {
  import opened TreeFormat

  class TreeNode {
    const data: string
    var children: seq<TreeNode>

    constructor (data: string)
      ensures this.data == data && children == []
    {
      this.data := data;
      children := [];
    }

    method AddChild(p: TreeNode)
      modifies this
      ensures children == old(children) + [p]
    {
      children := children + [p];
    }
  }

  /** An object is a node: same name, and its children are the objects of the node's children. */
  ghost predicate Shows(o: TreeNode, r: Rec, objs: seq<TreeNode>)
    reads o
  {
    && o.data == r.name && |o.children| == |r.kids|
    && forall j :: 0 <= j < |r.kids| ==> r.kids[j] < |objs| && o.children[j] == objs[r.kids[j]]
  }

  /** Object number i is node number i, and no other object is. */
  ghost predicate ShowsAt(objs: seq<TreeNode>, nodes: seq<Rec>, i: nat)
    requires i < |objs| == |nodes|
    reads objs
  {
    Shows(objs[i], nodes[i], objs) && forall j :: 0 <= j < |objs| && j != i ==> objs[j] != objs[i]
  }

  /** The objects are the nodes of the machine, in the order of their numbers. */
  ghost predicate Represents(objs: seq<TreeNode>, nodes: seq<Rec>)
    reads objs
  {
    |objs| == |nodes| && forall i: nat :: i < |objs| ==> ShowsAt(objs, nodes, i)
  }

  ghost predicate StackOf(stk: seq<TreeNode>, objs: seq<TreeNode>, stack: seq<nat>) {
    |stk| == |stack| && forall i :: 0 <= i < |stk| ==> stack[i] < |objs| && stk[i] == objs[stack[i]]
  }

  /** A new node, linked below the node on top of the stack. */
  method MakeNode(name: string, stk: seq<TreeNode>, ghost objs: seq<TreeNode>, ghost m: Machine)
    returns (p: TreeNode)
    requires Represents(objs, m.nodes) && StackOf(stk, objs, m.stack)
    modifies objs
    ensures fresh(p) && Represents(objs + [p], Create(m, name).nodes)
  {
    p := new TreeNode(name);
    if stk != [] {
      stk[|stk| - 1].AddChild(p);
    }
    ghost var objs', nodes' := objs + [p], Create(m, name).nodes;
    forall i: nat | i < |objs'| ensures ShowsAt(objs', nodes', i) {
      if i < |objs| {
        assert old(ShowsAt(objs, m.nodes, i));
      }
      if stk != [] {
        assert old(ShowsAt(objs, m.nodes, m.stack[|m.stack| - 1]));
      }
    }
  }

  /** The switch on the operator character; p is the node that was made last. */
  method ApplyOp(c: char, p: TreeNode?, stk: seq<TreeNode>, ghost objs: seq<TreeNode>, ghost m: Machine)
    returns (r: seq<TreeNode>)
    requires |objs| == |m.nodes| && StackOf(stk, objs, m.stack)
    requires c == '{' ==> m.last < |objs| && p == objs[m.last]
    ensures StackOf(r, objs, Operate(m, c).stack)
  {
    r := stk;
    if c == '{' {
      r := r + [p];
    } else if c == '}' {
      if r != [] {
        r := r[..|r| - 1];
      }
    }
  }

  /** The program's variables and the machine agree. */
  ghost predicate Agree(tree: TreeNode?, p: TreeNode?, stk: seq<TreeNode>, objs: seq<TreeNode>, m: Machine)
    reads objs
  {
    && Represents(objs, m.nodes) && StackOf(stk, objs, m.stack)
    && tree == (if objs == [] then null else objs[0])
    && (objs != [] ==> m.last < |objs| && p == objs[m.last])
  }

  /** The body of create_tree's loop, once the operator is found. */
  method Turn(name: string, c: char, tree: TreeNode?, p: TreeNode?, stk: seq<TreeNode>,
              ghost objs: seq<TreeNode>, ghost m: Machine)
    returns (tree': TreeNode?, p': TreeNode?, stk': seq<TreeNode>, ghost objs': seq<TreeNode>)
    requires Agree(tree, p, stk, objs, m) && (c == '{' ==> name != "" || m.nodes != [])
    modifies objs
    ensures Agree(tree', p', stk', objs', TurnOf(name, c, m))
    ensures objs' == objs || (|objs'| == |objs| + 1 && objs' == objs + [objs'[|objs|]] && fresh(objs'[|objs|]))
  {
    tree', p', objs' := tree, p, objs;
    ghost var m1 := m;
    if name != "" {
      var q := MakeNode(name, stk, objs, m);
      if tree' == null {
        tree' := q;
      }
      p', objs', m1 := q, objs + [q], Create(m, name);
    }
    stk' := ApplyOp(c, p', stk, objs', m1);
  }

  ghost predicate TurnAt(ts: seq<Token>, ms: seq<Machine>, k: nat)
    requires k < |ts| < |ms|
  {
    ms[k + 1] == TurnOf(ts[k].name, ts[k].op, ms[k])
  }

  /** The machines between the parser's turns. */
  ghost predicate Turns(ts: seq<Token>, ms: seq<Machine>) {
    |ms| == |ts| + 1 && forall k: nat :: k < |ts| ==> TurnAt(ts, ms, k)
  }

  lemma {:induction false} MachinesOf(ts: seq<Token>, m: Machine) returns (ms: seq<Machine>)
    ensures Turns(ts, ms) && ms[0] == m && ms[|ts|] == Run(ts, m)
  {
    if ts == [] {
      ms := [m];
    } else {
      var rest := MachinesOf(ts[1..], TurnOf(ts[0].name, ts[0].op, m));
      ms := [m] + rest;
      forall k: nat | k < |ts| ensures TurnAt(ts, ms, k) {
        assert k > 0 ==> TurnAt(ts[1..], rest, k - 1);
      }
    }
  }

  /** The parser is at position pos of its text, between two turns; a name before means a node. */
  ghost predicate ReadTo(str: string, pos: nat, ts: seq<Token>, i: nat, m: Machine) {
    pos <= |str| && i <= |ts| && Tokens(str, pos) == ts[i..] && (m.nodes == [] ==> !NameBefore(str, pos))
  }

  lemma ReadTurn(str: string, lastPos: nat, pos: nat, ts: seq<Token>, i: nat, m: Machine)
    requires ReadTo(str, lastPos, ts, i, m) && pos == FindOp(str, lastPos)
    ensures pos == |str| ==> i == |ts|
    ensures pos < |str| ==>
              i < |ts| && ts[i] == Token(str[lastPos..pos], str[pos]) &&
              ReadTo(str, pos + 1, ts, i + 1, TurnOf(ts[i].name, ts[i].op, m))
    ensures Parsable(str) && pos < |str| && str[pos] == '{' ==> lastPos < pos || m.nodes != []
  {
    if pos < |str| {
      assert ts[i..][0] == Token(str[lastPos..pos], str[pos]) && ts[i..][1..] == ts[i + 1..];
    }
  }

  /** One turn of the loop, from the operator found at pos to behind it. */
  method Advance(str: string, lastPos: nat, pos: nat, tree: TreeNode?, p: TreeNode?, stk: seq<TreeNode>,
                 ghost objs: seq<TreeNode>, ghost ts: seq<Token>, ghost ms: seq<Machine>, ghost i: nat)
    returns (tree': TreeNode?, p': TreeNode?, stk': seq<TreeNode>, ghost objs': seq<TreeNode>)
    requires Parsable(str) && lastPos <= |str| && pos == FindOp(str, lastPos) && pos < |str|
    requires Turns(ts, ms) && i < |ts| && ReadTo(str, lastPos, ts, i, ms[i]) && Agree(tree, p, stk, objs, ms[i])
    modifies objs
    ensures ReadTo(str, pos + 1, ts, i + 1, ms[i + 1]) && Agree(tree', p', stk', objs', ms[i + 1])
    ensures |objs| <= |objs'| && forall i :: 0 <= i < |objs'| ==> if i < |objs| then objs'[i] == objs[i] else fresh(objs'[i])
  {
    ReadTurn(str, lastPos, pos, ts, i, ms[i]);
    assert TurnAt(ts, ms, i);
    tree', p', stk', objs' := Turn(str[lastPos..pos], str[pos], tree, p, stk, objs, ms[i]);
  }

  /** create_tree: the parser, with real nodes.  The result is the root, or null if no node was made. */
  method CreateTree(str: string) returns (tree: TreeNode?, ghost objs: seq<TreeNode>)
    requires Parsable(str)
    ensures Represents(objs, Parse(str).nodes) && forall k :: 0 <= k < |objs| ==> fresh(objs[k])
    ensures tree == if objs == [] then null else objs[0]
  {
    tree, objs := null, [];
    var p: TreeNode? := null;
    var stk: seq<TreeNode> := [];
    var lastPos := 0;
    ghost var ts := Tokens(str, 0);
    ghost var ms := MachinesOf(ts, START);
    ghost var i := 0;
    while true
      invariant i <= |ts| && lastPos <= |str| && ReadTo(str, lastPos, ts, i, ms[i])
      invariant Agree(tree, p, stk, objs, ms[i])
      invariant forall k :: 0 <= k < |objs| ==> fresh(objs[k])
      decreases |str| - lastPos
    {
      var pos := FindOp(str, lastPos);
      ReadTurn(str, lastPos, pos, ts, i, ms[i]);
      if pos == |str| {
        break;
      }
      ghost var before := objs;
      tree, p, stk, objs := Advance(str, lastPos, pos, tree, p, stk, objs, ts, ms, i);
      forall k | 0 <= k < |objs| ensures fresh(objs[k]) {
        assert k < |before| ==> fresh(before[k]);
      }
      i := i + 1;
      lastPos := pos + 1;
      if lastPos == |str| {
        ReadTurn(str, lastPos, lastPos, ts, i, ms[i]);
        break;
      }
    }
  }

  lemma {:induction false} LevelsOfAppend(ts: seq<Tree>, t: Tree, name: string, level: int)
    ensures LevelsOf(ts + [t], name, level) == LevelsOf(ts, name, level) + Levels(t, name, level)
  {
    if ts == [] {
      assert (ts + [t])[1..] == [];
    } else {
      assert (ts + [t])[1..] == ts[1..] + [t];
      LevelsOfAppend(ts[1..], t, name, level);
    }
  }

  /** The depths at which a name occurs in the tree that a text describes. */
  ghost function DepthsIn(record: string, name: string): set<int>
  {
    RunSound(Tokens(record, 0), START);
    var nodes := Parse(record).nodes;
    if nodes == [] then {} else Levels(TreeAt(nodes, 0), name, 1)
  }

  /** The program's two global variables. */
  class Query {
    var result: set<int>
    var searchObj: string

    constructor () {
      result, searchObj := {}, "";
    }

    /** Collects the levels at which searchObj occurs below p, which is null or node number i. */
    method Traverse(p: TreeNode?, level: int, ghost objs: seq<TreeNode>, ghost nodes: seq<Rec>, ghost i: nat)
      requires Linked(nodes) && Represents(objs, nodes)
      requires p != null ==> i < |objs| && p == objs[i]
      modifies this`result
      ensures result == old(result) + if p == null then {} else Levels(TreeAt(nodes, i), searchObj, level)
      decreases |nodes| - i
    {
      if p == null {
        return;
      }
      assert ShowsAt(objs, nodes, i);
      ghost var kids := TreeAt(nodes, i).children;
      if p.data == searchObj {
        result := result + {level};
      }
      ghost var own := result;
      assert kids[..0] == [];
      for k := 0 to |p.children|
        invariant result == own + LevelsOf(kids[..k], searchObj, level + 1)
      {
        assert p.children[k] == objs[nodes[i].kids[k]];
        Traverse(p.children[k], level + 1, objs, nodes, nodes[i].kids[k]);
        LevelsOfAppend(kids[..k], kids[k], searchObj, level + 1);
        assert kids[..k + 1] == kids[..k] + [kids[k]];
      }
      assert kids[..|p.children|] == kids;
    }

    /** The body of the program's loop: one record and one name. */
    method Answer(record: string, name: string)
      requires Parsable(record)
      modifies this
      ensures result == DepthsIn(record, name)
    {
      searchObj := name;
      result := {};
      var tree, objs := CreateTree(record);
      RunSound(Tokens(record, 0), START);
      Traverse(tree, 1, objs, Parse(record).nodes, 0);
    }
  }

  /** For a printed tree the program's answer is exactly the set of depths, the root's being 1, at which
      the name occurs; except that a tree without children gives the empty answer. */
  lemma AnswerIsDepths(t: Tree, name: string, d: int)
    requires GoodTree(t)
    ensures Parsable(Print(t))
    ensures d in DepthsIn(Print(t), name) <==>
            t.children != [] && exists path :: NamedAt(t, path, name) && d == |path| + 1
  {
    PrintedIsParsable(t);
    if t.children == [] {
      SingleNodeIsLost(t);
    } else {
      RoundTrip(t);
      LevelsAreDepths(t, name, d);
    }
  }
}
