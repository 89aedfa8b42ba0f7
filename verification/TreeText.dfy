/**
 What the parser makes of any text, printed from a tree or not: its nodes are the names in front of operators,
 in order, and a node is the child of the name that stands before the innermost brace which is open there.
 A closing brace without an open one is skipped.
 */
module TreeText {
  import opened TreeFormat

  // ----- texts and tokens -----

  ghost predicate NoOps(s: string) {
    forall i :: 0 <= i < |s| ==> !IsOp(s[i])
  }

  function Spell(ts: seq<Token>): string {
    if ts == [] then "" else ts[0].name + [ts[0].op] + Spell(ts[1..])
  }

  lemma SpellFirst(t: Token, ts: seq<Token>)
    ensures Spell([t] + ts) == t.name + [t.op] + Spell(ts)
  {
    assert ([t] + ts)[1..] == ts;
  }

  lemma JoinRest(a: string, b: string, rest: string, tail: string)
    requires b + rest == tail
    ensures a + b + rest == a + tail
  {
  }

  /** The tokens are the text, cut behind each operator; what is behind the last one is not read. */
  lemma {:induction false} TokensSpell(s: string, from: nat) returns (rest: string)
    requires from <= |s|
    ensures Spell(Tokens(s, from)) + rest == s[from..] && NoOps(rest)
    decreases |s| - from
  {
    var k := FindOp(s, from);
    if k == |s| {
      NoToken(s, from);
      rest := s[from..];
    } else {
      rest := TokensSpell(s, k + 1);
      FirstToken(s, from, k);
      SpellFirst(Token(s[from..k], s[k]), Tokens(s, k + 1));
      JoinRest(s[from..k] + [s[k]], Spell(Tokens(s, k + 1)), rest, s[k + 1..]);
      assert s[from..] == s[from..k] + [s[k]] + s[k + 1..];
    }
  }

  ghost predicate Clean(t: Token) {
    NoOps(t.name) && IsOp(t.op)
  }

  lemma {:induction false} TokensClean(s: string, from: nat)
    requires from <= |s|
    ensures forall i :: 0 <= i < |Tokens(s, from)| ==> Clean(Tokens(s, from)[i])
    decreases |s| - from
  {
    var k := FindOp(s, from);
    if k == |s| {
      NoToken(s, from);
    } else {
      TokensClean(s, k + 1);
      FirstToken(s, from, k);
      assert Clean(Token(s[from..k], s[k]));
    }
  }

  // ----- names and braces -----

  /** The number of nodes that the first i tokens name. */
  function Made(ts: seq<Token>, i: nat): nat
    requires i <= |ts|
  {
    if i == 0 then 0 else Made(ts, i - 1) + if ts[i - 1].name != "" then 1 else 0
  }

  /** Opening braces minus closing braces, from token i to before token k. */
  function Balance(ts: seq<Token>, i: nat, k: nat): int
    requires i <= k <= |ts|
    decreases k
  {
    if i == k then 0
    else Balance(ts, i, k - 1) + if ts[k - 1].op == '{' then 1 else if ts[k - 1].op == '}' then -1 else 0
  }

  /** No more braces are closed than opened behind token b, up to before token k. */
  ghost predicate Balanced(ts: seq<Token>, b: nat, k: nat)
    requires b < k <= |ts|
  {
    Balance(ts, b + 1, k) >= 0
  }

  /** The brace that token b opens has not been closed before token i. */
  ghost predicate OpenAt(ts: seq<Token>, b: int, i: nat) {
    0 <= b < i <= |ts| && ts[b].op == '{' && forall k: nat :: b < k <= i ==> Balanced(ts, b, k)
  }

  ghost predicate Innermost(ts: seq<Token>, b: int, i: nat) {
    OpenAt(ts, b, i) && forall c :: b < c < i ==> !OpenAt(ts, c, i)
  }

  /** The name of token j stands inside a brace, and node p is the last one named before that brace. */
  ghost predicate ChildOf(ts: seq<Token>, j: nat, p: nat) {
    exists b :: Innermost(ts, b, j) && Made(ts, b + 1) == p + 1
  }

  /** Some name comes before every opening brace. */
  ghost predicate NamedBraces(ts: seq<Token>) {
    forall b: nat :: b < |ts| && ts[b].op == '{' ==> Made(ts, b + 1) > 0
  }

  ghost predicate Ascending(ids: seq<nat>) {
    forall i, j :: 0 <= i < j < |ids| ==> ids[i] < ids[j]
  }

  ghost predicate InOrder(ids: seq<nat>, n: nat) {
    Ascending(ids) && forall c :: c in ids ==> c < n
  }

  ghost predicate Named(ts: seq<Token>, j: nat) {
    j < |ts| && ts[j].name != ""
  }

  ghost predicate NodeOf(ts: seq<Token>, j: nat, nodes: seq<Rec>)
    requires j < |ts|
  {
    var c := Made(ts, j);
    && c < |nodes| && nodes[c].name == ts[j].name
    && forall p: nat :: p < |nodes| ==> (c in nodes[p].kids <==> ChildOf(ts, j, p))
  }

  /** The nodes are those that the first i tokens name, each with the children that belong to it, in order. */
  ghost predicate NodesOf(ts: seq<Token>, i: nat, nodes: seq<Rec>) {
    && i <= |ts| && |nodes| == Made(ts, i)
    && (forall j: nat :: j < i && Named(ts, j) ==> NodeOf(ts, j, nodes))
    && (forall p :: 0 <= p < |nodes| ==> InOrder(nodes[p].kids, |nodes|))
  }

  // ----- the stack -----

  /** The machine after the first i tokens. */
  function RunTo(ts: seq<Token>, i: nat): Machine
    requires i <= |ts|
  {
    if i == 0 then START else TurnOf(ts[i - 1].name, ts[i - 1].op, RunTo(ts, i - 1))
  }

  lemma {:induction false} RunFrom(ts: seq<Token>, i: nat)
    requires i <= |ts|
    ensures Run(ts, START) == Run(ts[i..], RunTo(ts, i))
  {
    if i > 0 {
      RunFrom(ts, i - 1);
      assert ts[i - 1..][1..] == ts[i..];
    }
  }

  /** Brace b is open, with so many open ones inside, and p is the node before it. */
  ghost predicate BraceAt(ts: seq<Token>, i: nat, p: nat, b: nat, inside: nat) {
    OpenAt(ts, b, i) && Balance(ts, b + 1, i) == inside && Made(ts, b + 1) == p + 1
  }

  ghost predicate BracesAre(ts: seq<Token>, i: nat, stack: seq<nat>, braces: seq<nat>) {
    && i <= |ts| && |stack| == |braces| && Ascending(braces)
    && (forall h :: 0 <= h < |braces| ==> BraceAt(ts, i, stack[h], braces[h], |braces| - 1 - h))
  }

  /** The stack is that of the open braces, outermost first. */
  ghost predicate StackIs(ts: seq<Token>, i: nat, stack: seq<nat>, braces: seq<nat>) {
    BracesAre(ts, i, stack, braces) && forall b: nat :: OpenAt(ts, b, i) ==> b in braces
  }

  lemma OpenOn(ts: seq<Token>, b: nat, i: nat)
    requires b < i < |ts|
    ensures OpenAt(ts, b, i + 1) <==> OpenAt(ts, b, i) && Balance(ts, b + 1, i + 1) >= 0
  {
    assert Balanced(ts, b, i + 1) <==> Balance(ts, b + 1, i + 1) >= 0;
  }

  lemma OpenNew(ts: seq<Token>, i: nat)
    requires i < |ts|
    ensures OpenAt(ts, i, i + 1) <==> ts[i].op == '{'
  {
    assert Balanced(ts, i, i + 1);
  }

  lemma NoneInside(ts: seq<Token>, i: nat, stack: seq<nat>, braces: seq<nat>, c: nat)
    requires StackIs(ts, i, stack, braces) && OpenAt(ts, c, i)
    ensures braces != [] && c <= braces[|braces| - 1]
  {
    assert c in braces;
    var h :| 0 <= h < |braces| && braces[h] == c;
  }

  lemma InnermostIs(ts: seq<Token>, i: nat, stack: seq<nat>, braces: seq<nat>, b: nat)
    requires StackIs(ts, i, stack, braces)
    ensures Innermost(ts, b, i) <==> braces != [] && b == braces[|braces| - 1]
  {
    forall c: nat | OpenAt(ts, c, i) ensures braces != [] && c <= braces[|braces| - 1] {
      NoneInside(ts, i, stack, braces, c);
    }
    if braces != [] {
      assert BraceAt(ts, i, stack[|braces| - 1], braces[|braces| - 1], 0);
    }
  }

  lemma BraceOn(ts: seq<Token>, i: nat, p: nat, b: nat, inside: nat)
    requires BraceAt(ts, i, p, b, inside) && i < |ts| && (ts[i].op == '}' ==> inside > 0)
    ensures BraceAt(ts, i + 1, p, b, inside + if ts[i].op == '{' then 1 else if ts[i].op == '}' then -1 else 0)
  {
    OpenOn(ts, b, i);
  }

  lemma BracesPushed(ts: seq<Token>, i: nat, stack: seq<nat>, braces: seq<nat>, p: nat)
    requires BracesAre(ts, i, stack, braces) && i < |ts| && ts[i].op == '{' && Made(ts, i + 1) == p + 1
    ensures BracesAre(ts, i + 1, stack + [p], braces + [i])
  {
    var n := |braces|;
    OpenNew(ts, i);
    assert BraceAt(ts, i + 1, p, i, 0);
    forall h | 0 <= h < n ensures braces[h] < i && BraceAt(ts, i + 1, stack[h], braces[h], n - h) {
      BraceOn(ts, i, stack[h], braces[h], n - 1 - h);
    }
    forall h | 0 <= h < n + 1 ensures BraceAt(ts, i + 1, (stack + [p])[h], (braces + [i])[h], n - h) {
    }
  }

  lemma StackOpens(ts: seq<Token>, i: nat, stack: seq<nat>, braces: seq<nat>, p: nat)
    requires StackIs(ts, i, stack, braces) && i < |ts| && ts[i].op == '{' && Made(ts, i + 1) == p + 1
    ensures StackIs(ts, i + 1, stack + [p], braces + [i])
  {
    OpenNew(ts, i);
    BracesPushed(ts, i, stack, braces, p);
    forall b: nat | OpenAt(ts, b, i + 1) ensures b in braces + [i] {
      if b < i {
        OpenOn(ts, b, i);
      }
    }
  }

  lemma StackCloses(ts: seq<Token>, i: nat, stack: seq<nat>, braces: seq<nat>)
    requires StackIs(ts, i, stack, braces) && i < |ts| && ts[i].op == '}' && braces != []
    ensures StackIs(ts, i + 1, stack[..|stack| - 1], braces[..|braces| - 1])
  {
    var n := |braces| - 1;
    forall h | 0 <= h < n ensures BraceAt(ts, i + 1, stack[h], braces[h], n - 1 - h) {
      BraceOn(ts, i, stack[h], braces[h], n - h);
    }
    OpenNew(ts, i);
    assert BraceAt(ts, i, stack[n], braces[n], 0);
    forall b: nat | OpenAt(ts, b, i + 1) ensures b in braces[..n] {
      OpenOn(ts, b, i);
      assert b in braces && b != braces[n];
    }
  }

  lemma StackStays(ts: seq<Token>, i: nat, stack: seq<nat>, braces: seq<nat>)
    requires StackIs(ts, i, stack, braces) && i < |ts| && ts[i].op != '{' && (ts[i].op == '}' ==> braces == [])
    ensures StackIs(ts, i + 1, stack, braces)
  {
    OpenNew(ts, i);
    forall h | 0 <= h < |braces| ensures BraceAt(ts, i + 1, stack[h], braces[h], |braces| - 1 - h) {
      BraceOn(ts, i, stack[h], braces[h], |braces| - 1 - h);
    }
    forall b: nat | OpenAt(ts, b, i + 1) ensures b in braces {
      OpenOn(ts, b, i);
    }
  }

  // ----- the nodes -----

  lemma {:induction false} MadeGrows(ts: seq<Token>, j: nat, i: nat)
    requires j <= i <= |ts|
    ensures Made(ts, j) <= Made(ts, i)
    ensures j < i && Named(ts, j) ==> Made(ts, j) < Made(ts, i)
  {
    if j < i {
      MadeGrows(ts, j, i - 1);
    }
  }

  /** The node on top of the stack is the parent of what is named next. */
  lemma TopIsParent(ts: seq<Token>, i: nat, stack: seq<nat>, braces: seq<nat>, p: nat)
    requires StackIs(ts, i, stack, braces)
    ensures ChildOf(ts, i, p) <==> stack != [] && p == stack[|stack| - 1]
  {
    if stack != [] {
      var n := |braces| - 1;
      assert BraceAt(ts, i, stack[n], braces[n], 0);
      InnermostIs(ts, i, stack, braces, braces[n]);
    }
    forall b: nat | Innermost(ts, b, i) ensures braces != [] && b == braces[|braces| - 1] {
      InnermostIs(ts, i, stack, braces, b);
    }
  }

  lemma NewIsNoParent(ts: seq<Token>, i: nat, j: nat)
    requires j <= i <= |ts|
    ensures !ChildOf(ts, j, Made(ts, i))
  {
    forall b: nat | Innermost(ts, b, j) ensures Made(ts, b + 1) <= Made(ts, i) {
      MadeGrows(ts, b + 1, i);
    }
  }

  lemma TopIsNode(ts: seq<Token>, i: nat, m: Machine, braces: seq<nat>)
    requires StackIs(ts, i, m.stack, braces) && |m.nodes| == Made(ts, i)
    ensures m.stack != [] ==> m.stack[|m.stack| - 1] < |m.nodes|
  {
    if m.stack != [] {
      var n := |braces| - 1;
      assert BraceAt(ts, i, m.stack[n], braces[n], 0);
      MadeGrows(ts, braces[n] + 1, i);
    }
  }

  lemma KidsInOrder(m: Machine, name: string)
    requires m.stack != [] ==> m.stack[|m.stack| - 1] < |m.nodes|
    requires forall p :: 0 <= p < |m.nodes| ==> InOrder(m.nodes[p].kids, |m.nodes|)
    ensures var nodes := Create(m, name).nodes;
            forall p :: 0 <= p < |nodes| ==> InOrder(nodes[p].kids, |nodes|)
  {
    var k, nodes := |m.nodes|, Create(m, name).nodes;
    forall p | 0 <= p < |nodes| ensures InOrder(nodes[p].kids, k + 1) {
      if p < k {
        var kids := m.nodes[p].kids;
        assert InOrder(kids, k);
        assert forall h :: 0 <= h < |kids| ==> kids[h] in kids;
      }
    }
  }

  lemma NewNode(ts: seq<Token>, i: nat, m: Machine, braces: seq<nat>)
    requires NodesOf(ts, i, m.nodes) && StackIs(ts, i, m.stack, braces) && Named(ts, i)
    ensures NodeOf(ts, i, Create(m, ts[i].name).nodes)
  {
    var k, nodes := |m.nodes|, Create(m, ts[i].name).nodes;
    TopIsNode(ts, i, m, braces);
    forall p: nat | p < |nodes| ensures k in nodes[p].kids <==> ChildOf(ts, i, p) {
      TopIsParent(ts, i, m.stack, braces, p);
      assert p < k ==> InOrder(m.nodes[p].kids, k);
    }
  }

  lemma OldNode(ts: seq<Token>, i: nat, m: Machine, braces: seq<nat>, j: nat)
    requires NodesOf(ts, i, m.nodes) && StackIs(ts, i, m.stack, braces) && Named(ts, i) && j < i && Named(ts, j)
    ensures NodeOf(ts, j, Create(m, ts[i].name).nodes)
  {
    TopIsNode(ts, i, m, braces);
    assert NodeOf(ts, j, m.nodes);
    MadeGrows(ts, j, i);
    NewIsNoParent(ts, i, j);
  }

  lemma NodesNext(ts: seq<Token>, i: nat, m: Machine, braces: seq<nat>)
    requires NodesOf(ts, i, m.nodes) && StackIs(ts, i, m.stack, braces) && Named(ts, i)
    ensures NodesOf(ts, i + 1, Create(m, ts[i].name).nodes)
  {
    TopIsNode(ts, i, m, braces);
    KidsInOrder(m, ts[i].name);
    forall j: nat | j < i + 1 && Named(ts, j) ensures NodeOf(ts, j, Create(m, ts[i].name).nodes) {
      if j < i {
        OldNode(ts, i, m, braces, j);
      } else {
        NewNode(ts, i, m, braces);
      }
    }
  }

  /** What holds after i tokens. */
  ghost predicate Describes(ts: seq<Token>, i: nat, m: Machine, braces: seq<nat>) {
    && NodesOf(ts, i, m.nodes) && StackIs(ts, i, m.stack, braces)
    && (m.nodes != [] ==> m.last == |m.nodes| - 1)
  }

  /** The name in front of the operator, if there is one, becomes a node. */
  lemma NameRead(ts: seq<Token>, i: nat, m: Machine, braces: seq<nat>) returns (m': Machine)
    requires Describes(ts, i, m, braces) && i < |ts|
    ensures m' == if ts[i].name != "" then Create(m, ts[i].name) else m
    ensures NodesOf(ts, i + 1, m'.nodes) && m'.stack == m.stack
    ensures m'.nodes != [] ==> m'.last == |m'.nodes| - 1
    ensures |m.nodes| <= |m'.nodes|
  {
    if ts[i].name != "" {
      NodesNext(ts, i, m, braces);
      m' := Create(m, ts[i].name);
    } else {
      m' := m;
      forall j: nat | j < i + 1 && Named(ts, j) ensures NodeOf(ts, j, m.nodes) {
      }
    }
  }

  /** The operator opens or closes a brace, or does neither. */
  lemma OperatorRead(ts: seq<Token>, i: nat, m: Machine, braces: seq<nat>) returns (braces': seq<nat>)
    requires NamedBraces(ts) && i < |ts| && StackIs(ts, i, m.stack, braces) && |m.nodes| == Made(ts, i + 1)
    requires m.nodes != [] ==> m.last == |m.nodes| - 1
    ensures StackIs(ts, i + 1, Operate(m, ts[i].op).stack, braces')
  {
    if ts[i].op == '{' {
      StackOpens(ts, i, m.stack, braces, m.last);
      braces' := braces + [i];
    } else if ts[i].op == '}' && m.stack != [] {
      StackCloses(ts, i, m.stack, braces);
      braces' := braces[..|braces| - 1];
    } else {
      StackStays(ts, i, m.stack, braces);
      braces' := braces;
    }
  }

  lemma DescribesNext(ts: seq<Token>, i: nat, m: Machine, braces: seq<nat>) returns (braces': seq<nat>)
    requires NamedBraces(ts) && Describes(ts, i, m, braces) && i < |ts|
    ensures Describes(ts, i + 1, TurnOf(ts[i].name, ts[i].op, m), braces')
  {
    var m' := NameRead(ts, i, m, braces);
    braces' := OperatorRead(ts, i, m', braces);
  }

  lemma {:induction false} RunDescribes(ts: seq<Token>, i: nat) returns (braces: seq<nat>)
    requires NamedBraces(ts) && i <= |ts|
    ensures Describes(ts, i, RunTo(ts, i), braces)
  {
    if i == 0 {
      braces := [];
    } else {
      var before := RunDescribes(ts, i - 1);
      braces := DescribesNext(ts, i - 1, RunTo(ts, i - 1), before);
    }
  }

  // ----- texts -----

  /** A place in the text behind its first k tokens; before the first name nothing but operators. */
  lemma {:induction false} PlaceOf(s: string, k: nat) returns (pos: nat)
    requires k <= |Tokens(s, 0)|
    ensures pos <= |s| && Tokens(s, pos) == Tokens(s, 0)[k..]
    ensures Made(Tokens(s, 0), k) == 0 ==> !NameBefore(s, pos)
  {
    var ts := Tokens(s, 0);
    if k == 0 {
      pos := 0;
    } else {
      var before := PlaceOf(s, k - 1);
      assert Tokens(s, before)[0] == ts[k - 1] && Tokens(s, before)[1..] == ts[k..];
      pos := FindOp(s, before) + 1;
    }
  }

  lemma BracesAreNamed(s: string)
    requires Parsable(s)
    ensures NamedBraces(Tokens(s, 0))
  {
    var ts := Tokens(s, 0);
    forall b: nat | b < |ts| && ts[b].op == '{' ensures Made(ts, b + 1) > 0 {
      var pos := PlaceOf(s, b);
      assert Tokens(s, pos)[0] == ts[b];
      var k := FindOp(s, pos);
      assert ts[b] == Token(s[pos..k], s[k]);
      if ts[b].name == "" {
        assert NameBefore(s, pos);
      }
    }
  }

  /** The nodes that parsing makes of a text: each name in front of an operator, as a child of the name before
      the innermost brace that is open there, in order. */
  lemma TextIsNodes(s: string)
    requires Parsable(s)
    ensures NodesOf(Tokens(s, 0), |Tokens(s, 0)|, Parse(s).nodes)
  {
    var ts := Tokens(s, 0);
    BracesAreNamed(s);
    var braces := RunDescribes(ts, |ts|);
    RunFrom(ts, |ts|);
    assert ts[|ts|..] == [];
  }
}
