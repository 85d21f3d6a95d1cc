/**
  The "du" command of the debugging shell: a preorder walk that keeps no stack and finds its way
  by the children, next and parent pointers of the nodes.
 */
module ShellDu {

  datatype Kind = Document | Element(name: string) | EntityRef | Other

  /** A node of the document; `name` of an element includes its prefix. */
  class Node {
    var kind: Kind
    var children: Node?
    var next: Node?
    var parent: Node?

    constructor (kind: Kind)
      ensures this.kind == kind && children == null && next == null && parent == null
    {
      this.kind, children, next, parent := kind, null, null, null;
    }
  }

  // ----- The tree the pointers describe -----

  datatype Tree = Tree(root: Node, kind: Kind, kids: seq<Tree>)

  /** The first of a list of siblings, null if there is none. */
  ghost function First(ts: seq<Tree>): Node? {
    if ts == [] then null else ts[0].root
  }

  /**
    The pointers below a node form this tree. The children of an entity reference belong to the
    entity, not to the tree; documents are only at the top.
   */
  ghost predicate Linked(t: Tree, all: set<Node>)
    reads all
    decreases t, 0
  {
    && t.root in all && t.root.kind == t.kind
    && (if t.kind == EntityRef then t.kids == []
        else t.root.children == First(t.kids) && Siblings(t.kids, t.root, all))
  }

  ghost predicate Siblings(ts: seq<Tree>, parent: Node, all: set<Node>)
    reads all
    decreases ts, 1
  {
    forall i :: 0 <= i < |ts| ==>
      && Linked(ts[i], all) && ts[i].kind != Document
      && ts[i].root.parent == parent && ts[i].root.next == First(ts[i + 1..])
  }

  function Size(t: Tree): nat
    decreases t, 0
  {
    1 + SizeAll(t.kids)
  }

  function SizeAll(ts: seq<Tree>): nat
    decreases ts, 1
  {
    if ts == [] then 0 else Size(ts[0]) + SizeAll(ts[1..])
  }

  /** The pointers below a node determine the tree. */
  lemma {:induction false} LinkedOnce(t: Tree, u: Tree, all: set<Node>)
    requires Linked(t, all) && Linked(u, all) && t.root == u.root
    ensures t == u
    decreases t, 0
  {
    if t.kind != EntityRef {
      SiblingsOnce(t.kids, u.kids, t.root, all);
    }
  }

  lemma {:induction false} SiblingsOnce(ts: seq<Tree>, us: seq<Tree>, parent: Node, all: set<Node>)
    requires Siblings(ts, parent, all) && Siblings(us, parent, all) && First(ts) == First(us)
    ensures ts == us
    decreases ts, 1
  {
    if ts != [] {
      LinkedOnce(ts[0], us[0], all);
      SiblingsTail(ts, parent, all);
      SiblingsTail(us, parent, all);
      SiblingsOnce(ts[1..], us[1..], parent, all);
      assert ts == [ts[0]] + ts[1..] && us == [us[0]] + us[1..];
    }
  }

  lemma SiblingsTail(ts: seq<Tree>, parent: Node, all: set<Node>)
    requires Siblings(ts, parent, all) && ts != []
    ensures Siblings(ts[1..], parent, all)
  {
    hide Linked;
    forall i | 0 <= i < |ts[1..]|
      ensures ts[1..][i] == ts[i + 1] && ts[1..][i + 1..] == ts[i + 2..]
    {
    }
  }

  // ----- The recursive walk -----

  /** A visit: a node, its kind, and the indentation it is visited with. */
  datatype Visit = Visit(node: Node, kind: Kind, indent: int)

  /** The recursive preorder: a document does not indent what it holds. */
  function Preorder(t: Tree, indent: int): seq<Visit>
    decreases t, 0
  {
    [Visit(t.root, t.kind, indent)] + PreorderAll(t.kids, if t.kind == Document then indent else indent + 1)
  }

  function PreorderAll(ts: seq<Tree>, indent: int): seq<Visit>
    decreases ts, 1
  {
    if ts == [] then [] else Preorder(ts[0], indent) + PreorderAll(ts[1..], indent)
  }

  function Spaces(n: int): string {
    if n <= 0 then "" else "  " + Spaces(n - 1)
  }

  /** The line for a node; nothing for what is neither document nor element. */
  function Line(kind: Kind, indent: int): string {
    match kind
    case Document => "/\n"
    case Element(name) => Spaces(indent) + name + "\n"
    case _ => ""
  }

  function Lines(visits: seq<Visit>): string {
    if visits == [] then ""
    else Lines(visits[..|visits| - 1]) + Line(visits[|visits| - 1].kind, visits[|visits| - 1].indent)
  }

  // ----- Places in the tree -----

  /** A place: the child numbers on the way down from the top. */
  predicate IsPlace(t: Tree, at: seq<nat>)
    decreases at
  {
    at == [] || (at[0] < |t.kids| && IsPlace(t.kids[at[0]], at[1..]))
  }

  function Sub(t: Tree, at: seq<nat>): Tree
    requires IsPlace(t, at)
    decreases at
  {
    if at == [] then t else Sub(t.kids[at[0]], at[1..])
  }

  function Up(at: seq<nat>): seq<nat>
    requires at != []
  {
    at[..|at| - 1]
  }

  function Last(at: seq<nat>): nat
    requires at != []
  {
    at[|at| - 1]
  }

  lemma {:induction false} Child(t: Tree, at: seq<nat>, i: nat)
    requires IsPlace(t, at) && i < |Sub(t, at).kids|
    ensures IsPlace(t, at + [i]) && Sub(t, at + [i]) == Sub(t, at).kids[i]
    decreases at
  {
    if at == [] {
      assert [] + [i] == [i] && [i][1..] == [];
    } else {
      assert (at + [i])[1..] == at[1..] + [i];
      Child(t.kids[at[0]], at[1..], i);
    }
  }

  lemma {:induction false} Parent(t: Tree, at: seq<nat>)
    requires IsPlace(t, at) && at != []
    ensures IsPlace(t, Up(at)) && Last(at) < |Sub(t, Up(at)).kids| && Sub(t, at) == Sub(t, Up(at)).kids[Last(at)]
    decreases at
  {
    if |at| > 1 {
      assert at[1..][..|at| - 2] == Up(at)[1..];
      Parent(t.kids[at[0]], at[1..]);
    }
  }

  lemma {:induction false} Deeper(t: Tree, at: seq<nat>)
    requires IsPlace(t, at)
    ensures at != [] ==> Size(Sub(t, at)) < Size(t)
    decreases at
  {
    if at != [] {
      KidSize(t.kids, at[0]);
      Deeper(t.kids[at[0]], at[1..]);
    }
  }

  lemma {:induction false} KidSize(ts: seq<Tree>, i: nat)
    requires i < |ts|
    ensures Size(ts[i]) <= SizeAll(ts)
    decreases i
  {
    if i > 0 {
      KidSize(ts[1..], i - 1);
    }
  }

  lemma {:induction false} LinkedAt(t: Tree, at: seq<nat>, all: set<Node>)
    requires Linked(t, all) && IsPlace(t, at)
    ensures Linked(Sub(t, at), all)
    decreases at
  {
    if at != [] {
      LinkedAt(t.kids[at[0]], at[1..], all);
    }
  }

  /** The pointers at a place: the top is met nowhere else, and everything below it hangs together. */
  lemma PlacePointers(t: Tree, at: seq<nat>, all: set<Node>)
    requires Linked(t, all) && IsPlace(t, at)
    ensures Linked(Sub(t, at), all)
    ensures Sub(t, at).root == t.root <==> at == []
    ensures at != [] ==>
      && IsPlace(t, Up(at)) && Last(at) < |Sub(t, Up(at)).kids|
      && Sub(t, at).root.parent == Sub(t, Up(at)).root
      && Sub(t, at).root.next == First(Sub(t, Up(at)).kids[Last(at) + 1..])
      && Sub(t, at).kind != Document
  {
    hide Size;
    LinkedAt(t, at, all);
    if at != [] {
      Deeper(t, at);
      if Sub(t, at).root == t.root { LinkedOnce(t, Sub(t, at), all); }
      Parent(t, at);
      LinkedAt(t, Up(at), all);
    }
  }

  lemma {:induction false} SiblingsFrom(ts: seq<Tree>, i: nat, parent: Node, all: set<Node>)
    requires Siblings(ts, parent, all) && i <= |ts|
    ensures Siblings(ts[i..], parent, all)
    decreases i
  {
    hide Linked, Siblings;
    if i > 0 {
      SiblingsTail(ts, parent, all);
      SiblingsFrom(ts[1..], i - 1, parent, all);
      assert ts[1..][i - 1..] == ts[i..];
    } else {
      assert ts[0..] == ts;
    }
  }

  /** No node is met at two places, so the preorder visits every node once. */
  lemma {:induction false} PlacesApart(t: Tree, a: seq<nat>, b: seq<nat>, all: set<Node>)
    requires Linked(t, all) && IsPlace(t, a) && IsPlace(t, b) && Sub(t, a).root == Sub(t, b).root
    ensures a == b
    decreases |a|
  {
    hide IsPlace, Sub, Siblings;
    PlacePointers(t, a, all);
    PlacePointers(t, b, all);
    if a != [] {
      PlacesApart(t, Up(a), Up(b), all);
      var p := Sub(t, Up(a));
      var i, j := Last(a), Last(b);
      LinkedAt(t, Up(a), all);
      SiblingsFrom(p.kids, i, p.root, all);
      SiblingsFrom(p.kids, j, p.root, all);
      Parent(t, a);
      Parent(t, b);
      SiblingsOnce(p.kids[i..], p.kids[j..], p.root, all);
      assert |p.kids[i..]| == |p.kids| - i && |p.kids[j..]| == |p.kids| - j;
      assert a == Up(a) + [i] && b == Up(b) + [j];
    }
  }

  /** The indentation of the nodes at depth `n`. */
  function IndentAt(t: Tree, n: nat): int {
    if t.kind == Document then n - 1 else n
  }

  /** The indentation at a place. */
  function Indent(t: Tree, at: seq<nat>): int {
    if at == [] then 0 else IndentAt(t, |at|)
  }

  /** The visit of the node at a place. */
  function Here(t: Tree, at: seq<nat>): Visit
    requires IsPlace(t, at)
  {
    Visit(Sub(t, at).root, Sub(t, at).kind, Indent(t, at))
  }

  /** What comes after the subtree at a place. */
  function After(t: Tree, at: seq<nat>): seq<Visit>
    requires IsPlace(t, at)
    decreases |at|
  {
    if at == [] then []
    else
      Parent(t, at);
      PreorderAll(Sub(t, Up(at)).kids[Last(at) + 1..], IndentAt(t, |at|)) + After(t, Up(at))
  }

  /** The place and everything after it. */
  function From(t: Tree, at: seq<nat>): seq<Visit>
    requires IsPlace(t, at)
  {
    Preorder(Sub(t, at), Indent(t, at)) + After(t, at)
  }

  lemma FromTop(t: Tree)
    ensures From(t, []) == Preorder(t, 0)
  {
  }

  /** After the last kid before `i` come the kids from `i` on and then what follows their parent. */
  lemma AfterKids(t: Tree, at: seq<nat>, i: nat)
    requires IsPlace(t, at) && i < |Sub(t, at).kids|
    ensures IsPlace(t, at + [i]) && Sub(t, at + [i]) == Sub(t, at).kids[i]
    ensures PreorderAll(Sub(t, at).kids[i..], IndentAt(t, |at| + 1)) + After(t, at) == From(t, at + [i])
  {
    hide Sub, IsPlace, Preorder, PreorderAll, After;
    Child(t, at, i);
    var kids := Sub(t, at).kids;
    AfterChild(t, at, i);
    PreorderFrom(kids, i, IndentAt(t, |at| + 1));
    var a, b, c := Preorder(kids[i], IndentAt(t, |at| + 1)), PreorderAll(kids[i + 1..], IndentAt(t, |at| + 1)),
        After(t, at);
    assert (a + b) + c == a + (b + c);
  }

  lemma AfterChild(t: Tree, at: seq<nat>, i: nat)
    requires IsPlace(t, at) && i < |Sub(t, at).kids| && IsPlace(t, at + [i])
    ensures After(t, at + [i]) == PreorderAll(Sub(t, at).kids[i + 1..], IndentAt(t, |at| + 1)) + After(t, at)
  {
    hide Sub, IsPlace, PreorderAll;
    assert Up(at + [i]) == at && Last(at + [i]) == i;
  }

  lemma PreorderFrom(ts: seq<Tree>, i: nat, indent: int)
    requires i < |ts|
    ensures PreorderAll(ts[i..], indent) == Preorder(ts[i], indent) + PreorderAll(ts[i + 1..], indent)
  {
    hide Preorder;
    assert ts[i..][1..] == ts[i + 1..] && ts[i..][0] == ts[i];
  }

  /** After a node come its first child and what follows that, if there is one. */
  lemma FromDown(t: Tree, at: seq<nat>)
    requires IsPlace(t, at) && Sub(t, at).kids != [] && (at != [] ==> Sub(t, at).kind != Document)
    ensures IsPlace(t, at + [0]) && From(t, at) == [Here(t, at)] + From(t, at + [0])
    ensures Indent(t, at + [0]) == if Sub(t, at).kind == Document then Indent(t, at) else Indent(t, at) + 1
    ensures Sub(t, at + [0]) == Sub(t, at).kids[0]
  {
    hide IsPlace, PreorderAll, After;
    AfterKids(t, at, 0);
    var kids := Sub(t, at).kids;
    assert kids[0..] == kids;
    var v, a, b := Here(t, at), PreorderAll(kids, IndentAt(t, |at| + 1)), After(t, at);
    assert ([v] + a) + b == [v] + (a + b);
  }

  lemma FromLeaf(t: Tree, at: seq<nat>)
    requires IsPlace(t, at) && Sub(t, at).kids == []
    ensures From(t, at) == [Here(t, at)] + After(t, at)
  {
    hide IsPlace, Sub, After;
    var v := Here(t, at);
    assert PreorderAll(Sub(t, at).kids, Indent(t, at)) == PreorderAll(Sub(t, at).kids, Indent(t, at) + 1) == [];
    assert [v] + [] == [v];
  }

  /** After a subtree comes its next sibling and what follows that, if there is one. */
  lemma AfterSibling(t: Tree, at: seq<nat>)
    requires IsPlace(t, at) && at != []
    ensures IsPlace(t, Up(at)) && Last(at) < |Sub(t, Up(at)).kids|
    ensures var n := Last(at) + 1;
            if n < |Sub(t, Up(at)).kids|
            then IsPlace(t, Up(at) + [n]) && Sub(t, Up(at) + [n]) == Sub(t, Up(at)).kids[n]
              && After(t, at) == From(t, Up(at) + [n])
            else After(t, at) == After(t, Up(at))
  {
    hide IsPlace, Sub, From;
    Parent(t, at);
    var n := Last(at) + 1;
    var kids := Sub(t, Up(at)).kids;
    if n < |kids| {
      AfterKids(t, Up(at), n);
    } else {
      assert kids[n..] == [];
      assert [] + After(t, Up(at)) == After(t, Up(at));
    }
  }

  // ----- The walk -----

  /** What the loop has printed and where it stands. */
  ghost predicate Underway(t: Tree, at: seq<nat>, node: Node?, visited: seq<Visit>, rest: seq<Visit>) {
    && IsPlace(t, at) && node == Sub(t, at).root && visited + rest == Preorder(t, 0)
  }

  /** fprintf of a line */
  method PrintNode(node: Node, indent: int) returns (line: string)
    ensures line == Line(node.kind, indent)
  {
    line := "";
    if node.kind == Document {
      line := "/\n";
    } else if node.kind.Element? {
      var i := 0;
      while i < indent
        invariant line + Spaces(indent - i) == Spaces(indent)
      {
        assert line + ("  " + Spaces(indent - i - 1)) == (line + "  ") + Spaces(indent - i - 1);
        line := line + "  ";
        i := i + 1;
      }
      assert line + "" == line;
      line := line + node.kind.name + "\n";
    }
  }

  /** The loop that climbs to the next sibling of an ancestor; null when the start is reached. */
  method Climb(ghost t: Tree, ghost at: seq<nat>, ghost all: set<Node>, start: Node, from: Node, level: int)
    returns (node: Node?, indent: int, ghost to: seq<nat>)
    requires Linked(t, all) && IsPlace(t, at) && at != [] && start == t.root && from == Sub(t, at).root
    requires from.next == null && level == Indent(t, at)
    ensures node == null ==> After(t, at) == []
    ensures node != null ==>
      && IsPlace(t, to) && to != [] && node == Sub(t, to).root && indent == Indent(t, to) && After(t, at) == From(t, to)
  {
    hide Linked, Siblings, Preorder, PreorderAll, From, After;
    node, indent, to := from, level, at;
    PlacePointers(t, to, all);
    while node != start
      invariant node != null && IsPlace(t, to) && node == Sub(t, to).root
      invariant to != [] ==> indent == Indent(t, to) && node.next == null
      invariant After(t, at) == After(t, to)
      decreases |to|
    {
      PlacePointers(t, to, all);
      AfterSibling(t, to);
      if node.parent != null {
        node := node.parent;
        indent := indent - 1;
      }
      to := Up(to);
      PlacePointers(t, to, all);
      if node != start && node.next != null {
        AfterSibling(t, to);
        node := node.next;
        to := Up(to) + [Last(to) + 1];
        break;
      }
      if node.parent == null || node == start {
        AfterTop(t);
        node := null;
        return;
      }
    }
    if node == start {
      PlacePointers(t, to, all);
      AfterTop(t);
      node := null;
    }
  }

  lemma AfterTop(t: Tree)
    ensures After(t, []) == []
  {
  }

  lemma LinesNone()
    ensures Lines([]) == ""
  {
  }

  lemma LinesMore(visits: seq<Visit>, v: Visit)
    ensures Lines(visits + [v]) == Lines(visits) + Line(v.kind, v.indent)
  {
    assert (visits + [v])[..|visits|] == visits;
  }

  /** The kind and the children pointer of the node at a place. */
  lemma NodeAt(t: Tree, at: seq<nat>, all: set<Node>)
    requires Linked(t, all) && IsPlace(t, at)
    ensures var s := Sub(t, at);
            && s.root.kind == s.kind
            && (if s.kind == EntityRef then s.kids == [] else s.root.children == First(s.kids))
  {
    LinkedAt(t, at, all);
  }

  /**
    xmlShellDu: visits exactly the nodes of the recursive preorder, in that order and with the
    depth as indentation, prints their lines, and stops within the subtree.
   */
  method Du(ghost t: Tree, ghost all: set<Node>, start: Node) returns (output: string, ghost visited: seq<Visit>)
    requires Linked(t, all) && start == t.root
    ensures visited == Preorder(t, 0)
    ensures output == Lines(Preorder(t, 0))
  {
    hide Linked, Siblings, Preorder, PreorderAll, From, After, Lines, Line;
    output, visited := "", [];
    var node: Node? := start;
    var indent := 0;
    ghost var at: seq<nat> := [];
    FromTop(t);
    LinesNone();
    assert [] + From(t, []) == From(t, []);
    while node != null
      invariant output == Lines(visited)
      invariant node == null ==> visited == Preorder(t, 0)
      invariant node != null ==>
        IsPlace(t, at) && node == Sub(t, at).root && indent == Indent(t, at) && visited + From(t, at) == Preorder(t, 0)
      decreases |Preorder(t, 0)| - |visited|, node != null
    {
      PlacePointers(t, at, all);
      NodeAt(t, at, all);
      var line := PrintNode(node, indent);
      ghost var visit := Visit(node, node.kind, indent);
      LinesMore(visited, visit);
      output := output + line;
      ghost var before := visited;
      visited := visited + [visit];
      if node.kind == Document {
        if node.children != null {
          FromDown(t, at);
          assert visited + From(t, at + [0]) == before + ([visit] + From(t, at + [0]));
          at := at + [0];
        } else {
          FromLeaf(t, at);
          AfterTop(t);
          assert visited + After(t, at) == before + ([visit] + After(t, at));
          assert visited + [] == visited;
        }
        node := node.children;
      } else if node.children != null && node.kind != EntityRef {
        FromDown(t, at);
        assert visited + From(t, at + [0]) == before + ([visit] + From(t, at + [0]));
        at := at + [0];
        node := node.children;
        indent := indent + 1;
      } else {
        FromLeaf(t, at);
        assert visited + After(t, at) == before + ([visit] + After(t, at));
        if node != start && node.next != null {
          AfterSibling(t, at);
          node := node.next;
          at := Up(at) + [Last(at) + 1];
        } else if node != start {
          node, indent, at := Climb(t, at, all, start, node, indent);
          assert visited + [] == visited;
        } else {
          AfterTop(t);
          assert visited + [] == visited;
          node := null;
        }
      }
    }
  }

  // ----- What the walk comes to -----

  /** Document order: a place comes before those below it, and siblings come in order with all that is below them. */
  ghost predicate PlaceLess(a: seq<nat>, b: seq<nat>) {
    exists k :: 0 <= k <= |a| && k < |b| && a[..k] == b[..k] && (k == |a| || a[k] < b[k])
  }

  ghost predicate InOrder(places: seq<seq<nat>>) {
    forall i, j :: 0 <= i < j < |places| ==> PlaceLess(places[i], places[j])
  }

  function Prefixed(i: nat, places: seq<seq<nat>>): seq<seq<nat>> {
    seq(|places|, k requires 0 <= k < |places| => [i] + places[k])
  }

  lemma PrefixedLess(i: nat, a: seq<nat>, b: seq<nat>)
    requires PlaceLess(a, b)
    ensures PlaceLess([i] + a, [i] + b)
  {
    var k :| 0 <= k <= |a| && k < |b| && a[..k] == b[..k] && (k == |a| || a[k] < b[k]);
    assert ([i] + a)[..k + 1] == [i] + a[..k] && ([i] + b)[..k + 1] == [i] + b[..k];
  }

  lemma PrefixedOrder(i: nat, places: seq<seq<nat>>)
    requires InOrder(places)
    ensures InOrder(Prefixed(i, places))
    ensures forall p :: p in Prefixed(i, places) <==> p != [] && p[0] == i && p[1..] in places
  {
    hide PlaceLess;
    var l := Prefixed(i, places);
    forall a, b | 0 <= a < b < |l| ensures PlaceLess(l[a], l[b]) { PrefixedLess(i, places[a], places[b]); }
    forall p ensures p in l <==> p != [] && p[0] == i && p[1..] in places {
      if p in l {
        var k :| 0 <= k < |l| && l[k] == p;
        assert p[1..] == places[k];
      }
      if p != [] && p[0] == i && p[1..] in places {
        var k :| 0 <= k < |places| && places[k] == p[1..];
        assert l[k] == p;
      }
    }
  }

  /** The two lists one after the other. */
  lemma OrderAppend(l: seq<seq<nat>>, m: seq<seq<nat>>)
    requires InOrder(l) && InOrder(m) && forall p, q :: p in l && q in m ==> PlaceLess(p, q)
    ensures InOrder(l + m)
  {
    hide PlaceLess;
    forall i, j | 0 <= i < j < |l + m| ensures PlaceLess((l + m)[i], (l + m)[j]) {
      if i < |l| <= j { assert l[i] in l && m[j - |l|] in m; }
    }
  }

  /** The visits are those of the nodes at these places below `t`, each indented by its depth. */
  ghost predicate VisitsAt(t: Tree, places: seq<seq<nat>>, visits: seq<Visit>, indent: int) {
    |visits| == |places| && forall k ::
      0 <= k < |places| ==> IsPlace(t, places[k]) && VisitAt(t, places[k], visits[k], indent)
  }

  ghost predicate VisitAt(t: Tree, at: seq<nat>, v: Visit, indent: int)
    requires IsPlace(t, at)
  {
    v == Visit(Sub(t, at).root, Sub(t, at).kind, indent + |at|)
  }

  /** The kids from `i` on, in document order. */
  lemma {:induction false} WalkAll(t: Tree, i: nat, all: set<Node>, indent: int) returns (places: seq<seq<nat>>)
    requires i <= |t.kids| && Siblings(t.kids, t.root, all)
    ensures InOrder(places)
    ensures forall p :: p in places <==> p != [] && i <= p[0] && IsPlace(t, p)
    ensures VisitsAt(t, places, PreorderAll(t.kids[i..], indent), indent - 1)
    decreases t, 1, |t.kids| - i
  {
    if i == |t.kids| {
      places := [];
    } else {
      hide PlaceLess, Siblings, VisitsAt;
      KidAt(t, i, all);
      var kid := t.kids[i];
      var below := Walk(kid, all, indent);
      var rest := WalkAll(t, i + 1, all, indent);
      PrefixedOrder(i, below);
      places := Prefixed(i, below) + rest;
      forall p, q | p in Prefixed(i, below) && q in rest ensures PlaceLess(p, q) { FirstLess(p, q); }
      OrderAppend(Prefixed(i, below), rest);
      PreorderFrom(t.kids, i, indent);
      VisitsJoin(t, i, below, Preorder(kid, indent), rest, PreorderAll(t.kids[i + 1..], indent), indent);
    }
  }

  lemma KidAt(t: Tree, i: nat, all: set<Node>)
    requires Siblings(t.kids, t.root, all) && i < |t.kids|
    ensures Linked(t.kids[i], all) && t.kids[i].kind != Document
  {
  }

  lemma FirstLess(a: seq<nat>, b: seq<nat>)
    requires a != [] && b != [] && a[0] < b[0]
    ensures PlaceLess(a, b)
  {
    assert a[..0] == b[..0];
  }

  lemma VisitsJoin(t: Tree, i: nat, below: seq<seq<nat>>, here: seq<Visit>, rest: seq<seq<nat>>, there: seq<Visit>,
                   indent: int)
    requires i < |t.kids| && VisitsAt(t.kids[i], below, here, indent) && VisitsAt(t, rest, there, indent - 1)
    ensures VisitsAt(t, Prefixed(i, below) + rest, here + there, indent - 1)
  {
    var l := Prefixed(i, below);
    forall k | 0 <= k < |l| ensures IsPlace(t, l[k]) && VisitAt(t, l[k], here[k], indent - 1) {
      assert l[k][1..] == below[k];
      assert VisitAt(t.kids[i], below[k], here[k], indent);
    }
  }

  /** A node that is no document, and everything below it. */
  lemma {:induction false} Walk(t: Tree, all: set<Node>, indent: int) returns (places: seq<seq<nat>>)
    requires Linked(t, all) && t.kind != Document
    ensures InOrder(places) && (forall p :: p in places <==> IsPlace(t, p))
    ensures VisitsAt(t, places, Preorder(t, indent), indent)
    decreases t, 2
  {
    hide PlaceLess, VisitsAt;
    KidsLinked(t, all);
    var below := WalkAll(t, 0, all, indent + 1);
    assert t.kids[0..] == t.kids;
    places := TopFirst(t, below, PreorderAll(t.kids, indent + 1), indent, indent);
  }

  lemma KidsLinked(t: Tree, all: set<Node>)
    requires Linked(t, all)
    ensures Siblings(t.kids, t.root, all)
  {
  }

  /** The top in front of everything below it. */
  lemma TopFirst(t: Tree, below: seq<seq<nat>>, visits: seq<Visit>, indent: int, first: int)
    returns (places: seq<seq<nat>>)
    requires InOrder(below) && (forall p :: p in below <==> p != [] && 0 <= p[0] && IsPlace(t, p))
    requires VisitsAt(t, below, visits, indent)
    ensures places == [[]] + below && InOrder(places) && forall p :: p in places <==> IsPlace(t, p)
    ensures first == indent ==> VisitsAt(t, places, [Visit(t.root, t.kind, first)] + visits, indent)
  {
    places := [[]] + below;
    forall p, q | p in [[]] && q in below ensures PlaceLess(p, q) {
      assert p[..0] == q[..0];
    }
    OrderAppend([[]], below);
  }

  /**
    The preorder is the nodes at all places, in document order, each with its depth as
    indentation; below a document the depth counts from its children.
   */
  lemma PreorderIs(t: Tree, all: set<Node>) returns (places: seq<seq<nat>>)
    requires Linked(t, all)
    ensures InOrder(places) && (forall p :: p in places <==> IsPlace(t, p)) && |places| == |Preorder(t, 0)|
    ensures forall k :: 0 <= k < |places| ==>
              Preorder(t, 0)[k] == Visit(Sub(t, places[k]).root, Sub(t, places[k]).kind,
                                         if t.kind == Document && k > 0 then |places[k]| - 1 else |places[k]|)
  {
    hide PlaceLess, Siblings;
    KidsLinked(t, all);
    var d := if t.kind == Document then 0 else 1;
    var below := WalkAll(t, 0, all, d);
    assert t.kids[0..] == t.kids;
    places := TopFirst(t, below, PreorderAll(t.kids, d), d - 1, 0);
    forall k | 0 <= k < |places|
      ensures Preorder(t, 0)[k] == Visit(Sub(t, places[k]).root, Sub(t, places[k]).kind,
                                         if t.kind == Document && k > 0 then |places[k]| - 1 else |places[k]|)
    {
      if k > 0 {
        assert places[k] == below[k - 1] && VisitAt(t, below[k - 1], PreorderAll(t.kids, d)[k - 1], d - 1);
      }
    }
  }

  /** Two blanks for every level, the name, and the end of the line. */
  lemma {:induction false} SpacesIs(n: nat)
    ensures |Spaces(n)| == 2 * n && forall c :: c in Spaces(n) ==> c == ' '
  {
    if n > 0 { SpacesIs(n - 1); }
  }

  lemma {:induction false} LinesAppend(a: seq<Visit>, b: seq<Visit>)
    ensures Lines(a + b) == Lines(a) + Lines(b)
    decreases |b|
  {
    hide Lines, Line;
    if b == [] {
      LinesNone();
      assert a + b == a;
    } else {
      var init, v := b[..|b| - 1], b[|b| - 1];
      LinesAppend(a, init);
      LinesMore(a + init, v);
      LinesMore(init, v);
      assert a + b == a + init + [v] && b == init + [v];
      assert Lines(a) + Lines(init) + Line(v.kind, v.indent) == Lines(a) + (Lines(init) + Line(v.kind, v.indent));
    }
  }

  /** What stands between the lines before and after a visit: for an element its name behind two blanks per level. */
  lemma LineAt(visits: seq<Visit>, k: nat) returns (gap: string, text: string)
    requires k < |visits| && visits[k].indent >= 0
    ensures Lines(visits) == Lines(visits[..k]) + (gap + text) + Lines(visits[k + 1..])
    ensures forall c :: c in gap ==> c == ' '
    ensures match visits[k].kind
            case Element(name) => |gap| == 2 * visits[k].indent && text == name + "\n"
            case Document => gap == "" && text == "/\n"
            case _ => gap == "" && text == ""
  {
    var v := visits[k];
    SpacesIs(v.indent);
    gap := if v.kind.Element? then Spaces(v.indent) else "";
    text := if v.kind.Element? then v.kind.name + "\n" else if v.kind.Document? then "/\n" else "";
    assert Line(v.kind, v.indent) == gap + text;
    hide Lines, Line;
    assert visits == visits[..k] + [v] + visits[k + 1..];
    LinesAppend(visits[..k] + [v], visits[k + 1..]);
    LinesMore(visits[..k], v);
  }
}
