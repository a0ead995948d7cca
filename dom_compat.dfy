/** The compatibility helpers of lib/DomCompat.js: root lookup, `closest`, removal,
    the four insertion helpers, scoped selectors and `toggleClass`. */
module DomCompat {
  import opened Base
  import opened Numbers
  import opened DomTree

  /** getRootNode: `null` for a missing node, otherwise its topmost ancestor. */
  method GetRootNode(t: Tree, el: Option<NodeId>) returns (r: Option<NodeId>)
    requires t.Valid() && (el.Some? ==> el.value in t.kind)
    ensures el.None? ==> r.None?
    ensures el.Some? ==> r == Some(RootOf(t.parent, t.anc, el.value))
  {
    if el.None? {
      return None;
    }
    var cur := el.value;
    while cur in t.parent
      invariant cur in t.anc && RootOf(t.parent, t.anc, cur) == RootOf(t.parent, t.anc, el.value)
      decreases t.anc[cur]
    {
      assert t.anc[t.parent[cur]] < t.anc[cur];
      cur := t.parent[cur];
    }
    return Some(cur);
  }

  /** The nodes `closest` tests: the node itself, then its ancestors for as long as
      they are elements. */
  ghost function ElementChain(kind: map<NodeId, NodeKind>, parent: map<NodeId, NodeId>,
                              anc: map<NodeId, set<NodeId>>, x: NodeId): (c: seq<NodeId>)
    requires AncestorsOf(parent, anc) && x in anc
    ensures |c| >= 1 && c[0] == x
    ensures forall k :: 0 <= k < |c| - 1 ==> c[k] in parent && parent[c[k]] == c[k + 1]
    ensures forall k :: 1 <= k < |c| ==> c[k] in kind && kind[c[k]].Element?
    ensures var last := c[|c| - 1]; !(last in parent && parent[last] in kind && kind[parent[last]].Element?)
    decreases anc[x]
  {
    if x in parent && parent[x] in kind && kind[parent[x]].Element? then
      assert anc[parent[x]] < anc[x];
      [x] + ElementChain(kind, parent, anc, parent[x])
    else [x]
  }

  /** The first node of `s` that the selector matches (`sel` is the set of nodes it
      matches), or `None`. */
  function FirstMatch(s: seq<NodeId>, sel: set<NodeId>): (r: Option<NodeId>)
    ensures r.None? <==> forall k :: 0 <= k < |s| ==> s[k] !in sel
    ensures r.Some? ==> exists i :: 0 <= i < |s| && s[i] == r.value && r.value in sel
                                    && forall j :: 0 <= j < i ==> s[j] !in sel
  {
    if |s| == 0 then None
    else if s[0] in sel then Some(s[0])
    else
      var r := FirstMatch(s[1..], sel);
      assert forall k :: 1 <= k < |s| ==> s[k] == s[1..][k - 1];
      r
  }

  /** closest: the nearest element, starting with `el` itself, that the selector
      matches. Calling it on a node that is not an element throws. */
  method Closest(t: Tree, el: NodeId, sel: set<NodeId>) returns (r: Result<Option<NodeId>>)
    requires t.Valid() && el in t.kind
    ensures !t.IsElement(el) ==> r == TypeError
    ensures t.IsElement(el) ==> r == Ok(FirstMatch(ElementChain(t.kind, t.parent, t.anc, el), sel))
  {
    if !t.IsElement(el) {
      return TypeError;
    }
    var cur := el;
    while true
      invariant cur in t.anc
      invariant FirstMatch(ElementChain(t.kind, t.parent, t.anc, cur), sel)
                == FirstMatch(ElementChain(t.kind, t.parent, t.anc, el), sel)
      decreases t.anc[cur]
    {
      if cur in sel {
        return Ok(Some(cur));
      }
      if cur in t.parent && t.IsElement(t.parent[cur]) {
        assert t.anc[t.parent[cur]] < t.anc[cur];
        cur := t.parent[cur];
      } else {
        return Ok(None);
      }
    }
  }

  /** remove: a missing node is ignored; an attached node leaves its parent. */
  method Remove(t: Tree, el: Option<NodeId>)
    requires t.Valid() && (el.Some? ==> el.value in t.kind)
    modifies t
    ensures t.Valid()
    ensures t.kind == old(t.kind)
    ensures el.None? || el.value !in old(t.parent) ==>
      t.parent == old(t.parent) && t.children == old(t.children)
    ensures el.Some? && el.value in old(t.parent) ==>
      var p := old(t.parent)[el.value];
      && p in old(t.children)
      && t.parent == old(t.parent) - {el.value}
      && t.children == old(t.children)[p := Without(old(t.children)[p], el.value)]
  {
    if el.Some? && el.value in t.parent {
      var p, i := t.Detach(el.value);
      WithoutAt(old(t.children)[p], i);
    }
  }

  /** An argument of the insertion helpers: a node, or any other value, which is
      inserted as a new text node holding its `String(value)`. */
  datatype NodeArg = NodeRef(id: NodeId) | TextArg(text: string)

  /** The node arguments exist, are detached, are neither documents nor fragments, and
      are distinct. */
  ghost predicate ArgsInsertable(t: Tree, args: seq<NodeArg>)
    reads t
  {
    && (forall k :: 0 <= k < |args| && args[k].NodeRef? ==> t.Insertable(args[k].id))
    && (forall j, k :: 0 <= j < k < |args| && args[j].NodeRef? && args[k].NodeRef? ==> args[j].id != args[k].id)
  }

  /** How inserting one argument as `n` under `p` changes the kinds and the parent
      links: a node argument is inserted itself, a string becomes a new text node, `n`
      gains the parent `p`, and nothing else changes. */
  ghost predicate InsertedOne(kind0: map<NodeId, NodeKind>, parent0: map<NodeId, NodeId>,
                              kind1: map<NodeId, NodeKind>, parent1: map<NodeId, NodeId>,
                              p: NodeId, arg: NodeArg, n: NodeId)
  {
    && (arg.NodeRef? ==> n == arg.id)
    && (arg.TextArg? ==> n !in kind0 && n in kind1 && kind1[n] == TextNode(arg.text))
    && n in parent1 && parent1[n] == p
    && (forall x :: x in parent0 ==> x in parent1 && parent1[x] == parent0[x])
    && (forall x :: x in parent1 ==> x == n || x in parent0)
    && (forall x :: x in kind0 ==> x in kind1 && kind1[x] == kind0[x])
    && (forall x :: x in kind1 ==> x == n || x in kind0)
  }

  /** `InsertedOne` for every argument in turn: `ins[j]` is what `args[j]` became. */
  ghost predicate InsertedAll(kind0: map<NodeId, NodeKind>, parent0: map<NodeId, NodeId>,
                              kind1: map<NodeId, NodeKind>, parent1: map<NodeId, NodeId>,
                              p: NodeId, args: seq<NodeArg>, ins: seq<NodeId>)
  {
    && |ins| == |args|
    && (forall j :: 0 <= j < |args| && args[j].NodeRef? ==> ins[j] == args[j].id)
    && (forall j :: 0 <= j < |args| && args[j].TextArg? ==>
          ins[j] !in kind0 && ins[j] in kind1 && kind1[ins[j]] == TextNode(args[j].text))
    && (forall j :: 0 <= j < |ins| ==> ins[j] in parent1 && parent1[ins[j]] == p)
    && (forall x :: x in parent0 ==> x in parent1 && parent1[x] == parent0[x])
    && (forall x :: x in parent1 ==> x in ins || x in parent0)
    && (forall x :: x in kind0 ==> x in kind1 && kind1[x] == kind0[x])
    && (forall x :: x in kind1 ==> x in ins || x in kind0)
  }

  /** Inserting `args[k]` as `n` extends `InsertedAll` from `args[..k]` to `args[..k + 1]`. */
  lemma InsertedAllStep(kind0: map<NodeId, NodeKind>, parent0: map<NodeId, NodeId>,
                        kind1: map<NodeId, NodeKind>, parent1: map<NodeId, NodeId>,
                        kind2: map<NodeId, NodeKind>, parent2: map<NodeId, NodeId>,
                        p: NodeId, args: seq<NodeArg>, k: nat, ins: seq<NodeId>, n: NodeId)
    requires k < |args|
    requires InsertedAll(kind0, parent0, kind1, parent1, p, args[..k], ins)
    requires InsertedOne(kind1, parent1, kind2, parent2, p, args[k], n)
    ensures InsertedAll(kind0, parent0, kind2, parent2, p, args[..k + 1], ins + [n])
  {
    var args', ins' := args[..k + 1], ins + [n];
    assert forall j :: 0 <= j < k ==> args'[j] == args[..k][j] && ins'[j] == ins[j];
    assert forall x :: x in ins' <==> x in ins || x == n;
  }

  /** Inserts the arguments, in order, at position `i` of `p`'s children, creating a
      text node for each non-node argument. `ins` are the inserted nodes. */
  method InsertArgs(t: Tree, p: NodeId, i: nat, args: seq<NodeArg>) returns (ghost ins: seq<NodeId>)
    requires t.Valid() && p in t.kind && !t.kind[p].TextNode? && i <= |t.children[p]|
    requires ArgsInsertable(t, args)
    requires forall k :: 0 <= k < |args| && args[k].NodeRef? ==> args[k].id !in t.anc[p]
    modifies t
    ensures t.Valid() && p in t.kind && p in t.children
    ensures t.children[p] == old(t.children)[p][..i] + ins + old(t.children)[p][i..]
    ensures forall q :: q in old(t.children) && q != p ==> q in t.children && t.children[q] == old(t.children)[q]
    ensures InsertedAll(old(t.kind), old(t.parent), t.kind, t.parent, p, args, ins)
  {
    ins := [];
    var k := 0;
    while k < |args|
      invariant 0 <= k <= |args|
      invariant t.Valid() && p in t.kind && t.kind[p] == old(t.kind)[p] && t.anc[p] == old(t.anc)[p]
      invariant t.children[p] == old(t.children)[p][..i] + ins + old(t.children)[p][i..]
      invariant forall q :: q in old(t.children) && q != p ==> q in t.children && t.children[q] == old(t.children)[q]
      invariant InsertedAll(old(t.kind), old(t.parent), t.kind, t.parent, p, args[..k], ins)
      invariant forall j :: k <= j < |args| && args[j].NodeRef? ==> t.Insertable(args[j].id)
    {
      ghost var kind1, parent1 := t.kind, t.parent;
      var n := InsertOne(t, p, i + k, args[k]);
      InsertedAllStep(old(t.kind), old(t.parent), kind1, parent1, t.kind, t.parent, p, args, k, ins, n);
      Splice(old(t.children)[p], i, ins, n);
      ins := ins + [n];
      k := k + 1;
    }
    assert args[..k] == args;
  }

  /** The state after the arguments were converted into one node, the step the DOM takes
      before any insertion check and the fallback takes by hand: a single node argument
      is used as it is and nothing changes; a single string becomes a new text node in no
      tree; two or more arguments go, in order, into a new `DocumentFragment`, whose
      children are `ins`. The new node, if any, has the id `old(t.nextId)`. */
  twostate predicate Converted(t: Tree, args: seq<NodeArg>, ins: seq<NodeId>)
    reads t
  {
    var n := old(t.nextId);
    && (|args| == 1 && args[0].NodeRef? ==> unchanged(t) && ins == [])
    && (|args| == 1 && args[0].TextArg? ==>
          && n !in old(t.kind) && t.kind == old(t.kind)[n := TextNode(args[0].text)]
          && t.parent == old(t.parent) && t.children == old(t.children)[n := []] && ins == [])
    && (|args| >= 2 ==>
          && n !in old(t.kind) && n in t.kind && t.kind[n] == FragmentNode && n !in t.parent
          && n in t.children && t.children[n] == ins
          && (forall q :: q in old(t.children) ==> q in t.children && t.children[q] == old(t.children)[q])
          && InsertedAll(old(t.kind)[n := FragmentNode], old(t.parent), t.kind, t.parent, n, args, ins))
  }

  /** Converts the arguments into one node, as `Converted` describes: `n` is that node.
      The fallback writes this out in its `docFrag` loop. */
  method Convert(t: Tree, args: seq<NodeArg>) returns (n: NodeId, ghost ins: seq<NodeId>)
    requires t.Valid() && |args| > 0 && ArgsInsertable(t, args)
    modifies t
    ensures t.Valid() && Converted(t, args, ins)
    ensures n == if |args| == 1 && args[0].NodeRef? then args[0].id else old(t.nextId)
  {
    ins := [];
    if |args| == 1 {
      if args[0].NodeRef? {
        n := args[0].id;
      } else {
        n := t.NewNode(TextNode(args[0].text));
      }
      return;
    }
    n := t.NewNode(FragmentNode);
    forall k | 0 <= k < |args| && args[k].NodeRef?
      ensures t.Insertable(args[k].id) && args[k].id !in t.anc[n]
    {
      assert args[k].id in old(t.kind);
    }
    ins := InsertArgs(t, n, 0, args);
    assert old(t.children)[n := []][n] == [];
  }

  /** Some node argument is an inclusive ancestor of `p`: inserting it under `p` would
      make a cycle, which the DOM refuses with a `HierarchyRequestError`. */
  ghost predicate ClosesCycle(t: Tree, p: NodeId, args: seq<NodeArg>)
    reads t
    requires t.Valid() && p in t.kind
  {
    exists k :: 0 <= k < |args| && args[k].NodeRef? && args[k].id in t.anc[p]
  }

  /** Inserts the arguments at position `i` of `p`'s children. The arguments are converted
      into one node before the DOM checks that it is not an ancestor of `p`: since every
      node argument is detached, the only one that can be is the root of `p`'s tree, and
      after a failed check that root and the other arguments stay in the new fragment. */
  method Place(t: Tree, p: NodeId, i: nat, args: seq<NodeArg>) returns (r: Result<()>, ghost ins: seq<NodeId>)
    requires t.Valid() && p in t.kind && !t.kind[p].TextNode? && i <= |t.children[p]|
    requires ArgsInsertable(t, args)
    modifies t
    ensures t.Valid()
    ensures old(ClosesCycle(t, p, args)) ==> r == DomException("HierarchyRequestError") && Converted(t, args, ins)
    ensures !old(ClosesCycle(t, p, args)) ==> r == Ok(()) && Placed(t, p, i, args, ins)
  {
    var root := GetRootNode(t, Some(p));
    if NodeRef(root.value) in args {
      ghost var k :| 0 <= k < |args| && args[k] == NodeRef(root.value);
      assert args[k].id in t.anc[p];
      var _, made := Convert(t, args);
      return DomException("HierarchyRequestError"), made;
    }
    forall k | 0 <= k < |args| && args[k].NodeRef?
      ensures args[k].id !in t.anc[p]
    {
      if args[k].id in t.anc[p] {
        RootIsUnique(t.parent, t.anc, p, args[k].id);
        assert false;
      }
    }
    ins := InsertArgs(t, p, i, args);
    r := Ok(());
  }

  /** The arguments went, in order, to position `i` of `p`'s children, and nothing else
      changed. */
  twostate predicate Placed(t: Tree, p: NodeId, i: nat, args: seq<NodeArg>, ins: seq<NodeId>)
    reads t
  {
    && p in old(t.children) && p in t.children && i <= |old(t.children)[p]|
    && t.children[p] == old(t.children)[p][..i] + ins + old(t.children)[p][i..]
    && (forall q :: q in old(t.children) && q != p ==> q in t.children && t.children[q] == old(t.children)[q])
    && InsertedAll(old(t.kind), old(t.parent), t.kind, t.parent, p, args, ins)
  }

  /** before: the arguments go right before `ref` among its parent's children. Without
      a parent the native method does nothing, while the fallback converts the arguments
      and then fails on the missing `parentNode`. `native` tells whether the element has
      a native `before`. */
  method Before(t: Tree, ref: NodeId, args: seq<NodeArg>, native: bool) returns (r: Result<()>, ghost ins: seq<NodeId>)
    requires t.Valid() && ref in t.kind && ArgsInsertable(t, args)
    modifies t
    ensures t.Valid()
    ensures |args| == 0 ==> r == Ok(()) && unchanged(t)
    ensures |args| > 0 && ref !in old(t.parent) && native ==> r == Ok(()) && unchanged(t)
    ensures |args| > 0 && ref !in old(t.parent) && !native ==> r == TypeError && Converted(t, args, ins)
    ensures |args| > 0 && ref in old(t.parent) ==>
      var p := old(t.parent)[ref];
      && (old(ClosesCycle(t, p, args)) ==> r == DomException("HierarchyRequestError") && Converted(t, args, ins))
      && (!old(ClosesCycle(t, p, args)) ==> r == Ok(()) && Placed(t, p, IndexOf(old(t.children)[p], ref), args, ins))
  {
    if |args| == 0 {
      return Ok(()), [];
    }
    if ref !in t.parent {
      if native {
        return Ok(()), [];
      }
      var _, made := Convert(t, args);
      return TypeError, made;
    }
    var p := t.parent[ref];
    var i := IndexOf(t.children[p], ref);
    r, ins := Place(t, p, i, args);
  }

  /** after: the arguments go right after `ref` among its parent's children. */
  method After(t: Tree, ref: NodeId, args: seq<NodeArg>, native: bool) returns (r: Result<()>, ghost ins: seq<NodeId>)
    requires t.Valid() && ref in t.kind && ArgsInsertable(t, args)
    modifies t
    ensures t.Valid()
    ensures |args| == 0 ==> r == Ok(()) && unchanged(t)
    ensures |args| > 0 && ref !in old(t.parent) && native ==> r == Ok(()) && unchanged(t)
    ensures |args| > 0 && ref !in old(t.parent) && !native ==> r == TypeError && Converted(t, args, ins)
    ensures |args| > 0 && ref in old(t.parent) ==>
      var p := old(t.parent)[ref];
      && (old(ClosesCycle(t, p, args)) ==> r == DomException("HierarchyRequestError") && Converted(t, args, ins))
      && (!old(ClosesCycle(t, p, args)) ==> r == Ok(()) && Placed(t, p, IndexOf(old(t.children)[p], ref) + 1, args, ins))
  {
    if |args| == 0 {
      return Ok(()), [];
    }
    if ref !in t.parent {
      if native {
        return Ok(()), [];
      }
      var _, made := Convert(t, args);
      return TypeError, made;
    }
    var p := t.parent[ref];
    var i := IndexOf(t.children[p], ref);
    r, ins := Place(t, p, i + 1, args);
  }

  /** prepend: the arguments go before the first child of `p`. A text node has no
      `prepend`, so the fallback converts the arguments and its `appendChild` is then
      refused, since a text node cannot be a parent. */
  method Prepend(t: Tree, p: NodeId, args: seq<NodeArg>) returns (r: Result<()>, ghost ins: seq<NodeId>)
    requires t.Valid() && p in t.kind && ArgsInsertable(t, args)
    modifies t
    ensures t.Valid()
    ensures |args| == 0 ==> r == Ok(()) && unchanged(t)
    ensures |args| > 0 && old(t.kind)[p].TextNode? ==> r == DomException("HierarchyRequestError") && Converted(t, args, ins)
    ensures |args| > 0 && !old(t.kind)[p].TextNode? ==>
      && (old(ClosesCycle(t, p, args)) ==> r == DomException("HierarchyRequestError") && Converted(t, args, ins))
      && (!old(ClosesCycle(t, p, args)) ==> r == Ok(()) && Placed(t, p, 0, args, ins))
  {
    if |args| == 0 {
      return Ok(()), [];
    }
    if t.kind[p].TextNode? {
      var _, made := Convert(t, args);
      return DomException("HierarchyRequestError"), made;
    }
    r, ins := Place(t, p, 0, args);
  }

  /** append: the arguments go after the last child of `p`, with the same refusal of a
      text node as parent. */
  method Append(t: Tree, p: NodeId, args: seq<NodeArg>) returns (r: Result<()>, ghost ins: seq<NodeId>)
    requires t.Valid() && p in t.kind && ArgsInsertable(t, args)
    modifies t
    ensures t.Valid()
    ensures |args| == 0 ==> r == Ok(()) && unchanged(t)
    ensures |args| > 0 && old(t.kind)[p].TextNode? ==> r == DomException("HierarchyRequestError") && Converted(t, args, ins)
    ensures |args| > 0 && !old(t.kind)[p].TextNode? ==>
      && (old(ClosesCycle(t, p, args)) ==> r == DomException("HierarchyRequestError") && Converted(t, args, ins))
      && (!old(ClosesCycle(t, p, args)) ==> r == Ok(()) && Placed(t, p, |old(t.children)[p]|, args, ins))
  {
    if |args| == 0 {
      return Ok(()), [];
    }
    if t.kind[p].TextNode? {
      var _, made := Convert(t, args);
      return DomException("HierarchyRequestError"), made;
    }
    r, ins := Place(t, p, |t.children[p]|, args);
  }

  /** `append(p, a, R)`, where `R` is the root of `p`'s tree and `a` is detached: the
      call throws `HierarchyRequestError`, and by then `a` and `R` are, in that order, the
      children of a new fragment. */
  method AppendRootIntoFragment() returns (r: Result<()>, fragmentKids: seq<NodeId>, rootParent: Option<NodeId>)
    ensures r == DomException("HierarchyRequestError")
    ensures fragmentKids == [2, 0] && rootParent == Some(3)
  {
    var t := new Tree();
    var root := t.NewNode(Element("div", EmptyData));
    var p := t.NewNode(Element("div", EmptyData));
    assert root == 0 && p == 1 && t.parent == map[];
    t.Insert(root, p, 0);
    assert root in t.anc[p] && t.parent == map[p := root];
    var a := t.NewNode(Element("span", EmptyData));
    assert a == 2 && t.nextId == 3 && t.parent == map[p := root];
    var args := [NodeRef(a), NodeRef(root)];
    assert t.Insertable(a) && t.Insertable(root);
    PairInsertable(t, a, root);
    assert ClosesCycle(t, p, args) by {
      assert args[1].id in t.anc[p];
    }
    ghost var ins;
    label before:
    r, ins := Append(t, p, args);
    assert Converted@before(t, args, ins);
    InsertedPair(old@before(t.kind)[3 := FragmentNode], old@before(t.parent), t.kind, t.parent, 3, a, root, ins);
    fragmentKids := t.children[3];
    rootParent := if root in t.parent then Some(t.parent[root]) else None;
  }

  /** Two distinct insertable nodes make insertable arguments. */
  lemma PairInsertable(t: Tree, a: NodeId, b: NodeId)
    requires t.Insertable(a) && t.Insertable(b) && a != b
    ensures ArgsInsertable(t, [NodeRef(a), NodeRef(b)])
  {
  }

  /** Two node arguments are inserted as themselves, and both get the parent `p`. */
  lemma InsertedPair(kind0: map<NodeId, NodeKind>, parent0: map<NodeId, NodeId>,
                     kind1: map<NodeId, NodeKind>, parent1: map<NodeId, NodeId>,
                     p: NodeId, a: NodeId, b: NodeId, ins: seq<NodeId>)
    requires InsertedAll(kind0, parent0, kind1, parent1, p, [NodeRef(a), NodeRef(b)], ins)
    ensures ins == [a, b] && b in parent1 && parent1[b] == p
  {
    assert ins[0] == a && ins[1] == b;
  }

  /** One step of `InsertArgs`: the node, or a new text node, goes to position `pos`. */
  method InsertOne(t: Tree, p: NodeId, pos: nat, arg: NodeArg) returns (n: NodeId)
    requires t.Valid() && p in t.kind && !t.kind[p].TextNode? && pos <= |t.children[p]|
    requires arg.NodeRef? ==> t.Insertable(arg.id) && arg.id !in t.anc[p]
    modifies t
    ensures t.Valid() && p in t.kind && t.kind[p] == old(t.kind)[p] && t.anc[p] == old(t.anc)[p]
    ensures t.children[p] == old(t.children)[p][..pos] + [n] + old(t.children)[p][pos..]
    ensures forall q :: q in old(t.children) && q != p ==> q in t.children && t.children[q] == old(t.children)[q]
    ensures InsertedOne(old(t.kind), old(t.parent), t.kind, t.parent, p, arg, n)
  {
    if arg.NodeRef? {
      n := arg.id;
      t.Insert(p, n, pos);
    } else {
      n := InsertText(t, p, pos, arg.text);
    }
  }

  /** A new text node goes to position `pos` of `p`'s children. */
  method InsertText(t: Tree, p: NodeId, pos: nat, text: string) returns (n: NodeId)
    requires t.Valid() && p in t.kind && !t.kind[p].TextNode? && pos <= |t.children[p]|
    modifies t
    ensures t.Valid() && p in t.kind
    ensures n == old(t.nextId) && t.nextId == n + 1 && t.kind == old(t.kind)[n := TextNode(text)]
    ensures t.children[p] == old(t.children)[p][..pos] + [n] + old(t.children)[p][pos..]
    ensures forall q :: q in old(t.children) && q != p ==> t.children[q] == old(t.children)[q]
    ensures t.parent == old(t.parent)[n := p]
    ensures t.anc[p] == old(t.anc)[p]
  {
    n := t.NewNode(TextNode(text));
    ghost var kids := t.children;
    ghost var a := t.anc;
    assert p != n && kids[p] == old(t.children)[p];
    assert n !in a[p];
    t.Insert(p, n, pos);
    assert t.anc[p] == a[p];
  }

  /** Inserting `n` right after `ins` in `s[..i] + ins + s[i..]`. */
  lemma Splice(s: seq<NodeId>, i: nat, ins: seq<NodeId>, n: NodeId)
    requires i <= |s|
    ensures var c := s[..i] + ins + s[i..];
      c[..i + |ins|] + [n] + c[i + |ins|..] == s[..i] + (ins + [n]) + s[i..]
  {
    var c := s[..i] + ins + s[i..];
    assert c[..i + |ins|] == s[..i] + ins;
    assert c[i + |ins|..] == s[i..];
  }

  /** The rest of a selector list, after its start, under the rewrite
      `/((?:^|,)\s*)/g` to `'$1' + prefix`: each comma and the white space after it
      are kept and followed by the prefix. */
  function MarkAfterCommas(s: string, prefix: string): string
    decreases |s|
  {
    var i := IndexOf(s, ',');
    if i == |s| then s
    else
      var rest := s[i + 1..];
      var w := LeadingSpace(rest);
      s[..i] + "," + rest[..w] + prefix + MarkAfterCommas(rest[w..], prefix)
  }

  /** The whole rewrite. At the start `^` matches, with any leading white space; when
      that match is empty the replacement moves one character on before searching
      again, so a comma in first place is not matched. */
  function ScopeRewrite(s: string, prefix: string): string
  {
    var w := LeadingSpace(s);
    if w > 0 then s[..w] + prefix + MarkAfterCommas(s[w..], prefix)
    else if s == "" then prefix
    else prefix + [s[0]] + MarkAfterCommas(s[1..], prefix)
  }

  /** One selector of the list with the prefix put after its leading white space. */
  function Mark(piece: string, prefix: string): (r: string)
    ensures |r| == |piece| + |prefix|
  {
    var w := LeadingSpace(piece);
    piece[..w] + prefix + piece[w..]
  }

  function MarkAll(pieces: seq<string>, prefix: string): (r: seq<string>)
    ensures |r| == |pieces|
    ensures forall k :: 0 <= k < |r| ==> r[k] == Mark(pieces[k], prefix)
  {
    if |pieces| == 0 then [] else [Mark(pieces[0], prefix)] + MarkAll(pieces[1..], prefix)
  }

  /** Joining a first piece in front of the rest. */
  lemma JoinCons(a: string, xs: seq<string>, c: char)
    ensures Join([a] + xs, c) == a + (if |xs| == 0 then "" else [c] + Join(xs, c))
  {
    var l := [a] + xs;
    if |xs| == 0 {
      assert l == [a];
      assert a + "" == a;
    } else {
      assert l[1..] == xs;
    }
  }

  /** Splitting a string whose start holds no separator: the start joins the first piece. */
  lemma SplitAfterFree(a: string, b: string, c: char)
    requires c !in a
    ensures SplitOn(a + b, c) == [a + SplitOn(b, c)[0]] + SplitOn(b, c)[1..]
  {
    IndexOfAfterFree(a, b, c);
    if IndexOf(b, c) < |b| {
      SplitAfterFreeFound(a, b, c);
    } else {
      assert SplitOn(b, c) == [b];
    }
  }

  lemma SplitAfterFreeFound(a: string, b: string, c: char)
    requires c !in a && IndexOf(b, c) < |b| && IndexOf(a + b, c) == |a| + IndexOf(b, c)
    ensures SplitOn(a + b, c) == [a + SplitOn(b, c)[0]] + SplitOn(b, c)[1..]
  {
    var i := IndexOf(b, c);
    SplitOnFound(a + b, c, |a| + i);
    SplitOnFound(b, c, i);
    ConcatSlices(a, b, i);
  }

  /** Splitting at the first separator, at index `i`. */
  lemma SplitOnFound(s: string, c: char, i: nat)
    requires i == IndexOf(s, c) < |s|
    ensures SplitOn(s, c) == [s[..i]] + SplitOn(s[i + 1..], c)
  {
  }

  /** Slicing `a + b` around a position inside `b`. */
  lemma ConcatSlices(a: string, b: string, i: nat)
    requires i < |b|
    ensures (a + b)[..|a| + i] == a + b[..i] && (a + b)[|a| + i + 1..] == b[i + 1..]
  {
  }

  /** A prefix of `s` at least as long as its leading white space has the same leading
      white space. */
  lemma LeadingSpacePrefix(s: string, n: nat)
    requires LeadingSpace(s) <= n <= |s|
    ensures LeadingSpace(s[..n]) == LeadingSpace(s)
  {
    assert forall k :: 0 <= k < n ==> s[..n][k] == s[k];
  }

  /** The first piece of a split is the start of the string. */
  lemma FirstPiece(s: string, c: char)
    ensures var q := SplitOn(s, c)[0]; |q| <= |s| && s[..|q|] == q
  {
    var i := IndexOf(s, c);
    if i < |s| {
      assert SplitOn(s, c)[0] == s[..i];
    }
  }

  /** After the start, the rewrite marks every selector but the first. */
  lemma {:induction false} MarkAfterCommasPieces(s: string, prefix: string)
    ensures var pieces := SplitOn(s, ',');
      MarkAfterCommas(s, prefix) == Join([pieces[0]] + MarkAll(pieces[1..], prefix), ',')
    decreases |s|
  {
    var pieces := SplitOn(s, ',');
    var i := IndexOf(s, ',');
    if i == |s| {
      assert pieces == [s];
      JoinCons(s, [], ',');
      assert s + "" == s;
    } else {
      var rest := s[i + 1..];
      var w := LeadingSpace(rest);
      var qs := SplitOn(rest, ',');
      assert pieces == [s[..i]] + qs;
      assert ',' !in rest[..w] by {
        forall k | 0 <= k < w ensures rest[..w][k] != ',' { assert IsJsSpace(rest[k]); }
      }
      assert rest == rest[..w] + rest[w..];
      SplitAfterFree(rest[..w], rest[w..], ',');
      var ts := SplitOn(rest[w..], ',');
      assert qs == [rest[..w] + ts[0]] + ts[1..];
      var q0 := qs[0];
      assert q0 == rest[..w] + ts[0];
      FirstPiece(rest, ',');
      LeadingSpacePrefix(rest, |q0|);
      assert Mark(q0, prefix) == rest[..w] + prefix + ts[0];
      MarkAfterCommasPieces(rest[w..], prefix);
      var marks := MarkAll(ts[1..], prefix);
      var tail := if |marks| == 0 then "" else [','] + Join(marks, ',');
      JoinCons(ts[0], marks, ',');
      var x := MarkAfterCommas(rest[w..], prefix);
      assert x == ts[0] + tail;
      assert MarkAfterCommas(s, prefix) == s[..i] + "," + rest[..w] + prefix + x;
      var m0 := Mark(q0, prefix);
      JoinCons(m0, marks, ',');
      JoinCons(s[..i], [m0] + marks, ',');
      assert Join([s[..i]] + ([m0] + marks), ',') == s[..i] + ([','] + (m0 + tail));
      assert [pieces[0]] + MarkAll(pieces[1..], prefix) == [s[..i]] + ([m0] + marks);
      Regroup(s[..i], rest[..w], prefix, ts[0], tail);
      assert MarkAfterCommas(s, prefix) == s[..i] + ([','] + (m0 + tail));
    }
  }

  /** Regrouping the parts of a rewritten selector list. */
  lemma Regroup(a: string, b: string, prefix: string, c: string, tail: string)
    ensures a + "," + b + prefix + (c + tail) == a + ([','] + ((b + prefix + c) + tail))
  {
  }

  /** Every selector of a list that does not open with a comma gains the prefix after
      its leading white space. */
  lemma ScopeRewritePieces(s: string, prefix: string)
    requires s == "" || s[0] != ','
    ensures ScopeRewrite(s, prefix) == Join(MarkAll(SplitOn(s, ','), prefix), ',')
  {
    if s == "" {
      assert SplitOn(s, ',') == [""];
      assert Mark("", prefix) == prefix;
    } else {
      var w := LeadingSpace(s);
      var n := if w > 0 then w else 1;
      var lead := if w > 0 then s[..n] + prefix else prefix + s[..n];
      ScopeRewriteHead(s, prefix, n, lead);
      ScopeJoinHead(s, prefix, n, lead);
    }
  }

  /** Marking the selectors one by one and joining them gives the start with the
      prefix, then the marked rest. */
  lemma ScopeJoinHead(s: string, prefix: string, n: nat, lead: string)
    requires s != "" && s[0] != ',' && n == (if LeadingSpace(s) > 0 then LeadingSpace(s) else 1)
    requires lead == if LeadingSpace(s) > 0 then s[..n] + prefix else prefix + s[..n]
    ensures n <= |s| && Join(MarkAll(SplitOn(s, ','), prefix), ',') == lead + MarkAfterCommas(s[n..], prefix)
  {
    ScopeFirstPiece(s, prefix, n, lead);
    var ts := SplitOn(s[n..], ',');
    MarkAfterCommasPieces(s[n..], prefix);
    JoinExtendHead(lead, ts[0], MarkAll(ts[1..], prefix), ',');
  }

  /** Lengthening the first piece at its front lengthens the joined string the same way. */
  lemma JoinExtendHead(lead: string, first: string, rest: seq<string>, c: char)
    ensures Join([lead + first] + rest, c) == lead + Join([first] + rest, c)
  {
    var tail := if |rest| == 0 then "" else [c] + Join(rest, c);
    JoinCons(first, rest, c);
    JoinCons(lead + first, rest, c);
    assert (lead + first) + tail == lead + (first + tail);
  }

  /** The rewrite of a non-empty list: the start (its leading white space, or else its
      first character) with the prefix, then the marked rest. */
  lemma ScopeRewriteHead(s: string, prefix: string, n: nat, lead: string)
    requires s != "" && n == (if LeadingSpace(s) > 0 then LeadingSpace(s) else 1)
    requires lead == if LeadingSpace(s) > 0 then s[..n] + prefix else prefix + s[..n]
    ensures n <= |s| && ScopeRewrite(s, prefix) == lead + MarkAfterCommas(s[n..], prefix)
  {
    if LeadingSpace(s) == 0 {
      assert s[..1] == [s[0]];
    }
  }

  /** The first selector of a list that does not open with a comma is its start and the
      first piece of the rest; marking it puts the prefix where the rewrite does. */
  lemma ScopeFirstPiece(s: string, prefix: string, n: nat, lead: string)
    requires s != "" && s[0] != ',' && n == (if LeadingSpace(s) > 0 then LeadingSpace(s) else 1)
    requires lead == if LeadingSpace(s) > 0 then s[..n] + prefix else prefix + s[..n]
    ensures n <= |s|
    ensures var ts := SplitOn(s[n..], ',');
      MarkAll(SplitOn(s, ','), prefix) == [lead + ts[0]] + MarkAll(ts[1..], prefix)
  {
    LeadNoComma(s, n);
    SplitFirstAsPrefix(s, n);
    var ts := SplitOn(s[n..], ',');
    var m := n + |ts[0]|;
    MarkFirstPiece(s, prefix, n, lead, m);
    MarkAllCons(SplitOn(s, ','), s[..m], ts[1..], prefix, lead + ts[0]);
  }

  /** When `s[..n]` holds no comma, the first piece of `s` runs on to the end of the
      first piece of `s[n..]`. */
  lemma SplitFirstAsPrefix(s: string, n: nat)
    requires n <= |s| && ',' !in s[..n]
    ensures var ts := SplitOn(s[n..], ',');
      n + |ts[0]| <= |s| && SplitOn(s, ',') == [s[..n + |ts[0]|]] + ts[1..] && s[n..n + |ts[0]|] == ts[0]
  {
    var a, b := s[..n], s[n..];
    assert s == a + b;
    SplitAfterFree(a, b, ',');
    var ts := SplitOn(b, ',');
    FirstPiece(b, ',');
    assert a + ts[0] == s[..n + |ts[0]|];
  }

  /** Marking a list piece by piece. */
  lemma MarkAllCons(pieces: seq<string>, x: string, rest: seq<string>, prefix: string, y: string)
    requires pieces == [x] + rest && Mark(x, prefix) == y
    ensures MarkAll(pieces, prefix) == [y] + MarkAll(rest, prefix)
  {
    assert pieces[1..] == rest;
  }

  /** The characters before the first piece's rest hold no comma. */
  lemma LeadNoComma(s: string, n: nat)
    requires s != "" && s[0] != ',' && n == (if LeadingSpace(s) > 0 then LeadingSpace(s) else 1)
    ensures n <= |s| && ',' !in s[..n]
  {
    var w := LeadingSpace(s);
    forall k | 0 <= k < n ensures s[..n][k] != ',' {
      if w > 0 { assert IsJsSpace(s[k]); }
    }
  }

  /** Marking the first piece, `s[..m]`, puts the prefix after its leading white space. */
  lemma MarkFirstPiece(s: string, prefix: string, n: nat, lead: string, m: nat)
    requires s != "" && n == (if LeadingSpace(s) > 0 then LeadingSpace(s) else 1)
    requires lead == if LeadingSpace(s) > 0 then s[..n] + prefix else prefix + s[..n]
    requires n <= m <= |s|
    ensures Mark(s[..m], prefix) == lead + s[n..m]
  {
    var q := s[..m];
    MarkOfPrefix(s, m, prefix);
    assert q[..n] == s[..n] && q[n..] == s[n..m];
    if LeadingSpace(s) == 0 {
      InsertInFront(q, prefix);
    }
  }

  /** Marking a prefix of `s` that holds all of its leading white space. */
  lemma MarkOfPrefix(s: string, m: nat, prefix: string)
    requires LeadingSpace(s) <= m <= |s|
    ensures Mark(s[..m], prefix) == s[..m][..LeadingSpace(s)] + prefix + s[..m][LeadingSpace(s)..]
  {
    LeadingSpacePrefix(s, m);
    MarkAt(s[..m], prefix, LeadingSpace(s));
  }

  /** Marking `q` whose leading white space is `w` characters long. */
  lemma MarkAt(q: string, prefix: string, w: nat)
    requires w == LeadingSpace(q)
    ensures Mark(q, prefix) == q[..w] + prefix + q[w..]
  {
  }


  /** Inserting in front of a string. */
  lemma InsertInFront(q: string, prefix: string)
    requires |q| >= 1
    ensures q[..0] + prefix + q[0..] == prefix + q[..1] + q[1..]
  {
    assert q[0..] == q[..1] + q[1..];
  }


  /** A list that opens with a comma: the empty first selector gains the prefix, and
      the comma it was separated by is skipped, so the second selector does not. */
  lemma ScopeRewriteLeadingComma()
    ensures ScopeRewrite(",a", ":scope ") == ":scope ,a"
  {
    assert LeadingSpace(",a") == 0;
    assert IndexOf("a", ',') == 1;
    assert MarkAfterCommas("a", ":scope ") == "a";
  }

  /** `'ID_' + Date.now()`: the temporary id the fallback gives the element. */
  function UniqueId(now: nat): (id: string)
    ensures |id| > 3 && id[..3] == "ID_"
  {
    "ID_" + NatToString(now)
  }

  /** `el.id`: the `id` attribute, or the empty string when there is none. */
  function IdOf(attrs: map<string, string>): string
  {
    if "id" in attrs then attrs["id"] else ""
  }

  /** The element's data with `el.id` set: only the `id` attribute changes. */
  function WithId(d: ElementData, id: string): (r: ElementData)
    ensures IdOf(r.attrs) == id
    ensures forall k :: k != "id" ==> (k in r.attrs <==> k in d.attrs)
    ensures forall k :: k != "id" && k in d.attrs ==> r.attrs[k] == d.attrs[k]
    ensures r.props == d.props && r.style == d.style && r.classes == d.classes
  {
    d.(attrs := d.attrs["id" := id])
  }

  /** Setting the id back to what `el.id` read restores `el.id`, whatever id was set in
      between. */
  lemma RestoredId(d: ElementData, temporary: string)
    ensures WithId(WithId(d, temporary), IdOf(d.attrs)) == WithId(d, IdOf(d.attrs))
    ensures IdOf(WithId(WithId(d, temporary), IdOf(d.attrs)).attrs) == IdOf(d.attrs)
  {
    assert d.attrs["id" := temporary]["id" := IdOf(d.attrs)] == d.attrs["id" := IdOf(d.attrs)];
  }

  /** The selector `querySelector` gets when `:scope` is supported. */
  function NativeScoped(selector: string): string
  {
    ScopeRewrite(selector, ":scope ")
  }

  /** The fallback's selector as written: the id selector is glued to the selector
      that follows it. */
  function FallbackSelectorAsWritten(selector: string, now: nat): string
  {
    ScopeRewrite(selector, "#" + UniqueId(now))
  }

  /** The fallback's selector with the descendant combinator the native form has. */
  function FallbackSelector(selector: string, now: nat): string
  {
    ScopeRewrite(selector, "#" + UniqueId(now) + " ")
  }

  /** As written, `div` becomes `#ID_1div`, an id selector for another id; with the
      space it becomes `#ID_1 div`, the `div` elements inside the element. */
  lemma FallbackSelectorGlued()
    ensures FallbackSelectorAsWritten("div", 1) == "#ID_1div"
    ensures FallbackSelector("div", 1) == "#ID_1 div"
  {
    assert NatToString(1) == "1";
    assert LeadingSpace("div") == 0;
    assert IndexOf("iv", ',') == 2;
    assert MarkAfterCommas("iv", "#ID_1") == "iv";
  }

  /** The corrected fallback scopes each selector of the list the way `:scope` does:
      both prefixes end in a space and are put in the same places. */
  lemma FallbackLikeNative(selector: string, now: nat)
    requires selector == "" || selector[0] != ','
    ensures NativeScoped(selector) == Join(MarkAll(SplitOn(selector, ','), ":scope "), ',')
    ensures FallbackSelector(selector, now) == Join(MarkAll(SplitOn(selector, ','), "#" + UniqueId(now) + " "), ',')
  {
    ScopeRewritePieces(selector, ":scope ");
    ScopeRewritePieces(selector, "#" + UniqueId(now) + " ");
  }

  /** The module's cached feature test, `hasScopedQuerySelector`: `None` until the first
      scoped query. `scopeRejected` is whether the engine throws on a `:scope`
      selector, which the test finds out. */
  class ScopedSelectorSupport {
    var hasScoped: Option<bool>
    const scopeRejected: bool

    ghost predicate Valid()
      reads this
    {
      hasScoped.Some? ==> hasScoped.value == !scopeRejected
    }

    constructor (scopeRejected: bool)
      ensures Valid() && hasScoped == None && this.scopeRejected == scopeRejected
    {
      this.scopeRejected := scopeRejected;
      hasScoped := None;
    }

    /** detectScopedSelectorFeature: the test query succeeds exactly when `:scope` is
        supported. */
    method Detect()
      modifies this
      ensures Valid() && hasScoped == Some(!scopeRejected)
    {
      hasScoped := Some(!scopeRejected);
    }

    /** scopedSelector and scopedSelectorAll as written; `query` stands for the
        element's `querySelector` (or `querySelectorAll`). Without `:scope` support the
        element gets the temporary id, and the `finally` block then assigns to `this`,
        which is not the element: it is `undefined`, or the module namespace object when
        called as a member of it, and strict code refuses the assignment either way. The
        call throws a `TypeError` and the element keeps the temporary id. */
    method ScopedAsWritten<R>(t: Tree, el: NodeId, selector: string, now: nat, query: string -> R)
      returns (r: Result<R>)
      requires Valid() && t.Valid() && t.IsElement(el)
      modifies this, t
      ensures Valid() && hasScoped == Some(!scopeRejected)
      ensures !scopeRejected ==> r == Ok(query(NativeScoped(selector))) && unchanged(t)
      ensures scopeRejected ==>
        && r == TypeError
        && t.kind == old(t.kind)[el := Element(old(t.kind)[el].tag, WithId(old(t.kind)[el].data, UniqueId(now)))]
        && t.parent == old(t.parent) && t.children == old(t.children)
    {
      if hasScoped.None? {
        Detect();
      }
      if hasScoped.value {
        return Ok(query(NativeScoped(selector)));
      }
      t.SetData(el, WithId(t.kind[el].data, UniqueId(now)));
      return TypeError;
    }

    /** scopedSelector and scopedSelectorAll with the fallback restoring the element's
        id and putting a space after the id selector. */
    method Scoped<R>(t: Tree, el: NodeId, selector: string, now: nat, query: string -> R)
      returns (r: R)
      requires Valid() && t.Valid() && t.IsElement(el)
      modifies this, t
      ensures Valid() && hasScoped == Some(!scopeRejected)
      ensures !scopeRejected ==> r == query(NativeScoped(selector)) && unchanged(t)
      ensures scopeRejected ==>
        && r == query(FallbackSelector(selector, now))
        && t.kind == old(t.kind)[el := Element(old(t.kind)[el].tag, WithId(old(t.kind)[el].data, IdOf(old(t.kind)[el].data.attrs)))]
        && t.parent == old(t.parent) && t.children == old(t.children)
    {
      if hasScoped.None? {
        Detect();
      }
      if hasScoped.value {
        return query(NativeScoped(selector));
      }
      var d := t.kind[el].data;
      var id := IdOf(d.attrs);
      ghost var tag := t.kind[el].tag;
      t.SetData(el, WithId(d, UniqueId(now)));
      r := query(FallbackSelector(selector, now));
      RestoredId(d, UniqueId(now));
      assert t.kind[el] == Element(tag, WithId(d, UniqueId(now)));
      t.SetData(el, WithId(t.kind[el].data, id));
    }
  }

  /** ASCII white space, which a class token may not contain: tab, line feed, form
      feed, carriage return and space. */
  predicate IsAsciiWhitespace(ch: char)
  {
    ch == '\t' || ch == '\n' || ch == '\U{000C}' || ch == '\r' || ch == ' '
  }

  /** The check `classList.add` and `remove` make: the empty token is a `SyntaxError`,
      a token with white space an `InvalidCharacterError`. */
  function TokenError(token: string): (r: Option<string>)
    ensures r.None? <==> token != "" && forall k :: 0 <= k < |token| ==> !IsAsciiWhitespace(token[k])
    ensures r.Some? ==> r.value in {"SyntaxError", "InvalidCharacterError"}
  {
    if token == "" then Some("SyntaxError")
    else if exists k :: 0 <= k < |token| && IsAsciiWhitespace(token[k]) then Some("InvalidCharacterError")
    else None
  }

  /** `classList.add(token)`: appended unless already present. */
  function AddToken(tokens: seq<string>, token: string): (r: seq<string>)
    ensures forall x :: x in r <==> x in tokens || x == token
    ensures token in tokens ==> r == tokens
    ensures token !in tokens ==> r == tokens + [token]
    ensures (forall i, j :: 0 <= i < j < |tokens| ==> tokens[i] != tokens[j]) ==>
              forall i, j :: 0 <= i < j < |r| ==> r[i] != r[j]
  {
    if token in tokens then tokens else tokens + [token]
  }

  /** toggleClass on a class list: with no `force` the token is removed when present
      and added otherwise, with `force` it is added when true and removed when false.
      The result is the new list and whether the token is now present. */
  function Toggle(tokens: seq<string>, token: string, force: Option<bool>): (r: Result<(seq<string>, bool)>)
    ensures TokenError(token).Some? ==> r == DomException(TokenError(token).value)
    ensures TokenError(token).None? ==> r.Ok? && (r.value.1 <==> token in r.value.0)
    ensures r.Ok? ==> forall x :: x != token ==> (x in r.value.0 <==> x in tokens)
    ensures r.Ok? ==> r.value.1 == force.GetOr(token !in tokens)
  {
    if TokenError(token).Some? then DomException(TokenError(token).value)
    else if force.GetOr(token !in tokens) then Ok((AddToken(tokens, token), true))
    else Ok((Without(tokens, token), false))
  }

  /** Toggling an absent token twice gives back the very same list. */
  lemma ToggleTwice(tokens: seq<string>, token: string)
    requires TokenError(token).None? && token !in tokens
    ensures Toggle(tokens, token, None).Ok?
    ensures var once := Toggle(tokens, token, None).value.0;
      Toggle(once, token, None) == Ok((tokens, false))
  {
    var once := tokens + [token];
    assert Toggle(tokens, token, None) == Ok((once, true));
    WithoutAppend(tokens, [token], token);
    WithoutAbsent(tokens, token);
    assert Without([token], token) == [];
    assert tokens + [] == tokens;
  }

  /** Leaving `x` out of a concatenation leaves it out of each part. */
  lemma {:induction false} WithoutAppend<T(!new)>(a: seq<T>, b: seq<T>, x: T)
    ensures Without(a + b, x) == Without(a, x) + Without(b, x)
  {
    if |a| > 0 {
      assert (a + b)[1..] == a[1..] + b;
      WithoutAppend(a[1..], b, x);
    } else {
      assert a + b == b;
    }
  }

  /** toggleClass: a node without a class list (not an element) throws a `TypeError`; an
      invalid token throws the `DOMException` of `Toggle`; otherwise the element's class
      list becomes `Toggle`'s and nothing else changes. */
  method ToggleClass(t: Tree, el: NodeId, className: string, force: Option<bool>) returns (r: Result<bool>)
    requires t.Valid() && el in t.kind
    modifies t
    ensures t.Valid()
    ensures !old(t.IsElement(el)) ==> r == TypeError && unchanged(t)
    ensures old(t.IsElement(el)) ==>
      var d := old(t.kind)[el].data;
      var res := Toggle(d.classes, className, force);
      && (res.DomException? ==> r == DomException(res.name) && unchanged(t))
      && (res.Ok? ==>
            && r == Ok(res.value.1)
            && t.kind == old(t.kind)[el := Element(old(t.kind)[el].tag, d.(classes := res.value.0))]
            && t.parent == old(t.parent) && t.children == old(t.children))
  {
    if !t.IsElement(el) {
      return TypeError;
    }
    var d := t.kind[el].data;
    var res := Toggle(d.classes, className, force);
    if res.DomException? {
      return DomException(res.name);
    }
    t.SetData(el, d.(classes := res.value.0));
    r := Ok(res.value.1);
  }
}
