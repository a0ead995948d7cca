/** The document tree the helpers of lib/DomCompat.js and lib/Dom.js work on: nodes with
    a kind, a parent link and an ordered list of children, and the four host
    operations they are built from (create a node, insert a detached node, detach a node,
    replace an element's data). */
module DomTree {
  import opened Base
  import CssBox

  type NodeId = int

  /** A JavaScript value handed to the helpers: `undefined`, `null`, a primitive (kept
      as its `String(value)` text) or a plain object (its own entries, as
      `setCssProps` reads them). */
  datatype JsValue = Undefined | Null | Primitive(text: string) | Object(entries: map<string, Option<string>>)

  /** `String(value)`: a plain object prints as `[object Object]`. */
  function StringOf(v: JsValue): (s: string)
    requires !v.Undefined? && !v.Null?
    ensures v.Primitive? ==> s == v.text
    ensures v.Object? ==> s == "[object Object]"
  {
    if v.Primitive? then v.text else "[object Object]"
  }

  /** What an element carries: content attributes, the IDL properties written
      directly (`innerHTML`, `readOnly`, `tabIndex`, `textContent`), the inline style,
      and the class list (an ordered set of tokens). */
  datatype ElementData = ElementData(attrs: map<string, string>, props: map<string, JsValue>,
                                     style: map<string, CssBox.CssValue>, classes: seq<string>)

  const EmptyData := ElementData(map[], map[], map[], [])

  /** An element, a text node, a document, or a `DocumentFragment`, the parentless
      container `document.createDocumentFragment()` makes. */
  datatype NodeKind = Element(tag: string, data: ElementData) | TextNode(text: string) | DocumentNode | FragmentNode
  {
    /** Whether a node of this kind can be the child of another: documents and fragments
        cannot. */
    predicate CanBeChild()
    {
      Element? || TextNode?
    }
  }

  /** No node occurs twice. */
  ghost predicate NoDuplicates(s: seq<NodeId>)
  {
    forall i, j :: 0 <= i < j < |s| ==> s[i] != s[j]
  }

  /** Parent links and child lists agree, child lists hold no node twice, text nodes
      have no children, and every id is below `nextId`. */
  ghost predicate WellShaped(kind: map<NodeId, NodeKind>, parent: map<NodeId, NodeId>,
                             children: map<NodeId, seq<NodeId>>, nextId: nat)
  {
    && children.Keys == kind.Keys
    && (forall n :: n in kind ==> n < nextId)
    && (forall c :: c in parent ==> c in kind && parent[c] in kind && c in children[parent[c]])
    && (forall p, c :: p in children && c in children[p] ==> c in parent && parent[c] == p)
    && (forall p :: p in children ==> NoDuplicates(children[p]))
    && (forall p :: p in kind && kind[p].TextNode? ==> children[p] == [])
  }

  /** `anc` maps every node to its ancestors, itself included, following `parent`;
      the parent links never form a cycle. */
  ghost predicate AncestorsOf(parent: map<NodeId, NodeId>, anc: map<NodeId, set<NodeId>>)
  {
    && (forall x :: x in anc ==> anc[x] <= anc.Keys)
    && (forall x :: x in anc && x !in parent ==> anc[x] == {x})
    && (forall x {:trigger parent[x]} :: x in anc && x in parent ==>
          parent[x] in anc && anc[x] == {x} + anc[parent[x]] && x !in anc[parent[x]])
  }

  /** The topmost ancestor of `x`: what `getRootNode` returns. */
  ghost function RootOf(parent: map<NodeId, NodeId>, anc: map<NodeId, set<NodeId>>, x: NodeId): (r: NodeId)
    requires AncestorsOf(parent, anc) && x in anc
    ensures r in anc[x] && r !in parent && r in anc
    decreases anc[x]
  {
    if x in parent then
      assert anc[parent[x]] < anc[x];
      RootOf(parent, anc, parent[x])
    else x
  }

  /** An ancestor's ancestors are ancestors. */
  lemma {:induction false} AncestorsTransitive(parent: map<NodeId, NodeId>, anc: map<NodeId, set<NodeId>>, x: NodeId, y: NodeId)
    requires AncestorsOf(parent, anc) && x in anc && y in anc[x]
    ensures y in anc && anc[y] <= anc[x]
    decreases anc[x]
  {
    if y != x {
      assert x in parent;
      assert anc[parent[x]] < anc[x];
      AncestorsTransitive(parent, anc, parent[x], y);
    }
  }

  /** Two nodes with no parent that are both ancestors of `x` are the same node. */
  lemma {:induction false} RootIsUnique(parent: map<NodeId, NodeId>, anc: map<NodeId, set<NodeId>>, x: NodeId, y: NodeId)
    requires AncestorsOf(parent, anc) && x in anc && y in anc[x] && y !in parent
    ensures y == RootOf(parent, anc, x)
    decreases anc[x]
  {
    if x in parent {
      assert anc[parent[x]] < anc[x];
      RootIsUnique(parent, anc, parent[x], y);
    }
  }

  /** The ancestor sets after `n` is made a child of `p`. */
  ghost function AncestorsAfterInsert(anc: map<NodeId, set<NodeId>>, p: NodeId, n: NodeId): (r: map<NodeId, set<NodeId>>)
    requires p in anc
    ensures r.Keys == anc.Keys
  {
    map x | x in anc :: if n in anc[x] then anc[x] + anc[p] else anc[x]
  }

  /** The ancestor sets after `c` leaves its parent `p`. */
  ghost function AncestorsAfterDetach(anc: map<NodeId, set<NodeId>>, p: NodeId, c: NodeId): (r: map<NodeId, set<NodeId>>)
    requires p in anc
    ensures r.Keys == anc.Keys
  {
    map x | x in anc :: if c in anc[x] then anc[x] - anc[p] else anc[x]
  }

  /** Attaching a parentless node under a node that is not below it keeps the
      ancestor sets exact and acyclic. */
  lemma InsertKeepsAncestors(parent: map<NodeId, NodeId>, anc: map<NodeId, set<NodeId>>, p: NodeId, n: NodeId)
    requires AncestorsOf(parent, anc) && p in anc && n in anc && n !in parent && n !in anc[p]
    ensures AncestorsOf(parent[n := p], AncestorsAfterInsert(anc, p, n))
  {
    var parent', anc' := parent[n := p], AncestorsAfterInsert(anc, p, n);
    assert anc'[p] == anc[p];
    forall x | x in anc' && x in parent'
      ensures parent'[x] in anc' && anc'[x] == {x} + anc'[parent'[x]] && x !in anc'[parent'[x]]
    {
      if x != n {
        var q := parent[x];
        if n in anc[x] {
          assert n in anc[q];
          if x in anc[p] {
            AncestorsTransitive(parent, anc, p, x);
            assert false;
          }
        }
      }
    }
  }

  /** Detaching a node keeps the ancestor sets exact and acyclic. */
  lemma DetachKeepsAncestors(parent: map<NodeId, NodeId>, anc: map<NodeId, set<NodeId>>, c: NodeId)
    requires AncestorsOf(parent, anc) && c in anc && c in parent
    ensures AncestorsOf(parent - {c}, AncestorsAfterDetach(anc, parent[c], c))
  {
    var p := parent[c];
    var parent', anc' := parent - {c}, AncestorsAfterDetach(anc, p, c);
    assert c !in anc[p];
    forall x | x in anc' && x in parent'
      ensures parent'[x] in anc' && anc'[x] == {x} + anc'[parent'[x]] && x !in anc'[parent'[x]]
    {
      if c in anc[x] {
        if x in anc[p] {
          AncestorsTransitive(parent, anc, p, x);
          assert false;
        }
      }
    }
  }

  /** A new node with a fresh id and no children keeps the tree well shaped. */
  lemma NewNodeKeepsShape(kind: map<NodeId, NodeKind>, parent: map<NodeId, NodeId>,
                          children: map<NodeId, seq<NodeId>>, nextId: nat, k: NodeKind)
    requires WellShaped(kind, parent, children, nextId)
    ensures WellShaped(kind[nextId := k], parent, children[nextId := []], nextId + 1)
  {
    assert nextId !in kind && nextId !in parent;
    var children' := children[nextId := []];
    forall c | c in parent
      ensures c in children'[parent[c]]
    {
      assert parent[c] != nextId;
    }
  }

  /** A new parentless node is its own only ancestor. */
  lemma NewNodeKeepsAncestors(parent: map<NodeId, NodeId>, anc: map<NodeId, set<NodeId>>, n: NodeId)
    requires AncestorsOf(parent, anc) && n !in anc && n !in parent
    ensures AncestorsOf(parent, anc[n := {n}])
  {
    forall x | x in anc
      ensures n !in anc[x]
    {
    }
  }

  /** The members of `s` with `n` put at position `i`. */
  lemma SpliceMembers(s: seq<NodeId>, i: nat, n: NodeId)
    requires i <= |s|
    ensures forall c :: c in s[..i] + [n] + s[i..] <==> c == n || c in s
    ensures NoDuplicates(s) && n !in s ==> NoDuplicates(s[..i] + [n] + s[i..])
  {
    assert s == s[..i] + s[i..];
    var r := s[..i] + [n] + s[i..];
    assert forall k :: 0 <= k < |r| ==> r[k] == (if k < i then s[k] else if k == i then n else s[k - 1]);
  }

  /** The members of `s` with position `i` left out. */
  lemma CutMembers(s: seq<NodeId>, i: nat)
    requires i < |s| && NoDuplicates(s)
    ensures forall c :: c in s[..i] + s[i + 1..] <==> c in s && c != s[i]
    ensures NoDuplicates(s[..i] + s[i + 1..])
  {
    assert s == s[..i] + [s[i]] + s[i + 1..];
    var r := s[..i] + s[i + 1..];
    assert forall k :: 0 <= k < |r| ==> r[k] == s[if k < i then k else k + 1];
  }

  /** After inserting `n` at position `i` of `p`, every parent link is matched by a
      child list entry. */
  lemma InsertKeepsParentLinks(kind: map<NodeId, NodeKind>, parent: map<NodeId, NodeId>,
                               children: map<NodeId, seq<NodeId>>, nextId: nat, p: NodeId, n: NodeId, i: nat)
    requires WellShaped(kind, parent, children, nextId)
    requires p in kind && n in kind && n !in parent && i <= |children[p]|
    ensures var parent', children' := parent[n := p], children[p := children[p][..i] + [n] + children[p][i..]];
      forall c :: c in parent' ==> c in kind && parent'[c] in kind && c in children'[parent'[c]]
  {
    var parent', children' := parent[n := p], children[p := children[p][..i] + [n] + children[p][i..]];
    SpliceMembers(children[p], i, n);
    forall c | c in parent'
      ensures c in kind && parent'[c] in kind && c in children'[parent'[c]]
    {
    }
  }

  /** After inserting `n` at position `i` of `p`, every child list entry is matched by
      a parent link, and no child list holds a node twice. */
  lemma InsertKeepsChildLists(kind: map<NodeId, NodeKind>, parent: map<NodeId, NodeId>,
                              children: map<NodeId, seq<NodeId>>, nextId: nat, p: NodeId, n: NodeId, i: nat)
    requires WellShaped(kind, parent, children, nextId)
    requires p in kind && n in kind && n !in parent && i <= |children[p]|
    ensures var parent', children' := parent[n := p], children[p := children[p][..i] + [n] + children[p][i..]];
      && (forall q, c :: q in children' && c in children'[q] ==> c in parent' && parent'[c] == q)
      && (forall q :: q in children' ==> NoDuplicates(children'[q]))
  {
    var parent', children' := parent[n := p], children[p := children[p][..i] + [n] + children[p][i..]];
    SpliceMembers(children[p], i, n);
    forall q, c | q in children' && c in children'[q]
      ensures c in parent' && parent'[c] == q
    {
    }
    forall q | q in children'
      ensures NoDuplicates(children'[q])
    {
    }
  }

  /** Inserting a parentless, distinct node at position `i` keeps the tree well shaped. */
  lemma InsertKeepsShape(kind: map<NodeId, NodeKind>, parent: map<NodeId, NodeId>,
                         children: map<NodeId, seq<NodeId>>, nextId: nat, p: NodeId, n: NodeId, i: nat)
    requires WellShaped(kind, parent, children, nextId)
    requires p in kind && n in kind && n !in parent && n != p && !kind[p].TextNode? && i <= |children[p]|
    ensures WellShaped(kind, parent[n := p], children[p := children[p][..i] + [n] + children[p][i..]], nextId)
  {
    InsertKeepsParentLinks(kind, parent, children, nextId, p, n, i);
    InsertKeepsChildLists(kind, parent, children, nextId, p, n, i);
  }

  /** Removing the child at position `i` of `p` keeps the tree well shaped. */
  lemma DetachKeepsShape(kind: map<NodeId, NodeKind>, parent: map<NodeId, NodeId>,
                         children: map<NodeId, seq<NodeId>>, nextId: nat, c: NodeId, i: nat)
    requires WellShaped(kind, parent, children, nextId) && c in parent
    requires i < |children[parent[c]]| && children[parent[c]][i] == c
    ensures var p := parent[c];
      WellShaped(kind, parent - {c}, children[p := children[p][..i] + children[p][i + 1..]], nextId)
  {
    var p := parent[c];
    var parent', children' := parent - {c}, children[p := children[p][..i] + children[p][i + 1..]];
    CutMembers(children[p], i);
    forall x | x in parent'
      ensures x in kind && parent'[x] in kind && x in children'[parent'[x]]
    {
    }
    forall q, x | q in children' && x in children'[q]
      ensures x in parent' && parent'[x] == q
    {
    }
    forall q | q in children'
      ensures NoDuplicates(children'[q])
    {
    }
  }

  /** A document or a fragment is never the child of another node. */
  ghost predicate OnlyChildKindsAttached(kind: map<NodeId, NodeKind>, parent: map<NodeId, NodeId>)
  {
    forall c :: c in parent && c in kind ==> kind[c].CanBeChild()
  }

  /** A well-shaped tree with exact ancestor sets for every node, in which documents
      and fragments have no parent. */
  ghost predicate ValidState(kind: map<NodeId, NodeKind>, parent: map<NodeId, NodeId>,
                             children: map<NodeId, seq<NodeId>>, nextId: nat, anc: map<NodeId, set<NodeId>>)
  {
    && WellShaped(kind, parent, children, nextId) && anc.Keys == kind.Keys && AncestorsOf(parent, anc)
    && OnlyChildKindsAttached(kind, parent)
  }

  /** Removing `c` from the child list of its parent keeps the tree valid; `c` sits at
      the position `IndexOf` finds. */
  lemma DetachKeepsValid(kind: map<NodeId, NodeKind>, parent: map<NodeId, NodeId>,
                         children: map<NodeId, seq<NodeId>>, nextId: nat, anc: map<NodeId, set<NodeId>>,
                         c: NodeId, p: NodeId, i: nat)
    requires ValidState(kind, parent, children, nextId, anc) && c in parent
    requires p == parent[c] && i == IndexOf(children[p], c)
    ensures i < |children[p]| && children[p][i] == c
    ensures ValidState(kind, parent - {c}, children[p := children[p][..i] + children[p][i + 1..]], nextId,
                       AncestorsAfterDetach(anc, p, c))
  {
    DetachKeepsShape(kind, parent, children, nextId, c, i);
    DetachKeepsAncestors(parent, anc, c);
  }

  /** Inserting a detached node under a node that is not below it keeps the tree valid. */
  lemma InsertKeepsValid(kind: map<NodeId, NodeKind>, parent: map<NodeId, NodeId>,
                         children: map<NodeId, seq<NodeId>>, nextId: nat, anc: map<NodeId, set<NodeId>>,
                         p: NodeId, n: NodeId, i: nat)
    requires ValidState(kind, parent, children, nextId, anc)
    requires p in kind && n in kind && n !in parent && n !in anc[p] && !kind[p].TextNode? && i <= |children[p]|
    requires kind[n].CanBeChild()
    ensures ValidState(kind, parent[n := p], children[p := children[p][..i] + [n] + children[p][i..]], nextId,
                       AncestorsAfterInsert(anc, p, n))
  {
    InsertKeepsShape(kind, parent, children, nextId, p, n, i);
    InsertKeepsAncestors(parent, anc, p, n);
  }

  /** A new node with the next id, no parent and no children keeps the tree valid. */
  lemma NewNodeKeepsValid(kind: map<NodeId, NodeKind>, parent: map<NodeId, NodeId>,
                          children: map<NodeId, seq<NodeId>>, nextId: nat, anc: map<NodeId, set<NodeId>>,
                          k: NodeKind)
    requires ValidState(kind, parent, children, nextId, anc)
    ensures nextId !in kind
    ensures ValidState(kind[nextId := k], parent, children[nextId := []], nextId + 1, anc[nextId := {nextId}])
  {
    NewNodeKeepsShape(kind, parent, children, nextId, k);
    assert nextId !in anc && nextId !in parent;
    NewNodeKeepsAncestors(parent, anc, nextId);
  }

  /** Replacing what an element carries keeps the tree valid. */
  lemma SetDataKeepsValid(kind: map<NodeId, NodeKind>, parent: map<NodeId, NodeId>,
                          children: map<NodeId, seq<NodeId>>, nextId: nat, anc: map<NodeId, set<NodeId>>,
                          n: NodeId, d: ElementData)
    requires ValidState(kind, parent, children, nextId, anc) && n in kind && kind[n].Element?
    ensures ValidState(kind[n := Element(kind[n].tag, d)], parent, children, nextId, anc)
  {
    var kind' := kind[n := Element(kind[n].tag, d)];
    assert kind'.Keys == kind.Keys;
    assert forall p :: p in kind' && kind'[p].TextNode? ==> p in kind && kind[p].TextNode?;
  }

  /** The nodes of one document: every node has a kind and a child list; `parent`
      holds the links of the nodes that are attached. */
  class Tree {
    var kind: map<NodeId, NodeKind>
    var parent: map<NodeId, NodeId>
    var children: map<NodeId, seq<NodeId>>
    var nextId: nat
    /** The ancestors of every node, itself included. */
    ghost var anc: map<NodeId, set<NodeId>>

    ghost predicate Valid()
      reads this
    {
      ValidState(kind, parent, children, nextId, anc)
    }

    /** A node that may be inserted: it exists, is not attached, and is neither a document
        nor a fragment. */
    predicate Insertable(n: NodeId)
      reads this
    {
      n in kind && n !in parent && kind[n].CanBeChild()
    }

    predicate IsElement(n: NodeId)
      reads this
    {
      n in kind && kind[n].Element?
    }

    constructor ()
      ensures Valid()
      ensures kind == map[] && parent == map[] && children == map[] && nextId == 0
    {
      kind := map[];
      parent := map[];
      children := map[];
      nextId := 0;
      anc := map[];
    }

    /** `document.createElement`/`createTextNode`: a new node, in no tree. */
    method NewNode(k: NodeKind) returns (n: NodeId)
      requires Valid()
      modifies this
      ensures Valid()
      ensures n == old(nextId) && n !in old(kind) && nextId == n + 1
      ensures kind == old(kind)[n := k] && children == old(children)[n := []]
      ensures parent == old(parent) && anc == old(anc)[n := {n}]
    {
      n := nextId;
      NewNodeKeepsValid(kind, parent, children, nextId, anc, k);
      kind, children, anc, nextId := kind[n := k], children[n := []], anc[n := {n}], nextId + 1;
    }

    /** Replaces what an element carries: its attributes, properties, style and classes. */
    method SetData(n: NodeId, d: ElementData)
      requires Valid() && IsElement(n)
      modifies this
      ensures Valid()
      ensures kind == old(kind)[n := Element(old(kind)[n].tag, d)]
      ensures parent == old(parent) && children == old(children) && nextId == old(nextId) && anc == old(anc)
    {
      SetDataKeepsValid(kind, parent, children, nextId, anc, n, d);
      kind := kind[n := Element(kind[n].tag, d)];
    }

    /** `p.insertBefore(n, p.childNodes[i])` (appending when i is the length) for a
        detached `n` that is not an ancestor of `p`: `n` and every node under it gain
        `p`'s ancestors. */
    method Insert(p: NodeId, n: NodeId, i: nat)
      requires Valid() && p in kind && Insertable(n) && n !in anc[p]
      requires !kind[p].TextNode? && i <= |children[p]|
      modifies this
      ensures Valid()
      ensures children == old(children)[p := old(children)[p][..i] + [n] + old(children)[p][i..]]
      ensures parent == old(parent)[n := p]
      ensures kind == old(kind) && nextId == old(nextId)
      ensures anc == AncestorsAfterInsert(old(anc), p, n)
    {
      InsertKeepsValid(kind, parent, children, nextId, anc, p, n, i);
      children, parent, anc := children[p := children[p][..i] + [n] + children[p][i..]], parent[n := p],
                               AncestorsAfterInsert(anc, p, n);
    }

    /** `c.parentNode.removeChild(c)`: `c` leaves its parent's child list, and `c` and
        every node under it lose the ancestors above `c`. */
    method Detach(c: NodeId) returns (p: NodeId, i: nat)
      requires Valid() && c in parent
      modifies this
      ensures Valid()
      ensures p == old(parent)[c] && i < |old(children)[p]| && old(children)[p][i] == c
      ensures i == IndexOf(old(children)[p], c)
      ensures children == old(children)[p := old(children)[p][..i] + old(children)[p][i + 1..]]
      ensures parent == old(parent) - {c}
      ensures kind == old(kind) && nextId == old(nextId)
      ensures anc == AncestorsAfterDetach(old(anc), p, c)
    {
      p := parent[c];
      i := IndexOf(children[p], c);
      DetachKeepsValid(kind, parent, children, nextId, anc, c, p, i);
      children, parent, anc := children[p := children[p][..i] + children[p][i + 1..]], parent - {c},
                               AncestorsAfterDetach(anc, p, c);
    }
  }
}
