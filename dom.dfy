/** The element helpers of lib/Dom.js: building an element, setting its attributes,
    a bounded `closest`, the sibling searches and unwrapping. */
module Dom {
  import opened Base
  import opened DomTree
  import DomCompat
  import CssBox

  /** One entry of an attributes object, in the order `Object.entries` lists them. */
  type Entry = (string, JsValue)

  /** An object's own keys are distinct. */
  predicate DistinctKeys(es: seq<Entry>)
  {
    forall i, j :: 0 <= i < j < |es| ==> es[i].0 != es[j].0
  }

  /** No entry has the key `key`. */
  predicate NotListed(es: seq<Entry>, key: string)
  {
    forall j :: 0 <= j < |es| ==> es[j].0 != key
  }

  /** The attribute and the property named `key` are the same in `d` and `r`. */
  predicate Untouched(d: ElementData, r: ElementData, key: string)
  {
    && (key in r.attrs <==> key in d.attrs) && (key in d.attrs ==> r.attrs[key] == d.attrs[key])
    && (key in r.props <==> key in d.props) && (key in d.props ==> r.props[key] == d.props[key])
  }

  /** The keys set as properties with the value itself. */
  predicate IsPropKey(key: string)
  {
    key == "readOnly" || key == "tabIndex" || key == "textContent"
  }

  /** The keys that become content attributes. */
  predicate IsAttrKey(key: string)
  {
    key != "innerHTML" && key != "css" && !IsPropKey(key)
  }

  /** One entry of setElementAttrs: `null` and `undefined` are skipped; `innerHTML` is
      set to the value's text; `css` with an object is merged into the inline style by
      setCssProps; `readOnly`, `tabIndex` and `textContent` are set to the value itself;
      any other key becomes an attribute holding the value's text. */
  function ApplyAttr(d: ElementData, key: string, v: JsValue): (r: ElementData)
    ensures r.classes == d.classes
    ensures forall other :: other != key ==> Untouched(d, r, other)
    ensures key != "css" ==> r.style == d.style
  {
    if v.Undefined? || v.Null? then d
    else if key == "innerHTML" then d.(props := d.props[key := Primitive(StringOf(v))])
    else if key == "css" then (if v.Object? then d.(style := CssBox.WithCssProps(d.style, v.entries)) else d)
    else if IsPropKey(key) then d.(props := d.props[key := v])
    else d.(attrs := d.attrs[key := StringOf(v)])
  }

  /** The entries applied in order. Keys no entry names keep their attribute and
      property, the style changes only through a `css` entry, and the class list is
      never touched. */
  function ApplyAttrs(d: ElementData, es: seq<Entry>): (r: ElementData)
    ensures r.classes == d.classes
    ensures forall key :: NotListed(es, key) ==> Untouched(d, r, key)
    ensures NotListed(es, "css") ==> r.style == d.style
  {
    if |es| == 0 then d
    else
      var init := es[..|es| - 1];
      assert forall key :: NotListed(es, key) ==> NotListed(init, key);
      ApplyAttr(ApplyAttrs(d, init), es[|es| - 1].0, es[|es| - 1].1)
  }

  /** What each entry of an attributes object leaves on the element. */
  lemma {:induction false} ApplyAttrsEntry(d: ElementData, es: seq<Entry>, j: nat)
    requires DistinctKeys(es) && j < |es|
    ensures EntryApplied(d, ApplyAttrs(d, es), es[j].0, es[j].1)
    decreases |es|
  {
    var n := |es|;
    var init := es[..n - 1];
    var key := es[j].0;
    if j == n - 1 {
      assert NotListed(init, key);
      LastEntryApplied(d, ApplyAttrs(d, init), key, es[j].1);
    } else {
      assert init[j] == es[j];
      ApplyAttrsEntry(d, init, j);
      assert es[n - 1].0 != key;
      LaterEntryKeeps(d, ApplyAttrs(d, init), key, es[j].1, es[n - 1].0, es[n - 1].1);
    }
  }

  /** What the entry (key, v) leaves on `r`, starting from `d`: `null` and `undefined`
      leave the attribute, the property and the style as they were; any other value is
      stored as ApplyAttr describes. */
  predicate EntryApplied(d: ElementData, r: ElementData, key: string, v: JsValue)
  {
    && (v.Undefined? || v.Null? ==> Untouched(d, r, key) && (key == "css" ==> r.style == d.style))
    && (!v.Undefined? && !v.Null? ==>
          && (key == "innerHTML" ==> key in r.props && r.props[key] == Primitive(StringOf(v)))
          && (key == "css" ==> r.style == if v.Object? then CssBox.WithCssProps(d.style, v.entries) else d.style)
          && (IsPropKey(key) ==> key in r.props && r.props[key] == v)
          && (IsAttrKey(key) ==> key in r.attrs && r.attrs[key] == StringOf(v)))
  }

  /** The last entry for a key the earlier entries left alone. */
  lemma LastEntryApplied(d: ElementData, m: ElementData, key: string, v: JsValue)
    requires Untouched(d, m, key) && (key == "css" ==> m.style == d.style)
    ensures EntryApplied(d, ApplyAttr(m, key, v), key, v)
  {
  }

  /** An entry for another key keeps what an earlier entry left. */
  lemma LaterEntryKeeps(d: ElementData, m: ElementData, key: string, v: JsValue, key2: string, v2: JsValue)
    requires EntryApplied(d, m, key, v) && key2 != key
    ensures EntryApplied(d, ApplyAttr(m, key2, v2), key, v)
  {
    assert Untouched(m, ApplyAttr(m, key2, v2), key);
  }

  /** setElementAttrs: the element's data becomes `ApplyAttrs` of its old data; nothing
      else in the tree changes. */
  method SetElementAttrs(t: Tree, el: NodeId, es: seq<Entry>)
    requires t.Valid() && t.IsElement(el)
    modifies t
    ensures t.Valid() && t.IsElement(el)
    ensures t.kind == old(t.kind)[el := Element(old(t.kind)[el].tag, ApplyAttrs(old(t.kind)[el].data, es))]
    ensures t.parent == old(t.parent) && t.children == old(t.children) && t.nextId == old(t.nextId)
    ensures t.anc == old(t.anc)
  {
    var k := 0;
    while k < |es|
      invariant 0 <= k <= |es|
      invariant t.Valid() && t.IsElement(el)
      invariant t.kind == old(t.kind)[el := Element(old(t.kind)[el].tag, ApplyAttrs(old(t.kind)[el].data, es[..k]))]
      invariant t.parent == old(t.parent) && t.children == old(t.children) && t.nextId == old(t.nextId)
      invariant t.anc == old(t.anc)
    {
      assert es[..k + 1][..k] == es[..k];
      var key, v := es[k].0, es[k].1;
      if !v.Undefined? && !v.Null? {
        t.SetData(el, ApplyAttr(t.kind[el].data, key, v));
      }
      k := k + 1;
    }
    assert es[..k] == es;
  }

  /** The `children` argument of createElement: a node, an array of nodes, or any
      other value, which adds nothing. */
  datatype ChildrenArg = OneNode(id: NodeId) | NodeArray(ids: seq<NodeId>) | OtherValue

  /** The nodes appended, in order. */
  function ChildList(c: ChildrenArg): seq<NodeId>
  {
    match c
    case OneNode(id) => [id]
    case NodeArray(ids) => ids
    case OtherValue => []
  }

  /** The nodes as insertion arguments. */
  function Refs(ids: seq<NodeId>): (r: seq<DomCompat.NodeArg>)
    ensures |r| == |ids| && forall k :: 0 <= k < |ids| ==> r[k] == DomCompat.NodeRef(ids[k])
  {
    seq(|ids|, k requires 0 <= k < |ids| => DomCompat.NodeRef(ids[k]))
  }

  /** createElement: a new element with the tag, the attributes applied (when an
      object is given) and the children appended in order; the appended nodes gain the
      new element as parent and nothing else changes. */
  method CreateElement(t: Tree, tag: string, attrs: Option<seq<Entry>>, children: ChildrenArg) returns (el: NodeId)
    requires t.Valid() && DomCompat.ArgsInsertable(t, Refs(ChildList(children)))
    modifies t
    ensures t.Valid()
    ensures el == old(t.nextId) && el !in old(t.kind)
    ensures t.kind == old(t.kind)[el := Element(tag, ApplyAttrs(EmptyData, attrs.GetOr([])))]
    ensures t.children == old(t.children)[el := ChildList(children)]
    ensures forall x :: x in t.parent <==> x in old(t.parent) || x in ChildList(children)
    ensures forall x :: x in t.parent ==> t.parent[x] == if x in ChildList(children) then el else old(t.parent)[x]
  {
    el := NewElement(t, tag, attrs);
    AppendToNew(t, el, ChildList(children));
  }

  /** Appends `ids`, in order, to the childless element `el`: the kinds stay, `el`'s
      child list becomes `ids`, and exactly those nodes gain `el` as their parent. */
  method AppendToNew(t: Tree, el: NodeId, ids: seq<NodeId>)
    requires t.Valid() && t.IsElement(el) && t.children[el] == [] && t.anc[el] == {el}
    requires DomCompat.ArgsInsertable(t, Refs(ids)) && el !in ids
    modifies t
    ensures t.Valid() && t.kind == old(t.kind)
    ensures t.children == old(t.children)[el := ids]
    ensures forall x :: x in t.parent <==> x in old(t.parent) || x in ids
    ensures forall x :: x in t.parent ==> t.parent[x] == if x in ids then el else old(t.parent)[x]
  {
    var args := Refs(ids);
    forall k | 0 <= k < |ids|
      ensures t.Insertable(ids[k]) && ids[k] !in t.anc[el]
    {
      assert t.Insertable(args[k].id);
    }
    ghost var ins := DomCompat.InsertArgs(t, el, 0, args);
    ghost var kind2, parent2, children2 := t.kind, t.parent, t.children;
    assert children2.Keys == kind2.Keys && old(t.children).Keys == old(t.kind).Keys by {
      assert WellShaped(kind2, parent2, children2, t.nextId);
      assert old(WellShaped(t.kind, t.parent, t.children, t.nextId));
    }
    ChildrenAppended(old(t.kind), old(t.parent), old(t.children), kind2, parent2, children2, el, ids, ins);
  }

  /** What appending `ids` to the new element `el` did: the kinds are unchanged, `el`'s
      child list is `ids`, and exactly the appended nodes gain `el` as their parent. */
  lemma ChildrenAppended(kind1: map<NodeId, NodeKind>, parent1: map<NodeId, NodeId>, children1: map<NodeId, seq<NodeId>>,
                         kind2: map<NodeId, NodeKind>, parent2: map<NodeId, NodeId>, children2: map<NodeId, seq<NodeId>>,
                         el: NodeId, ids: seq<NodeId>, ins: seq<NodeId>)
    requires DomCompat.InsertedAll(kind1, parent1, kind2, parent2, el, Refs(ids), ins)
    requires forall k :: 0 <= k < |ids| ==> ids[k] in kind1 && ids[k] !in parent1
    requires el in children1 && children1[el] == [] && el in children2
    requires children2.Keys == kind2.Keys && children1.Keys == kind1.Keys
    requires children2[el] == children1[el][..0] + ins + children1[el][0..]
    requires forall q :: q in children1 && q != el ==> q in children2 && children2[q] == children1[q]
    ensures kind2 == kind1 && children2 == children1[el := ids]
    ensures forall x :: x in parent2 <==> x in parent1 || x in ids
    ensures forall x :: x in parent2 ==> parent2[x] == if x in ids then el else parent1[x]
  {
    InsertedRefs(kind1, parent1, kind2, parent2, el, ids, ins);
    assert children2[el] == ids;
    assert children2.Keys == children1[el := ids].Keys;
    forall q | q in children2
      ensures children2[q] == children1[el := ids][q]
    {
    }
  }

  /** The element createElement starts from: a new element with the tag and the
      attributes applied, in no tree and with no children. */
  method NewElement(t: Tree, tag: string, attrs: Option<seq<Entry>>) returns (el: NodeId)
    requires t.Valid()
    modifies t
    ensures t.Valid()
    ensures el == old(t.nextId) && el !in old(t.kind) && t.nextId == el + 1
    ensures t.kind == old(t.kind)[el := Element(tag, ApplyAttrs(EmptyData, attrs.GetOr([])))]
    ensures t.children == old(t.children)[el := []] && t.parent == old(t.parent)
    ensures t.anc == old(t.anc)[el := {el}]
  {
    el := t.NewNode(Element(tag, EmptyData));
    if attrs.Some? {
      SetElementAttrs(t, el, attrs.value);
    }
  }

  /** Inserting nodes that exist and are unattached, given as node arguments: the
      inserted nodes are those nodes, no node is created, and exactly they gain the
      parent. */
  lemma InsertedRefs(kind0: map<NodeId, NodeKind>, parent0: map<NodeId, NodeId>,
                     kind1: map<NodeId, NodeKind>, parent1: map<NodeId, NodeId>,
                     p: NodeId, ids: seq<NodeId>, ins: seq<NodeId>)
    requires DomCompat.InsertedAll(kind0, parent0, kind1, parent1, p, Refs(ids), ins)
    requires forall k :: 0 <= k < |ids| ==> ids[k] in kind0 && ids[k] !in parent0
    ensures ins == ids && kind1 == kind0
    ensures forall x :: x in parent1 <==> x in parent0 || x in ids
    ensures forall x :: x in parent1 ==> parent1[x] == if x in ids then p else parent0[x]
  {
    assert ins == ids;
    forall x | x in kind1
      ensures x in kind0
    {
      if x in ins {
        var k :| 0 <= k < |ins| && ins[k] == x;
        assert ids[k] in kind0;
      }
    }
    forall x | x in kind0
      ensures x in kind1
    {
    }
    assert kind1.Keys == kind0.Keys;
    assert forall x :: x in kind1 ==> kind1[x] == kind0[x];
  }

  /** `s` up to and including the first `until`; all of `s` when `until` is absent. */
  function CutAfter(s: seq<NodeId>, until: NodeId): (r: seq<NodeId>)
    ensures r <= s
    ensures until in s ==> |r| > 0 && r[|r| - 1] == until && until !in r[..|r| - 1]
    ensures until !in s ==> r == s
  {
    if |s| == 0 then []
    else if s[0] == until then [s[0]]
    else
      var rest := CutAfter(s[1..], until);
      assert s == [s[0]] + s[1..];
      assert until in s ==> until in s[1..];
      [s[0]] + rest
  }

  /** Cutting the candidates short can only lose the match, never change it. */
  lemma {:induction false} CutAfterNarrows(s: seq<NodeId>, until: NodeId, sel: set<NodeId>)
    ensures var r := DomCompat.FirstMatch(CutAfter(s, until), sel);
      r.Some? ==> r == DomCompat.FirstMatch(s, sel)
  {
    if |s| > 0 && s[0] != until && s[0] !in sel {
      CutAfterNarrows(s[1..], until, sel);
      assert ([s[0]] + CutAfter(s[1..], until))[1..] == CutAfter(s[1..], until);
    }
  }

  /** closestUntil: the first element of `el`'s `closest` chain that the selector
      matches, but no further up than `until`. Without `until` this is `closest`;
      on a node that is not an element it throws. */
  method ClosestUntil(t: Tree, el: NodeId, sel: set<NodeId>, until: Option<NodeId>) returns (r: Result<Option<NodeId>>)
    requires t.Valid() && el in t.kind
    ensures !t.IsElement(el) ==> r == TypeError
    ensures t.IsElement(el) && until.None? ==>
      r == Ok(DomCompat.FirstMatch(DomCompat.ElementChain(t.kind, t.parent, t.anc, el), sel))
    ensures t.IsElement(el) && until.Some? ==>
      r == Ok(DomCompat.FirstMatch(CutAfter(DomCompat.ElementChain(t.kind, t.parent, t.anc, el), until.value), sel))
  {
    if until.None? {
      r := DomCompat.Closest(t, el, sel);
      return;
    }
    if !t.IsElement(el) {
      return TypeError;
    }
    var u := until.value;
    var cur := el;
    while true
      invariant cur in t.anc
      invariant DomCompat.FirstMatch(CutAfter(DomCompat.ElementChain(t.kind, t.parent, t.anc, cur), u), sel)
                == DomCompat.FirstMatch(CutAfter(DomCompat.ElementChain(t.kind, t.parent, t.anc, el), u), sel)
      decreases t.anc[cur]
    {
      if cur in sel {
        return Ok(Some(cur));
      }
      if cur == u {
        return Ok(None);
      }
      if cur in t.parent && t.IsElement(t.parent[cur]) {
        var up := t.parent[cur];
        assert t.anc[up] < t.anc[cur];
        ghost var rest := CutAfter(DomCompat.ElementChain(t.kind, t.parent, t.anc, up), u);
        assert DomCompat.ElementChain(t.kind, t.parent, t.anc, cur) == [cur] + DomCompat.ElementChain(t.kind, t.parent, t.anc, up);
        assert ([cur] + rest)[1..] == rest;
        cur := up;
      } else {
        return Ok(None);
      }
    }
  }

  /** The elements of `s`, first to last: the order `nextElementSibling` visits them. */
  function ElementsForward(kind: map<NodeId, NodeKind>, s: seq<NodeId>): seq<NodeId>
    requires forall k :: 0 <= k < |s| ==> s[k] in kind
  {
    if |s| == 0 then []
    else (if kind[s[0]].Element? then [s[0]] else []) + ElementsForward(kind, s[1..])
  }

  /** The elements of `s`, last to first: the order `previousElementSibling` visits them. */
  function ElementsBackward(kind: map<NodeId, NodeKind>, s: seq<NodeId>): seq<NodeId>
    requires forall k :: 0 <= k < |s| ==> s[k] in kind
  {
    if |s| == 0 then []
    else
      var last := s[|s| - 1];
      (if kind[last].Element? then [last] else []) + ElementsBackward(kind, s[..|s| - 1])
  }

  /** The forward walk meets exactly the elements among `s`. */
  lemma {:induction false} ForwardMembers(kind: map<NodeId, NodeKind>, s: seq<NodeId>)
    requires forall k :: 0 <= k < |s| ==> s[k] in kind
    ensures forall x :: x in ElementsForward(kind, s) <==> x in s && kind[x].Element?
  {
    if |s| > 0 {
      ForwardMembers(kind, s[1..]);
      assert s == [s[0]] + s[1..];
    }
  }

  /** The backward walk meets exactly the elements among `s`. */
  lemma BackwardMembers(kind: map<NodeId, NodeKind>, s: seq<NodeId>)
    requires forall k :: 0 <= k < |s| ==> s[k] in kind
    ensures forall x :: x in ElementsBackward(kind, s) <==> x in s && kind[x].Element?
  {
    ForwardMembers(kind, s);
    BackwardIsReversedForward(kind, s);
    var f := ElementsForward(kind, s);
    forall x | x in f
      ensures x in Reverse(f)
    {
      var k :| 0 <= k < |f| && f[k] == x;
      assert Reverse(f)[|f| - 1 - k] == x;
    }
  }

  /** `s` back to front. */
  function Reverse(s: seq<NodeId>): (r: seq<NodeId>)
    ensures |r| == |s| && forall k :: 0 <= k < |s| ==> r[k] == s[|s| - 1 - k]
  {
    if |s| == 0 then [] else Reverse(s[1..]) + [s[0]]
  }

  /** Reversing a concatenation reverses the order of the parts. */
  lemma ReverseAppend(a: seq<NodeId>, b: seq<NodeId>)
    ensures Reverse(a + b) == Reverse(b) + Reverse(a)
  {
    var l, r := a + b, Reverse(b) + Reverse(a);
    assert forall k :: 0 <= k < |l| ==> Reverse(l)[k] == r[k];
  }

  /** Walking back through the siblings meets the same elements as walking forward,
      in the opposite order. */
  lemma {:induction false} BackwardIsReversedForward(kind: map<NodeId, NodeKind>, s: seq<NodeId>)
    requires forall k :: 0 <= k < |s| ==> s[k] in kind
    ensures ElementsBackward(kind, s) == Reverse(ElementsForward(kind, s))
  {
    if |s| > 0 {
      var init, last := s[..|s| - 1], s[|s| - 1];
      BackwardIsReversedForward(kind, init);
      ForwardAppend(kind, init, last);
      var e := if kind[last].Element? then [last] else [];
      ReverseAppend(ElementsForward(kind, init), e);
      assert Reverse(e) == e;
      assert s == init + [last];
      assert ElementsBackward(kind, s) == e + ElementsBackward(kind, init);
    }
  }

  /** Filtering forward over `s` and one more node. */
  lemma {:induction false} ForwardAppend(kind: map<NodeId, NodeKind>, s: seq<NodeId>, x: NodeId)
    requires forall k :: 0 <= k < |s| ==> s[k] in kind
    requires x in kind
    ensures ElementsForward(kind, s + [x]) == ElementsForward(kind, s) + (if kind[x].Element? then [x] else [])
  {
    if |s| > 0 {
      assert (s + [x])[1..] == s[1..] + [x];
      ForwardAppend(kind, s[1..], x);
    } else {
      assert s + [x] == [x];
    }
  }

  /** Every child of a node of the tree is a node of the tree. */
  lemma ChildrenInTree(t: Tree, p: NodeId)
    requires t.Valid() && p in t.kind
    ensures forall k :: 0 <= k < |t.children[p]| ==> t.children[p][k] in t.kind
  {
    assert WellShaped(t.kind, t.parent, t.children, t.nextId);
    forall k | 0 <= k < |t.children[p]|
      ensures t.children[p][k] in t.kind
    {
      var c := t.children[p][k];
      assert c in t.children[p];
      assert c in t.parent;
    }
  }

  /** An attached node is in its parent's child list, at the position `IndexOf` finds. */
  lemma ChildOfParent(t: Tree, el: NodeId)
    requires t.Valid() && el in t.parent
    ensures t.parent[el] in t.kind
    ensures IndexOf(t.children[t.parent[el]], el) < |t.children[t.parent[el]]|
  {
    assert WellShaped(t.kind, t.parent, t.children, t.nextId);
    var sibs := t.children[t.parent[el]];
    assert el in sibs;
    var k :| 0 <= k < |sibs| && sibs[k] == el;
    assert IndexOf(sibs, el) <= k;
  }

  /** The siblings of `el` before it, first to last; none for a parentless node. */
  function SiblingsBefore(t: Tree, el: NodeId): (s: seq<NodeId>)
    reads t
    requires t.Valid() && el in t.kind
    ensures forall k :: 0 <= k < |s| ==> s[k] in t.kind
  {
    if el in t.parent then
      var sibs := t.children[t.parent[el]];
      ChildrenInTree(t, t.parent[el]);
      sibs[..IndexOf(sibs, el)]
    else []
  }

  /** The siblings of `el` after it, first to last; none for a parentless node. */
  function SiblingsAfter(t: Tree, el: NodeId): (s: seq<NodeId>)
    reads t
    requires t.Valid() && el in t.kind
    ensures forall k :: 0 <= k < |s| ==> s[k] in t.kind
  {
    if el in t.parent then
      var sibs := t.children[t.parent[el]];
      ChildrenInTree(t, t.parent[el]);
      ChildOfParent(t, el);
      sibs[IndexOf(sibs, el) + 1..]
    else []
  }
  /** The siblings before, the node itself and the siblings after make up its parent's
      child list; a parentless node has no siblings on either side. */
  lemma SiblingsAround(t: Tree, el: NodeId)
    requires t.Valid() && el in t.kind
    ensures el in t.parent ==> t.children[t.parent[el]] == SiblingsBefore(t, el) + [el] + SiblingsAfter(t, el)
    ensures el !in t.parent ==> SiblingsBefore(t, el) == [] && SiblingsAfter(t, el) == []
  {
    if el in t.parent {
      ChildOfParent(t, el);
      var sibs := t.children[t.parent[el]];
      var i := IndexOf(sibs, el);
      assert sibs == sibs[..i] + [sibs[i]] + sibs[i + 1..];
    }
  }


  /** The first candidate is tested before the rest. */
  lemma FirstMatchCons(x: NodeId, rest: seq<NodeId>, sel: set<NodeId>)
    ensures DomCompat.FirstMatch([x] + rest, sel) == if x in sel then Some(x) else DomCompat.FirstMatch(rest, sel)
  {
    assert ([x] + rest)[1..] == rest;
  }

  /** Walking back from position `j`: the node before it first, if an element. */
  lemma BackwardStep(kind: map<NodeId, NodeKind>, s: seq<NodeId>, j: nat)
    requires 0 < j <= |s| && forall k :: 0 <= k < |s| ==> s[k] in kind
    ensures ElementsBackward(kind, s[..j])
            == (if kind[s[j - 1]].Element? then [s[j - 1]] else []) + ElementsBackward(kind, s[..j - 1])
  {
    assert s[..j][..j - 1] == s[..j - 1];
  }

  /** One step of the backward walk: the node before position `j` is the answer if it is
      a matching element; otherwise the answer is that of the shorter walk. */
  lemma BackwardMatchStep(kind: map<NodeId, NodeKind>, s: seq<NodeId>, j: nat, sel: set<NodeId>)
    requires 0 < j <= |s| && forall k :: 0 <= k < |s| ==> s[k] in kind
    ensures DomCompat.FirstMatch(ElementsBackward(kind, s[..j]), sel)
            == if kind[s[j - 1]].Element? && s[j - 1] in sel then Some(s[j - 1])
               else DomCompat.FirstMatch(ElementsBackward(kind, s[..j - 1]), sel)
  {
    BackwardStep(kind, s, j);
    if kind[s[j - 1]].Element? {
      FirstMatchCons(s[j - 1], ElementsBackward(kind, s[..j - 1]), sel);
    } else {
      assert [] + ElementsBackward(kind, s[..j - 1]) == ElementsBackward(kind, s[..j - 1]);
    }
  }

  /** One step of the forward walk: the node at position `j` is the answer if it is a
      matching element; otherwise the answer is that of the shorter walk. */
  lemma ForwardMatchStep(kind: map<NodeId, NodeKind>, s: seq<NodeId>, j: nat, sel: set<NodeId>)
    requires j < |s| && forall k :: 0 <= k < |s| ==> s[k] in kind
    ensures DomCompat.FirstMatch(ElementsForward(kind, s[j..]), sel)
            == if kind[s[j]].Element? && s[j] in sel then Some(s[j])
               else DomCompat.FirstMatch(ElementsForward(kind, s[j + 1..]), sel)
  {
    ForwardStep(kind, s, j);
    if kind[s[j]].Element? {
      FirstMatchCons(s[j], ElementsForward(kind, s[j + 1..]), sel);
    } else {
      assert [] + ElementsForward(kind, s[j + 1..]) == ElementsForward(kind, s[j + 1..]);
    }
  }

  /** Walking forward from position `j`: the node at `j` first, if an element. */
  lemma ForwardStep(kind: map<NodeId, NodeKind>, s: seq<NodeId>, j: nat)
    requires j < |s| && forall k :: 0 <= k < |s| ==> s[k] in kind
    ensures ElementsForward(kind, s[j..])
            == (if kind[s[j]].Element? then [s[j]] else []) + ElementsForward(kind, s[j + 1..])
  {
    assert s[j..][1..] == s[j + 1..];
  }

  /** prev: the first of `el` and the elements before it, nearest first, that the
      selector matches. A missing node gives `null`; a node that is not an element
      throws. */
  method Prev(t: Tree, el: Option<NodeId>, sel: set<NodeId>) returns (r: Result<Option<NodeId>>)
    requires t.Valid() && (el.Some? ==> el.value in t.kind)
    ensures el.None? ==> r == Ok(None)
    ensures el.Some? && !t.IsElement(el.value) ==> r == TypeError
    ensures el.Some? && t.IsElement(el.value) ==>
      r == Ok(DomCompat.FirstMatch([el.value] + ElementsBackward(t.kind, SiblingsBefore(t, el.value)), sel))
  {
    if el.None? {
      return Ok(None);
    }
    var e := el.value;
    if !t.IsElement(e) {
      return TypeError;
    }
    ghost var before := SiblingsBefore(t, e);
    ghost var goal := DomCompat.FirstMatch([e] + ElementsBackward(t.kind, before), sel);
    FirstMatchCons(e, ElementsBackward(t.kind, before), sel);
    if e in sel {
      return Ok(Some(e));
    }
    if e !in t.parent {
      return Ok(None);
    }
    var sibs := t.children[t.parent[e]];
    var j := IndexOf(sibs, e);
    ChildOfParent(t, e);
    ChildrenInTree(t, t.parent[e]);
    assert sibs[..j] == before;
    var found := ScanBackward(t, sibs, j, sel);
    return Ok(found);
  }

  /** The `previousElementSibling` walk from `sibs[j0 - 1]` back: the first element in `sel`. */
  method ScanBackward(t: Tree, sibs: seq<NodeId>, j0: nat, sel: set<NodeId>) returns (found: Option<NodeId>)
    requires j0 <= |sibs| && forall k :: 0 <= k < |sibs| ==> sibs[k] in t.kind
    ensures found == DomCompat.FirstMatch(ElementsBackward(t.kind, sibs[..j0]), sel)
  {
    var j: nat := j0;
    while j > 0
      invariant j <= j0 <= |sibs|
      invariant DomCompat.FirstMatch(ElementsBackward(t.kind, sibs[..j]), sel)
                == DomCompat.FirstMatch(ElementsBackward(t.kind, sibs[..j0]), sel)
    {
      BackwardMatchStep(t.kind, sibs, j, sel);
      if t.IsElement(sibs[j - 1]) && sibs[j - 1] in sel {
        return Some(sibs[j - 1]);
      }
      j := j - 1;
    }
    assert sibs[..j] == [];
    return None;
  }

  /** next: the first of `el` and the elements after it, nearest first, that the
      selector matches. A missing node gives `null`; a node that is not an element
      throws. */
  method Next(t: Tree, el: Option<NodeId>, sel: set<NodeId>) returns (r: Result<Option<NodeId>>)
    requires t.Valid() && (el.Some? ==> el.value in t.kind)
    ensures el.None? ==> r == Ok(None)
    ensures el.Some? && !t.IsElement(el.value) ==> r == TypeError
    ensures el.Some? && t.IsElement(el.value) ==>
      r == Ok(DomCompat.FirstMatch([el.value] + ElementsForward(t.kind, SiblingsAfter(t, el.value)), sel))
  {
    if el.None? {
      return Ok(None);
    }
    var e := el.value;
    if !t.IsElement(e) {
      return TypeError;
    }
    ghost var after := SiblingsAfter(t, e);
    ghost var goal := DomCompat.FirstMatch([e] + ElementsForward(t.kind, after), sel);
    FirstMatchCons(e, ElementsForward(t.kind, after), sel);
    if e in sel {
      return Ok(Some(e));
    }
    if e !in t.parent {
      return Ok(None);
    }
    var sibs := t.children[t.parent[e]];
    var k := IndexOf(sibs, e) + 1;
    ChildOfParent(t, e);
    ChildrenInTree(t, t.parent[e]);
    assert sibs[k..] == after;
    var found := ScanForward(t, sibs, k, sel);
    return Ok(found);
  }

  /** The `nextElementSibling` walk from `sibs[k0]` on: the first element in `sel`. */
  method ScanForward(t: Tree, sibs: seq<NodeId>, k0: nat, sel: set<NodeId>) returns (found: Option<NodeId>)
    requires k0 <= |sibs| && forall k :: 0 <= k < |sibs| ==> sibs[k] in t.kind
    ensures found == DomCompat.FirstMatch(ElementsForward(t.kind, sibs[k0..]), sel)
  {
    var k: nat := k0;
    while k < |sibs|
      invariant k0 <= k <= |sibs|
      invariant DomCompat.FirstMatch(ElementsForward(t.kind, sibs[k..]), sel)
                == DomCompat.FirstMatch(ElementsForward(t.kind, sibs[k0..]), sel)
    {
      ForwardMatchStep(t.kind, sibs, k, sel);
      if t.IsElement(sibs[k]) && sibs[k] in sel {
        return Some(sibs[k]);
      }
      k := k + 1;
    }
    assert sibs[k..] == [];
    return None;
  }

  /** A child of `el` is not an ancestor of `el`'s parent. */
  lemma ChildNotAboveParent(t: Tree, el: NodeId, c: NodeId)
    requires t.Valid() && el in t.parent && c in t.parent && t.parent[c] == el
    ensures t.parent[el] in t.anc && c !in t.anc[t.parent[el]]
  {
    var p := t.parent[el];
    assert WellShaped(t.kind, t.parent, t.children, t.nextId);
    assert AncestorsOf(t.parent, t.anc);
    assert t.anc[el] == {el} + t.anc[p] && el !in t.anc[p];
    assert t.anc[c] == {c} + t.anc[el];
  }

  /** The facts about `el`'s first child and its parent that moving the child needs. */
  lemma FirstChildMovable(t: Tree, el: NodeId)
    requires t.Valid() && el in t.parent && t.children[el] != []
    ensures var c, p := t.children[el][0], t.parent[el];
      && c in t.parent && t.parent[c] == el && t.kind[c].CanBeChild()
      && p in t.kind && p != el && !t.kind[p].TextNode? && c !in t.anc[p]
  {
    var c, p := t.children[el][0], t.parent[el];
    assert WellShaped(t.kind, t.parent, t.children, t.nextId);
    assert OnlyChildKindsAttached(t.kind, t.parent);
    assert c in t.children[el];
    assert el in t.children[p];
    ChildNotAboveParent(t, el, c);
    assert AncestorsOf(t.parent, t.anc);
    assert p in t.anc[p];
  }

  /** `parent.insertBefore(el.firstChild, el)`: the first child of `el` moves into
      `el`'s parent, right before `el`. */
  method MoveFirstChildBefore(t: Tree, el: NodeId) returns (c: NodeId)
    requires t.Valid() && el in t.parent && t.children[el] != []
    modifies t
    ensures t.Valid() && t.kind == old(t.kind) && el in t.parent && t.parent[el] == old(t.parent)[el]
    ensures var p := old(t.parent)[el];
      var s := old(t.children)[p];
      && c == old(t.children)[el][0] && p != el && p in old(t.children)
      && t.children == old(t.children)[el := old(t.children)[el][1..]][p := s[..IndexOf(s, el)] + [c] + s[IndexOf(s, el)..]]
      && t.parent == old(t.parent)[c := p]
  {
    var p := t.parent[el];
    c := t.children[el][0];
    FirstChildMovable(t, el);
    var s := t.children[p];
    ghost var children0, parent0 := t.children, t.parent;
    var q, j := t.Detach(c);
    ghost var children1, parent1 := t.children, t.parent;
    assert q == el && j == 0;
    assert children1[p] == s && t.anc[p] == old(t.anc)[p];
    var i := IndexOf(s, el);
    t.Insert(p, c, i);
    MovedMaps(children0, children1, t.children, parent0, parent1, t.parent, el, p, c, q, j, i);
  }

  /** The child lists and parent links after detaching `el`'s first child `c` and
      inserting it at position `i` of `p`'s children. */
  lemma MovedMaps(children0: map<NodeId, seq<NodeId>>, children1: map<NodeId, seq<NodeId>>, children2: map<NodeId, seq<NodeId>>,
                  parent0: map<NodeId, NodeId>, parent1: map<NodeId, NodeId>, parent2: map<NodeId, NodeId>,
                  el: NodeId, p: NodeId, c: NodeId, q: NodeId, j: nat, i: nat)
    requires el in children0 && p in children0 && el != p && children0[el] != [] && c == children0[el][0]
    requires q == el && j == 0 && children1 == children0[q := children0[q][..j] + children0[q][j + 1..]]
    requires i <= |children1[p]|
    requires children2 == children1[p := children1[p][..i] + [c] + children1[p][i..]]
    requires c in parent0 && parent1 == parent0 - {c} && parent2 == parent1[c := p]
    ensures children2 == children0[el := children0[el][1..]][p := children0[p][..i] + [c] + children0[p][i..]]
    ensures parent2 == parent0[c := p]
  {
    assert children0[el][..0] + children0[el][0 + 1..] == children0[el][1..];
  }

  /** unwrapChildren: the children of `el` take its place in its parent, in order, and
      `el` leaves the tree with no children. A parentless node throws, as the calls on
      its missing parent do. */
  method UnwrapChildren(t: Tree, el: NodeId) returns (r: Result<()>)
    requires t.Valid() && el in t.kind
    modifies t
    ensures t.Valid()
    ensures el !in old(t.parent) ==> r == TypeError && unchanged(t)
    ensures el in old(t.parent) ==>
      r == Ok(()) && t.kind == old(t.kind) && Unwrapped(old(t.children), old(t.parent), t.children, t.parent, el)
  {
    if el !in t.parent {
      return TypeError;
    }
    var p := t.parent[el];
    ghost var kids, s := t.children[el], t.children[p];
    ghost var i := IndexOf(s, el);
    UnwrapStart(t, el);
    MoveChildrenBefore(t, el);
    ghost var before, parent1 := t.children, t.parent;
    IndexAfterSplice(s, i, kids, el);
    var q, j := t.Detach(el);
    UnwrapEnd(old(t.children), old(t.parent), before, t.children, parent1, t.parent, el, p, s, i, kids, q, j);
    r := Ok(());
  }

  /** What unwrapping `el` does to the child lists and the parent links: `el`'s children
      take its place in its parent's list, in order; `el` is left with no children and
      no parent; its former children have its parent; nothing else changes. */
  ghost predicate Unwrapped(children0: map<NodeId, seq<NodeId>>, parent0: map<NodeId, NodeId>,
                            children1: map<NodeId, seq<NodeId>>, parent1: map<NodeId, NodeId>, el: NodeId)
  {
    && el in parent0 && el in children0 && parent0[el] in children0
    && var p, kids := parent0[el], children0[el];
    var i := IndexOf(children0[p], el);
    && i < |children0[p]|
    && children1 == children0[p := children0[p][..i] + kids + children0[p][i + 1..]][el := []]
    && (forall x :: x in parent1 <==> x in parent0 && x != el)
    && (forall x :: x in parent1 ==> parent1[x] == if x in kids then p else parent0[x])
  }

  /** The loop of unwrapChildren: every child of `el`, first to last, moves into `el`'s
      parent right before `el`. */
  method MoveChildrenBefore(t: Tree, el: NodeId)
    requires t.Valid() && el in t.parent
    modifies t
    ensures t.Valid() && t.kind == old(t.kind) && el in t.parent && t.parent[el] == old(t.parent)[el]
    ensures var p, kids := old(t.parent)[el], old(t.children)[el];
      var s := old(t.children)[p];
      t.children == old(t.children)[el := []][p := s[..IndexOf(s, el)] + kids + s[IndexOf(s, el)..]]
    ensures t.parent == Reparented(old(t.parent), old(t.children)[el], old(t.parent)[el])
  {
    var p := t.parent[el];
    ghost var kids, s := t.children[el], t.children[p];
    ghost var i := IndexOf(s, el);
    ghost var children0, parent0 := t.children, t.parent;
    UnwrapStart(t, el);
    ghost var k := 0;
    UnwrapEntry(children0, parent0, el, p, s, i, kids);
    while t.children[el] != []
      invariant t.kind == old(t.kind) && k <= |kids|
      invariant MovedSoFar(t, el, p, children0, parent0, kids, s, i, k)
      decreases |kids| - k
    {
      MoveStep(t, el, p, children0, parent0, kids, s, i, k);
      k := k + 1;
    }
    AllMoved(children0, t.children, parent0, t.parent, el, p, s, i, kids, k);
  }

  /** The state of the tree after the first `k` children of `el` have moved. */
  ghost predicate MovedSoFar(t: Tree, el: NodeId, p: NodeId, children0: map<NodeId, seq<NodeId>>,
                             parent0: map<NodeId, NodeId>, kids: seq<NodeId>, s: seq<NodeId>, i: nat, k: nat)
    reads t
  {
    && t.Valid() && el in t.parent && t.parent[el] == p && k <= |kids| && i <= |s|
    && t.children == children0[el := kids[k..]][p := s[..i] + kids[..k] + s[i..]]
    && t.parent == Reparented(parent0, kids[..k], p)
  }

  /** Once `el` has no children left, all of them have moved. */
  lemma AllMoved(children0: map<NodeId, seq<NodeId>>, m: map<NodeId, seq<NodeId>>,
                 parent0: map<NodeId, NodeId>, pm: map<NodeId, NodeId>,
                 el: NodeId, p: NodeId, s: seq<NodeId>, i: nat, kids: seq<NodeId>, k: nat)
    requires el != p && k <= |kids| && i <= |s|
    requires m == children0[el := kids[k..]][p := s[..i] + kids[..k] + s[i..]] && m[el] == []
    requires pm == Reparented(parent0, kids[..k], p)
    ensures m == children0[el := []][p := s[..i] + kids + s[i..]]
    ensures pm == Reparented(parent0, kids, p)
  {
    assert k == |kids| && kids[..k] == kids && kids[k..] == [];
  }

  /** One iteration of the unwrapChildren loop: the `k`-th child of `el` moves into its
      parent, after the `k` children moved before it. */
  method MoveStep(t: Tree, el: NodeId, ghost p: NodeId, ghost children0: map<NodeId, seq<NodeId>>,
                  ghost parent0: map<NodeId, NodeId>, ghost kids: seq<NodeId>, ghost s: seq<NodeId>,
                  ghost i: nat, ghost k: nat)
    requires MovedSoFar(t, el, p, children0, parent0, kids, s, i, k) && t.children[el] != []
    requires p != el && el !in kids && (forall x :: x in kids ==> x in parent0) && i == IndexOf(s, el) && i < |s|
    modifies t
    ensures t.kind == old(t.kind) && k < |kids|
    ensures MovedSoFar(t, el, p, children0, parent0, kids, s, i, k + 1)
  {
    ghost var before := t.children;
    IndexAfterSplice(s, i, kids[..k], el);
    var c := MoveFirstChildBefore(t, el);
    ChildrenStep(children0, before, t.children, el, p, s, i, kids, k, c);
    ReparentedStep(parent0, kids, k, p);
  }

  /** The parent links with every node of `ks` moved under `p`. */
  ghost function Reparented(parent: map<NodeId, NodeId>, ks: seq<NodeId>, p: NodeId): (r: map<NodeId, NodeId>)
    ensures r.Keys == parent.Keys
  {
    map x | x in parent :: if x in ks then p else parent[x]
  }

  /** The facts about an attached node that unwrapping it relies on: its parent is
      another node that holds it where `IndexOf` finds it, and it is not one of its own
      children, which all have parents. */
  lemma UnwrapStart(t: Tree, el: NodeId)
    requires t.Valid() && el in t.parent
    ensures var p, kids := t.parent[el], t.children[el];
      && p != el && p in t.children && el in t.children
      && IndexOf(t.children[p], el) < |t.children[p]|
      && t.children[p][IndexOf(t.children[p], el)] == el
      && el !in kids && forall x :: x in kids ==> x in t.parent
  {
    var p := t.parent[el];
    ChildOfParent(t, el);
    assert WellShaped(t.kind, t.parent, t.children, t.nextId);
    assert AncestorsOf(t.parent, t.anc);
    assert p in t.anc[p];
  }

  /** A node found at `i` in `s` is found `|ks|` further on once `ks`, which does not
      hold it, is spliced in before it. */
  lemma IndexAfterSplice(s: seq<NodeId>, i: nat, ks: seq<NodeId>, el: NodeId)
    requires i == IndexOf(s, el) && i < |s| && el !in ks
    ensures IndexOf(s[..i] + ks + s[i..], el) == i + |ks|
  {
    var x := s[..i] + ks + s[i..];
    assert x[i + |ks|] == el;
    assert forall n :: 0 <= n < i + |ks| ==> x[n] != el;
  }

  /** Before the first move, nothing has moved. */
  lemma UnwrapEntry(children0: map<NodeId, seq<NodeId>>, parent0: map<NodeId, NodeId>,
                    el: NodeId, p: NodeId, s: seq<NodeId>, i: nat, kids: seq<NodeId>)
    requires el in children0 && p in children0 && children0[el] == kids && children0[p] == s && i <= |s|
    ensures children0 == children0[el := kids[0..]][p := s[..i] + kids[..0] + s[i..]]
    ensures parent0 == Reparented(parent0, kids[..0], p)
  {
    assert s[..i] + kids[..0] + s[i..] == s;
  }

  /** One move of unwrapChildren on the child lists. */
  lemma ChildrenStep(children0: map<NodeId, seq<NodeId>>, m: map<NodeId, seq<NodeId>>, m': map<NodeId, seq<NodeId>>,
                     el: NodeId, p: NodeId, s: seq<NodeId>, i: nat, kids: seq<NodeId>, k: nat, c: NodeId)
    requires el != p && k < |kids| && i <= |s|
    requires m == children0[el := kids[k..]][p := s[..i] + kids[..k] + s[i..]]
    requires c == m[el][0] && IndexOf(m[p], el) == i + k
    requires m' == m[el := m[el][1..]][p := m[p][..IndexOf(m[p], el)] + [c] + m[p][IndexOf(m[p], el)..]]
    ensures c == kids[k]
    ensures m' == children0[el := kids[k + 1..]][p := s[..i] + kids[..k + 1] + s[i..]]
  {
    assert m[el] == kids[k..] && m[p] == s[..i] + kids[..k] + s[i..];
    SpliceGrow(s, i, kids, k);
    assert kids[k..][1..] == kids[k + 1..];
    Reupdate(children0, el, p, kids[k..], s[..i] + kids[..k] + s[i..], kids[k + 1..], s[..i] + kids[..k + 1] + s[i..]);
  }

  /** Inserting the `k`-th node at the end of the first `k` grows the spliced run by one. */
  lemma SpliceGrow(s: seq<NodeId>, i: nat, kids: seq<NodeId>, k: nat)
    requires k < |kids| && i <= |s|
    ensures var cur := s[..i] + kids[..k] + s[i..];
      cur[..i + k] + [kids[k]] + cur[i + k..] == s[..i] + kids[..k + 1] + s[i..]
  {
    var cur := s[..i] + kids[..k] + s[i..];
    assert cur[..i + k] == s[..i] + kids[..k];
    assert cur[i + k..] == s[i..];
    assert kids[..k + 1] == kids[..k] + [kids[k]];
  }

  /** Two updates of two different keys, applied twice: the later values win. */
  lemma Reupdate(m: map<NodeId, seq<NodeId>>, a: NodeId, b: NodeId, x: seq<NodeId>, y: seq<NodeId>, x': seq<NodeId>, y': seq<NodeId>)
    requires a != b
    ensures m[a := x][b := y][a := x'][b := y'] == m[a := x'][b := y']
  {
  }

  /** One move of unwrapChildren on the parent links. */
  lemma ReparentedStep(parent0: map<NodeId, NodeId>, kids: seq<NodeId>, k: nat, p: NodeId)
    requires k < |kids| && kids[k] in parent0
    ensures Reparented(parent0, kids[..k], p)[kids[k] := p] == Reparented(parent0, kids[..k + 1], p)
  {
    assert kids[..k + 1] == kids[..k] + [kids[k]];
  }

  /** After the last move `el` is detached: its children stand where it stood. */
  lemma UnwrapEnd(children0: map<NodeId, seq<NodeId>>, parent0: map<NodeId, NodeId>,
                  m: map<NodeId, seq<NodeId>>, m': map<NodeId, seq<NodeId>>,
                  pm: map<NodeId, NodeId>, pm': map<NodeId, NodeId>,
                  el: NodeId, p: NodeId, s: seq<NodeId>, i: nat, kids: seq<NodeId>, q: NodeId, j: nat)
    requires el in parent0 && p == parent0[el] && el in children0 && kids == children0[el]
    requires p in children0 && s == children0[p] && i == IndexOf(s, el)
    requires el != p && i < |s| && s[i] == el && el !in kids
    requires m == children0[el := []][p := s[..i] + kids + s[i..]]
    requires q == p && j == IndexOf(m[q], el) && IndexOf(s[..i] + kids + s[i..], el) == i + |kids|
    requires m' == m[q := m[q][..j] + m[q][j + 1..]]
    requires pm == Reparented(parent0, kids, p) && pm' == pm - {el}
    ensures Unwrapped(children0, parent0, m', pm', el)
  {
    UnwrapChildMap(children0, m, m', el, p, s, i, kids, j);
    UnwrapParents(parent0, pm, pm', kids, p, el);
  }

  /** The children map after the moves and the final detach. */
  lemma UnwrapChildMap(children0: map<NodeId, seq<NodeId>>, m: map<NodeId, seq<NodeId>>, m': map<NodeId, seq<NodeId>>,
                       el: NodeId, p: NodeId, s: seq<NodeId>, i: nat, kids: seq<NodeId>, j: nat)
    requires el != p && i < |s| && j == i + |kids|
    requires m == children0[el := []][p := s[..i] + kids + s[i..]]
    requires m' == m[p := m[p][..j] + m[p][j + 1..]]
    ensures m' == children0[p := s[..i] + kids + s[i + 1..]][el := []]
  {
    SpliceCut(s, i, kids);
    SwapUpdates(children0, el, p, s[..i] + kids + s[i..], s[..i] + kids + s[i + 1..]);
  }

  /** Removing the node that followed the spliced run. */
  lemma SpliceCut(s: seq<NodeId>, i: nat, kids: seq<NodeId>)
    requires i < |s|
    ensures var cur := s[..i] + kids + s[i..];
      cur[..i + |kids|] + cur[i + |kids| + 1..] == s[..i] + kids + s[i + 1..]
  {
    var cur := s[..i] + kids + s[i..];
    assert cur[..i + |kids|] == s[..i] + kids;
    assert cur[i + |kids| + 1..] == s[i + 1..];
  }

  /** Updating `b` twice after `a` is the same as updating `b` to the later value first. */
  lemma SwapUpdates(m: map<NodeId, seq<NodeId>>, a: NodeId, b: NodeId, y: seq<NodeId>, y': seq<NodeId>)
    requires a != b
    ensures m[a := []][b := y][b := y'] == m[b := y'][a := []]
  {
  }

  /** After unwrapping, `el` has no parent and its former children have its parent. */
  lemma UnwrapParents(parent0: map<NodeId, NodeId>, parent1: map<NodeId, NodeId>, parent2: map<NodeId, NodeId>,
                      kids: seq<NodeId>, p: NodeId, el: NodeId)
    requires el !in kids
    requires parent1 == Reparented(parent0, kids, p) && parent2 == parent1 - {el}
    ensures forall x :: x in parent2 <==> x in parent0 && x != el
    ensures forall x :: x in parent2 ==> parent2[x] == if x in kids then p else parent0[x]
  {
  }
}
