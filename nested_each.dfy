/** A js-each nested inside an expanded js-each template. In src/index.ts the clones of a
    template get only the conditional and value passes (lines 91-93), the snapshot walk of the
    parent never visits them (lines 107-110), and the walk at lines 98-100 expands the nested
    loops inside the original, which is then removed (line 103). So a nested loop is never
    expanded; the older engine does expand it (index.js:63). This module holds both halves: the
    pass as written, shown on an example, and a corrected pass in which each clone's children
    also get the repetition pass, in the clone's context. */
module NestedEach {
  import opened Options
  import opened Strings
  import opened JsValues
  import opened PathResolver
  import opened Dom
  import opened Directives
  import opened DirectiveProperties
  import opened FinalizerProperties

  // ---------------------------------------------------------------------------------------
  // Loop-free trees

  /** No element of the tree carries js-each. */
  predicate NoLoops(n: Node)
    decreases n
  {
    n.Text? || (EachAttr !in n.attrs && forall i :: 0 <= i < |n.children| ==> NoLoops(n.children[i]))
  }

  predicate NoLoopsIn(cs: seq<Node>) {
    forall i :: 0 <= i < |cs| ==> NoLoops(cs[i])
  }

  /** No js-each element has another js-each below it. */
  predicate NoNestedLoops(n: Node)
    decreases n
  {
    || n.Text?
    || (&& (EachAttr in n.attrs ==> NoLoopsIn(n.children))
        && forall i :: 0 <= i < |n.children| ==> NoNestedLoops(n.children[i]))
  }

  predicate NoNestedLoopsIn(cs: seq<Node>) {
    forall i :: 0 <= i < |cs| ==> NoNestedLoops(cs[i])
  }

  lemma {:induction false} SameButClassesNoLoops(a: Node, b: Node)
    requires SameButClasses(a, b) && NoLoops(a)
    ensures NoLoops(b)
    decreases a
  {
    if a.Element? {
      forall i | 0 <= i < |b.children| ensures NoLoops(b.children[i]) {
        SameButClassesNoLoops(a.children[i], b.children[i]);
      }
    }
  }

  lemma {:induction false} ValuesKeepNoLoops(attr: string, n: Node, data: Scope, global: Scope, host: Host)
    requires NoLoops(n)
    ensures NoLoops(AfterValues(attr, n, data, global, host))
    decreases n
  {
    var r := AfterValues(attr, n, data, global, host);
    if n.Element? && !ValueReplaces(attr, n, data, global, host) {
      forall i | 0 <= i < |r.children| ensures NoLoops(r.children[i]) {
        assert r.children[i] == AfterValues(attr, n.children[i], data, global, host);
        ValuesKeepNoLoops(attr, n.children[i], data, global, host);
      }
    }
  }

  /** A template with no loop below it gives clones with no loop below them. */
  lemma CloneKeepsNoLoopsBelow(template: Node, itemName: string, item: Value, data: Scope,
                               global: Scope, host: Host)
    requires template.Element? && NoLoopsIn(template.children)
    ensures var c := Clone(template, itemName, item, data, global, host);
      c.Element? && NoLoopsIn(c.children)
  {
    var scope := data[itemName := item];
    var m := AfterConditionals(template, scope, global, host);
    var c := AfterValues(ValueAttr, m, scope, global, host);
    forall i | 0 <= i < |m.children| ensures NoLoops(m.children[i]) {
      SameButClassesNoLoops(template.children[i], m.children[i]);
    }
    if !ValueReplaces(ValueAttr, m, scope, global, host) {
      forall i | 0 <= i < |c.children| ensures NoLoops(c.children[i]) {
        assert c.children[i] == AfterValues(ValueAttr, m.children[i], scope, global, host);
        ValuesKeepNoLoops(ValueAttr, m.children[i], scope, global, host);
      }
    }
  }

  /** Without any js-each the repetition pass changes nothing. */
  lemma {:induction false} LoopFreeUnchanged(n: Node, data: Scope, global: Scope, host: Host)
    requires NoLoops(n)
    ensures AfterEach(n, data, global, host) == Some([n])
    decreases n
  {
    if n.Element? {
      LoopFreeChildrenUnchanged(n.children, data, global, host);
      assert n.(children := n.children) == n;
    }
  }

  lemma {:induction false} LoopFreeChildrenUnchanged(cs: seq<Node>, data: Scope, global: Scope, host: Host)
    requires NoLoopsIn(cs)
    ensures AfterEachChildren(cs, data, global, host) == Some(cs)
    decreases cs
  {
    if cs != [] {
      var front := cs[..|cs| - 1];
      LoopFreeChildrenUnchanged(front, data, global, host);
      LoopFreeUnchanged(cs[|cs| - 1], data, global, host);
      assert front + [cs[|cs| - 1]] == cs;
    }
  }

  // ---------------------------------------------------------------------------------------
  // As written: the nested loop is left in every clone

  /** In a template without a value of its own, a nested js-each child survives in every clone
      with its js-each attribute unexpanded. */
  lemma NestedLoopSurvives(n: Node, itemName: string, path: string, j: nat, data: Scope,
                           global: Scope, host: Host)
    requires n.Element? && EachAttr in n.attrs && ValueAttr !in n.attrs
    requires ParseEach(n.attrs[EachAttr]) == Some((itemName, path))
    requires GetValueByPath(path, data, global, host).Array?
    requires !MalformedEachIn(EachAttr, n.children)
    requires j < |n.children| && n.children[j].Element? && EachAttr in n.children[j].attrs
    ensures AfterEach(n, data, global, host).Some?
    ensures var r := AfterEach(n, data, global, host).value;
      forall i :: 0 <= i < |r| ==>
        && r[i].Element? && j < |r[i].children| && r[i].children[j].Element?
        && r[i].children[j].attrs == n.children[j].attrs
  {
    var items := GetValueByPath(path, data, global, host).items;
    EachExpandsArray(n, itemName, path, data, global, host);
    forall i | 0 <= i < |items|
      ensures var c := Clone(n, itemName, items[i], data, global, host);
        c.Element? && j < |c.children| && c.children[j].Element? && c.children[j].attrs == n.children[j].attrs
    {
      var scope := data[itemName := items[i]];
      var m := AfterConditionals(n, scope, global, host);
      var c := AfterValues(ValueAttr, m, scope, global, host);
      assert SameButClasses(n.children[j], m.children[j]);
      assert c.children[j] == AfterValues(ValueAttr, m.children[j], scope, global, host);
    }
  }

  // ---------------------------------------------------------------------------------------
  // Corrected: each clone's children get the repetition pass in the clone's context

  lemma CloneHeight(template: Node, itemName: string, item: Value, data: Scope, global: Scope,
                    host: Host)
    ensures Height(Clone(template, itemName, item, data, global, host)) <= Height(template)
  {
    SameButClassesHeight(template, AfterConditionals(template, data[itemName := item], global, host));
  }

  function AfterEachFixed(n: Node, data: Scope, global: Scope, host: Host): Option<seq<Node>>
    decreases Height(n), 1, 0
  {
    match n
    case Text(_) => Some([n])
    case Element(_, attrs, _, _, children) =>
      if EachAttr !in attrs then KeepWith(n, AfterEachChildrenFixed(children, data, global, host))
      else
        match ParseEach(attrs[EachAttr])
        case None => None
        case Some((itemName, path)) =>
          var found := GetValueByPath(path, data, global, host);
          if found.Array? then
            if AfterEachChildrenFixed(children, data, global, host).None? then None
            else ExpandedClones(n, itemName, found.items, data, global, host)
          else KeepWith(n, AfterEachChildrenFixed(children, data, global, host))
  }

  function AfterEachChildrenFixed(cs: seq<Node>, data: Scope, global: Scope, host: Host): Option<seq<Node>>
    decreases MaxHeight(cs), 2, |cs|
  {
    if cs == [] then Some([])
    else
      match AfterEachChildrenFixed(cs[..|cs| - 1], data, global, host)
      case None => None
      case Some(front) =>
        match AfterEachFixed(cs[|cs| - 1], data, global, host)
        case None => None
        case Some(last) => Some(front + last)
  }

  /** One clone, then the repetition pass over its children with the extended context. */
  function ExpandedClone(template: Node, itemName: string, item: Value, data: Scope, global: Scope,
                         host: Host): Option<Node>
    decreases Height(template), 0, 0
  {
    var c := Clone(template, itemName, item, data, global, host);
    CloneHeight(template, itemName, item, data, global, host);
    match c
    case Text(_) => Some(c)
    case Element(_, _, _, _, children) =>
      match AfterEachChildrenFixed(children, data[itemName := item], global, host)
      case None => None
      case Some(kids) => Some(c.(children := kids))
  }

  function ExpandedClones(template: Node, itemName: string, items: seq<Value>, data: Scope,
                          global: Scope, host: Host): Option<seq<Node>>
    decreases Height(template), 0, |items| + 1
  {
    if items == [] then Some([])
    else
      match ExpandedClones(template, itemName, items[..|items| - 1], data, global, host)
      case None => None
      case Some(front) =>
        match ExpandedClone(template, itemName, items[|items| - 1], data, global, host)
        case None => None
        case Some(c) => Some(front + [c])
  }

  /** renderTemplate with the corrected repetition pass. */
  function RenderedFixed(body: Node, data: Scope, removeJsAttributes: bool, host: Host): Option<seq<Node>> {
    var marked := AfterConditionals(body, data, data, host);
    var valued := AfterValues(ValueAttr, marked, data, data, host);
    match AfterEachFixed(valued, data, data, host)
    case None => None
    case Some(nodes) => Some(AfterFinalizeChildren(nodes, removeJsAttributes))
  }

  lemma {:induction false} LoopFreeUnchangedFixed(n: Node, data: Scope, global: Scope, host: Host)
    requires NoLoops(n)
    ensures AfterEachFixed(n, data, global, host) == Some([n])
    decreases Height(n), 1
  {
    if n.Element? {
      LoopFreeChildrenUnchangedFixed(n.children, data, global, host);
      assert n.(children := n.children) == n;
    }
  }

  lemma {:induction false} LoopFreeChildrenUnchangedFixed(cs: seq<Node>, data: Scope, global: Scope, host: Host)
    requires NoLoopsIn(cs)
    ensures AfterEachChildrenFixed(cs, data, global, host) == Some(cs)
    decreases MaxHeight(cs), 2, |cs|
  {
    if cs != [] {
      var front := cs[..|cs| - 1];
      LoopFreeChildrenUnchangedFixed(front, data, global, host);
      LoopFreeUnchangedFixed(cs[|cs| - 1], data, global, host);
      assert front + [cs[|cs| - 1]] == cs;
    }
  }

  /** Corrected pass on an element whose path is not an array and with no loop below it: the
      element stays as it is. */
  lemma FixedKeepsNonArrayLeaf(n: Node, itemName: string, path: string, data: Scope, global: Scope,
                               host: Host)
    requires n.Element? && EachAttr in n.attrs
    requires ParseEach(n.attrs[EachAttr]) == Some((itemName, path))
    requires !GetValueByPath(path, data, global, host).Array?
    requires NoLoopsIn(n.children)
    ensures AfterEachFixed(n, data, global, host) == Some([n])
  {
    LoopFreeChildrenUnchangedFixed(n.children, data, global, host);
    assert n.(children := n.children) == n;
  }

  /** Corrected pass over an array of one: the expanded clone of its item, if that succeeds. */
  lemma FixedSingleItem(n: Node, itemName: string, path: string, a: Value, data: Scope,
                        global: Scope, host: Host)
    requires n.Element? && EachAttr in n.attrs
    requires ParseEach(n.attrs[EachAttr]) == Some((itemName, path))
    requires GetValueByPath(path, data, global, host) == Array([a])
    requires AfterEachChildrenFixed(n.children, data, global, host).Some?
    requires ExpandedClone(n, itemName, a, data, global, host).Some?
    ensures AfterEachFixed(n, data, global, host) == Some([ExpandedClone(n, itemName, a, data, global, host).value])
  {
    assert [a][..0] == [];
    assert [a][0] == a;
    var c := ExpandedClone(n, itemName, a, data, global, host).value;
    assert ExpandedClones(n, itemName, [a], data, global, host) == Some([] + [c]);
    assert [] + [c] == [c];
  }

  lemma ExpandedCloneOfFlatTemplate(template: Node, itemName: string, item: Value, data: Scope,
                                    global: Scope, host: Host)
    requires template.Element? && NoLoopsIn(template.children)
    ensures ExpandedClone(template, itemName, item, data, global, host)
         == Some(Clone(template, itemName, item, data, global, host))
  {
    CloneKeepsNoLoopsBelow(template, itemName, item, data, global, host);
    var c := Clone(template, itemName, item, data, global, host);
    LoopFreeChildrenUnchangedFixed(c.children, data[itemName := item], global, host);
    assert c.(children := c.children) == c;
  }

  /** A template with no loop below it expands to exactly the clones of the pass as written. */
  lemma {:induction false} ExpandedClonesOfFlatTemplate(template: Node, itemName: string, items: seq<Value>,
                                                        data: Scope, global: Scope, host: Host)
    requires template.Element? && NoLoopsIn(template.children)
    ensures ExpandedClones(template, itemName, items, data, global, host)
         == Some(Clones(template, itemName, items, data, global, host))
    decreases |items|
  {
    if items != [] {
      var front := items[..|items| - 1];
      var item := items[|items| - 1];
      ExpandedClonesOfFlatTemplate(template, itemName, front, data, global, host);
      ExpandedCloneOfFlatTemplate(template, itemName, item, data, global, host);
      assert Clones(template, itemName, front, data, global, host)
             + [Clone(template, itemName, item, data, global, host)]
          == Clones(template, itemName, items, data, global, host);
    }
  }

  /** Corrected pass over an array with a template that has no loop below it: the clones of the
      pass as written. */
  lemma FixedFlatTemplate(n: Node, itemName: string, path: string, data: Scope, global: Scope,
                          host: Host)
    requires n.Element? && EachAttr in n.attrs
    requires ParseEach(n.attrs[EachAttr]) == Some((itemName, path))
    requires GetValueByPath(path, data, global, host).Array?
    requires NoLoopsIn(n.children)
    ensures AfterEachFixed(n, data, global, host)
         == Some(Clones(n, itemName, GetValueByPath(path, data, global, host).items, data, global, host))
  {
    LoopFreeChildrenUnchangedFixed(n.children, data, global, host);
    ExpandedClonesOfFlatTemplate(n, itemName, GetValueByPath(path, data, global, host).items, data, global, host);
  }

  /** The correction changes nothing for trees without nested loops. */
  lemma {:induction false} FixedAgreesWithoutNesting(n: Node, data: Scope, global: Scope, host: Host)
    requires NoNestedLoops(n)
    ensures AfterEachFixed(n, data, global, host) == AfterEach(n, data, global, host)
    decreases Height(n), 1
  {
    if n.Element? {
      FixedChildrenAgreeWithoutNesting(n.children, data, global, host);
      if EachAttr in n.attrs && ParseEach(n.attrs[EachAttr]).Some? {
        var (itemName, path) := ParseEach(n.attrs[EachAttr]).value;
        var found := GetValueByPath(path, data, global, host);
        if found.Array? {
          ExpandedClonesOfFlatTemplate(n, itemName, found.items, data, global, host);
        }
      }
    }
  }

  lemma {:induction false} FixedChildrenAgreeWithoutNesting(cs: seq<Node>, data: Scope, global: Scope,
                                                            host: Host)
    requires NoNestedLoopsIn(cs)
    ensures AfterEachChildrenFixed(cs, data, global, host) == AfterEachChildren(cs, data, global, host)
    decreases MaxHeight(cs), 2, |cs|
  {
    if cs != [] {
      FixedChildrenAgreeWithoutNesting(cs[..|cs| - 1], data, global, host);
      FixedAgreesWithoutNesting(cs[|cs| - 1], data, global, host);
    }
  }
}
