/** What renderTemplate (src/index.ts) guarantees, proved about the functions of module
    Directives. */
module DirectiveProperties {
  import opened Options
  import opened Strings
  import opened JsValues
  import opened PathResolver
  import opened Expressions
  import opened Dom
  import opened Directives

  // ---------------------------------------------------------------------------------------
  // Conditionals

  /** The same expression under js-if on one element and js-if-not on another hides exactly one
      of the two: they are never both shown and never both hidden. */
  lemma ConditionalDuality(a: Node, b: Node, e: string, data: Scope, global: Scope, host: Host)
    requires a.Element? && IfAttr in a.attrs && a.attrs[IfAttr] == e && IfNotAttr !in a.attrs
    requires b.Element? && IfNotAttr in b.attrs && b.attrs[IfNotAttr] == e
    ensures Hidden(AfterConditionals(a, data, global, host)) != Hidden(AfterConditionals(b, data, global, host))
  {
  }

  /** Fail-closed (src/index.ts:25-28): a js-if whose condition makes the host throw counts as
      false, so the element is marked, whatever it carried before. */
  lemma ThrowingIfHides(n: Node, data: Scope, global: Scope, host: Host)
    requires n.Element? && IfAttr in n.attrs && IfNotAttr !in n.attrs
    requires Throws(n.attrs[IfAttr], data, global, host)
    ensures Hidden(AfterConditionals(n, data, global, host))
  {
  }

  /** Fail-closed for js-if-not: a throwing condition counts as false, so the element is shown,
      whatever it carried before and whatever its js-if decided. */
  lemma ThrowingIfNotShows(n: Node, data: Scope, global: Scope, host: Host)
    requires n.Element? && IfNotAttr in n.attrs
    requires Throws(n.attrs[IfNotAttr], data, global, host)
    ensures !Hidden(AfterConditionals(n, data, global, host))
  {
  }

  /** The conditional pass changes class lists only, so it keeps the height of the tree. */
  lemma {:induction false} SameButClassesHeight(a: Node, b: Node)
    requires SameButClasses(a, b)
    ensures Height(a) == Height(b)
    decreases a
  {
    if a.Element? {
      forall i | 0 <= i < |a.children| ensures Height(a.children[i]) == Height(b.children[i]) {
        SameButClassesHeight(a.children[i], b.children[i]);
      }
      MaxHeightPointwise(a.children, b.children);
      MaxHeightPointwise(b.children, a.children);
    }
  }

  /** No element of the tree carries js-if or js-if-not. */
  predicate NoConditionals(n: Node)
    decreases n
  {
    n.Text? || (!HasConditional(n) && forall i :: 0 <= i < |n.children| ==> NoConditionals(n.children[i]))
  }

  /** Without conditionals the pass changes nothing, whatever the context. */
  lemma {:induction false} ConditionalFreeUnchanged(n: Node, data: Scope, global: Scope, host: Host)
    requires NoConditionals(n)
    ensures AfterConditionals(n, data, global, host) == n
    decreases n
  {
    if n.Element? {
      var r := AfterConditionals(n, data, global, host);
      forall i | 0 <= i < |n.children| ensures r.children[i] == n.children[i] {
        ConditionalFreeUnchanged(n.children[i], data, global, host);
      }
      assert r.children == n.children;
    }
  }

  // ---------------------------------------------------------------------------------------
  // Values

  /** An element whose path resolves to undefined keeps its placeholder text. */
  lemma PlaceholderSurvives(attr: string, n: Node, data: Scope, global: Scope, host: Host)
    requires n.Element? && NoElementChildren(n)
    requires attr in n.attrs && GetValueByPath(n.attrs[attr], data, global, host) == Undefined
    ensures AfterValues(attr, n, data, global, host) == n
  {
    var r := AfterValues(attr, n, data, global, host);
    assert r.children == n.children;
  }

  // ---------------------------------------------------------------------------------------
  // Repetition

  /** The loop variable is bound to the item in the clone's context, shadowing any binding of
      the same name, while the enclosing context stays as it was. */
  lemma LoopVariableBound(itemName: string, item: Value, data: Scope, global: Scope, host: Host)
    requires '.' !in itemName && !StartsWith(itemName, GlobalPrefix)
    ensures GetValueByPath(itemName, data[itemName := item], global, host) == item
  {
    SplitOfSeparatorFree(itemName, '.');
    var scope := data[itemName := item];
    assert Step(Object(scope), itemName, host) == item;
    assert Walk(Object(scope), [itemName], host) == Walk(item, [], host);
  }

  /** `global.` paths name the same value at every depth of js-each nesting: a clone's js-value
      with a `global.` path shows the root data's value, whatever the item and the enclosing
      context, and keeps its children when that value is undefined. */
  lemma GlobalAtEveryDepth(template: Node, itemName: string, item: Value, data: Scope, root: Scope,
                           host: Host)
    requires template.Element? && ValueAttr in template.attrs
    requires StartsWith(template.attrs[ValueAttr], GlobalPrefix)
    ensures var c := Clone(template, itemName, item, data, root, host);
      var v := GetValueByPath(template.attrs[ValueAttr], root, root, host);
      && (v != Undefined ==> NoElementChildren(c) && TextContent(c) == host.toText(v))
      && (v == Undefined ==> |c.children| == |template.children|)
  {
    var scope := data[itemName := item];
    var marked := AfterConditionals(template, scope, root, host);
    GlobalEscape(template.attrs[ValueAttr], scope, root, root, host);
    assert marked.attrs == template.attrs;
  }

  /** A loop that throws somewhere: an element of the subtree whose loop attribute (js-each, or
      data-each in the older engine) has no " in ". */
  predicate MalformedEach(attr: string, n: Node)
    decreases n
  {
    && n.Element?
    && (|| (attr in n.attrs && ParseEach(n.attrs[attr]).None?)
        || exists i :: 0 <= i < |n.children| && MalformedEach(attr, n.children[i]))
  }

  predicate MalformedEachIn(attr: string, cs: seq<Node>) {
    exists i :: 0 <= i < |cs| && MalformedEach(attr, cs[i])
  }

  /** The repetition pass throws exactly when some element it reaches has a js-each without
      " in ": it reaches every element of the tree it is given, including the children of an
      expanded template before that template is removed. */
  lemma {:induction false} EachFailsExactly(n: Node, data: Scope, global: Scope, host: Host)
    ensures AfterEach(n, data, global, host).None? <==> MalformedEach(EachAttr, n)
    decreases n
  {
    if n.Element? {
      EachChildrenFailExactly(n.children, data, global, host);
    }
  }

  lemma {:induction false} EachChildrenFailExactly(cs: seq<Node>, data: Scope, global: Scope, host: Host)
    ensures AfterEachChildren(cs, data, global, host).None? <==> MalformedEachIn(EachAttr, cs)
    decreases cs
  {
    if cs != [] {
      var front := cs[..|cs| - 1];
      EachChildrenFailExactly(front, data, global, host);
      EachFailsExactly(cs[|cs| - 1], data, global, host);
      assert forall i :: 0 <= i < |front| ==> front[i] == cs[i];
      assert MalformedEachIn(EachAttr, cs) <==> MalformedEachIn(EachAttr, front) || MalformedEach(EachAttr, cs[|cs| - 1]);
    }
  }

  /** An array: one clone per item, in array order, and nothing of the original left, even for
      an empty array (src/index.ts:86-104). */
  lemma EachExpandsArray(n: Node, itemName: string, path: string, data: Scope, global: Scope,
                         host: Host)
    requires n.Element? && EachAttr in n.attrs
    requires ParseEach(n.attrs[EachAttr]) == Some((itemName, path))
    requires GetValueByPath(path, data, global, host).Array?
    requires !MalformedEachIn(EachAttr, n.children)
    ensures var items := GetValueByPath(path, data, global, host).items;
      && AfterEach(n, data, global, host).Some?
      && |AfterEach(n, data, global, host).value| == |items|
      && forall i :: 0 <= i < |items| ==>
           AfterEach(n, data, global, host).value[i] == Clone(n, itemName, items[i], data, global, host)
  {
    EachChildrenFailExactly(n.children, data, global, host);
  }

  /** An array of one gives exactly the clone of its item. */
  lemma SingleItem(n: Node, itemName: string, path: string, a: Value, data: Scope, global: Scope,
                   host: Host)
    requires n.Element? && EachAttr in n.attrs
    requires ParseEach(n.attrs[EachAttr]) == Some((itemName, path))
    requires GetValueByPath(path, data, global, host) == Array([a])
    requires !MalformedEachIn(EachAttr, n.children)
    ensures AfterEach(n, data, global, host) == Some([Clone(n, itemName, a, data, global, host)])
  {
    EachExpandsArray(n, itemName, path, data, global, host);
    var r := AfterEach(n, data, global, host).value;
    assert [a][0] == a;
    assert r == [r[0]];
  }

  /** Each clone is the template after the conditional and value passes in the extended
      context: same tag and attributes as the template (js-each included), the class list
      decided by the item's conditionals. */
  lemma CloneKeepsTemplateAttributes(template: Node, itemName: string, item: Value, data: Scope,
                                     global: Scope, host: Host)
    requires template.Element?
    ensures var c := Clone(template, itemName, item, data, global, host);
      && c.Element? && c.tag == template.tag && c.attrs == template.attrs
      && (Hidden(c) <==> MarkedByConditionals(template, data[itemName := item], global, host))
  {
  }

  /** Not an array (nothing there, or any other value): the element stays as it was, js-each
      attribute included, and its children are still walked (src/index.ts:86, 108-110). */
  lemma EachKeepsNonArray(n: Node, itemName: string, path: string, data: Scope, global: Scope,
                          host: Host)
    requires n.Element? && EachAttr in n.attrs
    requires ParseEach(n.attrs[EachAttr]) == Some((itemName, path))
    requires !GetValueByPath(path, data, global, host).Array?
    requires !MalformedEachIn(EachAttr, n.children)
    ensures AfterEach(n, data, global, host).Some?
    ensures |AfterEach(n, data, global, host).value| == 1
    ensures var m := AfterEach(n, data, global, host).value[0];
      && m.Element? && m.tag == n.tag && m.attrs == n.attrs && m.classes == n.classes
      && Some(m.children) == AfterEachChildren(n.children, data, global, host)
  {
    EachChildrenFailExactly(n.children, data, global, host);
  }

  /** Text without a space holds no " in ". */
  lemma NoSpaceNoSeparator(t: string)
    requires ' ' !in t
    ensures !Contains(t, EachSeparator)
  {
    forall i: nat | i <= |t| ensures !OccursAt(t, EachSeparator, i) {
      if i < |t| {
        assert t[i..][0] == t[i] != ' ';
      }
    }
  }

  /** `item in name` with space-free parts splits into exactly those two parts. */
  lemma ParseSimpleEach(item: string, name: string)
    requires ' ' !in item && ' ' !in name
    ensures ParseEach(item + EachSeparator + name) == Some((item, name))
  {
    var s := item + EachSeparator + name;
    assert s[|item|..] == EachSeparator + name;
    assert OccursAt(s, EachSeparator, |item|);
    var k := IndexOf(s, EachSeparator).value;
    assert k <= |item| by {
      assert OccursAt(s, EachSeparator, |item|);
    }
    forall j: nat | j < |item| ensures !OccursAt(s, EachSeparator, j) {
      assert s[j..][0] == item[j] != ' ';
    }
    assert BeforeFirst(s, EachSeparator) == item;
    assert s[|item| + |EachSeparator|..] == name;
    NoSpaceNoSeparator(name);
  }
}
