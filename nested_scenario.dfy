/** The nested loop of the finding, worked out: `<ul js-each="g in groups"><li js-each="x in
    g.items" js-value="x">?</li></ul>` over one group with items 1 and 2. */
module NestedScenario {
  import opened Options
  import opened JsValues
  import opened PathResolver
  import opened Dom
  import opened Directives
  import opened DirectiveProperties
  import opened NestedEach
  import opened Scenarios

  function InnerAttrs(): map<string, string> {
    map[EachAttr := "x in g.items", ValueAttr := "x"]
  }

  function Inner(): Node {
    Elem("li", InnerAttrs(), [Text("?")])
  }

  function Outer(): Node {
    Elem("ul", map[EachAttr := "g in groups"], [Inner()])
  }

  function Group(): Value {
    Object(map["items" := Array([Number(1), Number(2)])])
  }

  function Groups(): Scope {
    map["groups" := Array([Group()])]
  }

  /** The clone's context: the root data with the loop variable bound. */
  function InGroup(): Scope {
    Groups()["g" := Group()]
  }

  lemma OuterParsed(outer: Node)
    requires outer == Outer()
    ensures outer.Element? && EachAttr in outer.attrs
    ensures ParseEach(outer.attrs[EachAttr]) == Some(("g", "groups"))
  {
    assert "g in groups" == "g" + EachSeparator + "groups";
    ParseSimpleEach("g", "groups");
  }

  lemma InnerParsed(inner: Node)
    requires inner == Inner()
    ensures inner.Element? && EachAttr in inner.attrs
    ensures ParseEach(inner.attrs[EachAttr]) == Some(("x", "g.items"))
  {
    assert "x in g.items" == "x" + EachSeparator + "g.items";
    ParseSimpleEach("x", "g.items");
  }

  lemma GroupsFound(data: Scope, host: Host)
    requires data == Groups()
    ensures GetValueByPath("groups", data, data, host) == Array([Group()])
  {
    SplitOfSeparatorFreeGroups();
    NotGlobal("groups");
    assert ["groups"][1..] == [];
  }

  lemma SplitOfSeparatorFreeGroups()
    ensures Strings.Split("groups", '.') == ["groups"]
  {
    Strings.SplitOfSeparatorFree("groups", '.');
  }

  lemma ItemsPath(scope: Scope, host: Host)
    ensures GetValueByPath("g.items", scope, Groups(), host)
         == Step(Step(Object(scope), "g", host), "items", host)
  {
    assert "g.items" == "g" + "." + "items";
    NotGlobal("g.items");
    LocalTwoSegments("g", "items", scope, Groups(), host);
  }

  /** At the top level `g` is unbound, so the inner path resolves to undefined. */
  lemma ItemsUnboundAtTop(data: Scope, host: Host)
    requires data == Groups()
    ensures GetValueByPath("g.items", data, data, host) == Undefined
  {
    ItemsPath(data, host);
  }

  /** Inside the clone it resolves to the group's items. */
  lemma ItemsInGroup(scope: Scope, host: Host)
    requires scope == InGroup()
    ensures GetValueByPath("g.items", scope, Groups(), host) == Array([Number(1), Number(2)])
  {
    ItemsPath(scope, host);
    assert Step(Object(scope), "g", host) == Group();
  }

  lemma LoopVariableUnbound(scope: Scope, host: Host)
    requires scope == Groups() || scope == InGroup()
    ensures GetValueByPath("x", scope, Groups(), host) == Undefined
  {
    Strings.SplitOfSeparatorFree("x", '.');
    assert !Strings.StartsWith("x", GlobalPrefix);
    assert ["x"][1..] == [];
    assert "x" !in scope;
  }

  lemma InnerWellFormed(inner: Node)
    requires inner == Inner()
    ensures !MalformedEach(EachAttr, inner)
  {
    InnerParsed(inner);
    assert !MalformedEach(EachAttr, Text("?"));
  }

  /** The outer clone: the values pass finds no `x` in the group's context, so the template
      comes out unchanged. */
  lemma OuterCloneIsTemplate(outer: Node, host: Host)
    requires outer == Outer()
    ensures Clone(outer, "g", Group(), Groups(), Groups(), host) == outer
  {
    assert NoConditionals(outer) by {
      assert NoConditionals(Inner());
    }
    ConditionalFreeUnchanged(outer, InGroup(), Groups(), host);
    LoopVariableUnbound(InGroup(), host);
    PlaceholderSurvives(ValueAttr, Inner(), InGroup(), Groups(), host);
    var r := AfterValues(ValueAttr, outer, InGroup(), Groups(), host);
    assert r.children == [AfterValues(ValueAttr, Inner(), InGroup(), Groups(), host)];
  }

  /** As written: the one clone is the template itself, its inner js-each unexpanded. */
  lemma NestedLoopAsWritten(outer: Node, data: Scope, host: Host)
    requires outer == Outer() && data == Groups()
    ensures AfterEach(outer, data, data, host) == Some([outer])
  {
    OuterParsed(outer);
    GroupsFound(data, host);
    OuterChildrenWellFormed(outer);
    SingleItem(outer, "g", "groups", Group(), data, data, host);
    OuterCloneIsTemplate(outer, host);
  }

  lemma OuterChildrenWellFormed(outer: Node)
    requires outer == Outer()
    ensures !MalformedEachIn(EachAttr, outer.children)
  {
    InnerWellFormed(Inner());
  }

  // ---------------------------------------------------------------------------------------
  // Corrected

  function Filled(text: string): Node {
    Elem("li", InnerAttrs(), [Text(text)])
  }

  lemma InnerClone(inner: Node, scope: Scope, root: Scope, k: int, text: string, host: Host)
    requires inner == Inner() && scope == InGroup() && root == Groups()
    requires text != "" && host.toText(Number(k)) == text
    ensures Clone(inner, "x", Number(k), scope, root, host) == Filled(text)
  {
    var scope := InGroup()["x" := Number(k)];
    assert NoConditionals(Inner());
    ConditionalFreeUnchanged(Inner(), scope, Groups(), host);
    LoopVariableBound("x", Number(k), InGroup(), Groups(), host);
    assert ValueReplaces(ValueAttr, Inner(), scope, Groups(), host);
  }

  lemma InnerClonesInGroup(inner: Node, scope: Scope, root: Scope, host: Host)
    requires inner == Inner() && scope == InGroup() && root == Groups()
    ensures AfterEachFixed(inner, scope, root, host)
         == Some(Clones(inner, "x", [Number(1), Number(2)], scope, root, host))
  {
    InnerParsed(inner);
    ItemsInGroup(scope, host);
    InnerChildrenLoopFree(inner);
    FixedFlatTemplate(inner, "x", "g.items", scope, root, host);
  }

  lemma InnerClonesFilled(inner: Node, scope: Scope, root: Scope, host: Host)
    requires inner == Inner() && scope == InGroup() && root == Groups()
    requires host.toText(Number(1)) == "1" && host.toText(Number(2)) == "2"
    ensures Clones(inner, "x", [Number(1), Number(2)], scope, root, host) == [Filled("1"), Filled("2")]
  {
    InnerClone(inner, scope, root, 1, "1", host);
    InnerClone(inner, scope, root, 2, "2", host);
    var cs := Clones(inner, "x", [Number(1), Number(2)], scope, root, host);
    assert cs == [cs[0], cs[1]];
  }

  /** In the group's context the inner loop expands to one item per number. */
  lemma InnerExpanded(inner: Node, scope: Scope, root: Scope, host: Host)
    requires inner == Inner() && scope == InGroup() && root == Groups()
    requires host.toText(Number(1)) == "1" && host.toText(Number(2)) == "2"
    ensures AfterEachFixed(inner, scope, root, host) == Some([Filled("1"), Filled("2")])
  {
    InnerClonesInGroup(inner, scope, root, host);
    InnerClonesFilled(inner, scope, root, host);
  }

  /** At the top level the inner loop's path is undefined, so the walk over the template's own
      children leaves it in place. */
  lemma InnerKeptAtTop(inner: Node, data: Scope, host: Host)
    requires inner == Inner() && data == Groups()
    ensures AfterEachFixed(inner, data, data, host) == Some([inner])
  {
    InnerParsed(inner);
    ItemsUnboundAtTop(data, host);
    InnerChildrenLoopFree(inner);
    FixedKeepsNonArrayLeaf(inner, "x", "g.items", data, data, host);
  }

  lemma InnerChildrenLoopFree(inner: Node)
    requires inner == Inner()
    ensures NoLoopsIn(inner.children)
  {
  }

  lemma OuterChildrenKeptAtTop(outer: Node, data: Scope, host: Host)
    requires outer == Outer() && data == Groups()
    ensures AfterEachChildrenFixed(outer.children, data, data, host) == Some([Inner()])
  {
    InnerKeptAtTop(Inner(), data, host);
    assert [Inner()][..0] == [];
    assert [] + [Inner()] == [Inner()];
  }

  lemma OuterCloneExpanded(outer: Node, host: Host)
    requires outer == Outer()
    requires host.toText(Number(1)) == "1" && host.toText(Number(2)) == "2"
    ensures ExpandedClone(outer, "g", Group(), Groups(), Groups(), host)
         == Some(Elem("ul", map[EachAttr := "g in groups"], [Filled("1"), Filled("2")]))
  {
    OuterCloneIsTemplate(outer, host);
    InnerExpanded(Inner(), InGroup(), Groups(), host);
    assert [Inner()][..0] == [];
    assert AfterEachChildrenFixed([Inner()], InGroup(), Groups(), host) == Some([] + [Filled("1"), Filled("2")]);
    assert [] + [Filled("1"), Filled("2")] == [Filled("1"), Filled("2")];
  }

  /** Corrected: the inner loop is expanded inside the clone, with the group bound to `g`. */
  lemma NestedLoopFixed(outer: Node, data: Scope, host: Host)
    requires outer == Outer() && data == Groups()
    requires host.toText(Number(1)) == "1" && host.toText(Number(2)) == "2"
    ensures AfterEachFixed(outer, data, data, host)
         == Some([Elem("ul", map[EachAttr := "g in groups"], [Filled("1"), Filled("2")])])
  {
    OuterParsed(outer);
    GroupsFound(data, host);
    OuterChildrenKeptAtTop(outer, data, host);
    OuterCloneExpanded(outer, host);
    FixedSingleItem(outer, "g", "groups", Group(), data, data, host);
  }
}
