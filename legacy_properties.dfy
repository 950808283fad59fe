/** What the older engine (index.js:31-69) promises: the pass order decides the display, the
    conditionals remove nothing, processElement throws exactly on a data-each without " in ",
    an array expands into processed clones, a non-array leaves the element in place, and loops
    nested in a template are expanded in the outer item's context. */
module LegacyProperties {
  import opened Options
  import opened JsValues
  import opened PathResolver
  import opened Expressions
  import opened Dom
  import opened Directives
  import opened DirectiveProperties
  import opened LegacyDirectives

  // ---------------------------------------------------------------------------------------
  // Values, then data-if, then data-if-not (index.js:33-51)

  /** After the first three passes an element keeps its tag, attributes and classes; data-if-not
      runs last, so it decides the display whenever it is present, data-if decides otherwise,
      and an element with neither keeps its display. */
  lemma PreparedElement(n: Node, data: Scope, global: Scope, host: Host)
    requires n.Element?
    ensures var r := Prepared(n, data, global, host);
      && r.Element? && r.tag == n.tag && r.attrs == n.attrs && r.classes == n.classes
      && r.display == (if LegacyIfNotAttr in n.attrs then DisplayFor(!Holds(n.attrs[LegacyIfNotAttr], data, global, host))
                       else if LegacyIfAttr in n.attrs then DisplayFor(Holds(n.attrs[LegacyIfAttr], data, global, host))
                       else n.display)
  {
    var valued := AfterValues(LegacyValueAttr, n, data, global, host);
    var shown := AfterDisplay(LegacyIfAttr, false, valued, data, global, host);
    assert shown.attrs == n.attrs;
  }

  /** Fail-closed (index.js:20-23): a data-if whose condition makes the host throw counts as
      false, so the element is hidden. */
  lemma ThrowingDataIfHides(n: Node, data: Scope, global: Scope, host: Host)
    requires n.Element? && LegacyIfAttr in n.attrs && LegacyIfNotAttr !in n.attrs
    requires Throws(n.attrs[LegacyIfAttr], data, global, host)
    ensures Prepared(n, data, global, host).display == "none"
  {
    PreparedElement(n, data, global, host);
  }

  /** Fail-closed for data-if-not: a throwing condition counts as false, so the element is
      shown, whatever its data-if decided. */
  lemma ThrowingDataIfNotShows(n: Node, data: Scope, global: Scope, host: Host)
    requires n.Element? && LegacyIfNotAttr in n.attrs
    requires Throws(n.attrs[LegacyIfNotAttr], data, global, host)
    ensures Prepared(n, data, global, host).display == ""
  {
    PreparedElement(n, data, global, host);
  }

  lemma {:induction false} SameButDisplayTrans(a: Node, b: Node, c: Node)
    requires SameButDisplay(a, b) && SameButDisplay(b, c)
    ensures SameButDisplay(a, c)
    decreases a
  {
    if a.Element? {
      forall i | 0 <= i < |a.children| ensures SameButDisplay(a.children[i], c.children[i]) {
        SameButDisplayTrans(a.children[i], b.children[i], c.children[i]);
      }
    }
  }

  /** No element is added, removed or moved by the conditionals (index.js:40-51): after the
      value pass, the two conditional passes change inline displays and nothing else. */
  lemma ConditionalsRemoveNothing(n: Node, data: Scope, global: Scope, host: Host)
    ensures SameButDisplay(AfterValues(LegacyValueAttr, n, data, global, host), Prepared(n, data, global, host))
  {
    var valued := AfterValues(LegacyValueAttr, n, data, global, host);
    var shown := AfterDisplay(LegacyIfAttr, false, valued, data, global, host);
    SameButDisplayTrans(valued, shown, Prepared(n, data, global, host));
  }

  // ---------------------------------------------------------------------------------------
  // When processElement throws

  lemma {:induction false} SameButDisplayMalformed(attr: string, a: Node, b: Node)
    requires SameButDisplay(a, b)
    ensures MalformedEach(attr, a) <==> MalformedEach(attr, b)
    decreases a
  {
    if a.Element? {
      forall i | 0 <= i < |a.children|
        ensures MalformedEach(attr, a.children[i]) <==> MalformedEach(attr, b.children[i])
      {
        SameButDisplayMalformed(attr, a.children[i], b.children[i]);
      }
    }
  }

  /** The value pass only replaces children by text, so it creates no malformed data-each. */
  lemma {:induction false} ValuesKeepWellFormed(valueAttr: string, attr: string, n: Node, data: Scope,
                                                global: Scope, host: Host)
    requires MalformedEach(attr, AfterValues(valueAttr, n, data, global, host))
    ensures MalformedEach(attr, n)
    decreases n
  {
    var r := AfterValues(valueAttr, n, data, global, host);
    if !ValueReplaces(valueAttr, n, data, global, host) && !(attr in n.attrs && ParseEach(n.attrs[attr]).None?) {
      var i :| 0 <= i < |r.children| && MalformedEach(attr, r.children[i]);
      ValuesKeepWellFormed(valueAttr, attr, n.children[i], data, global, host);
    }
  }

  lemma PreparedKeepsWellFormed(attr: string, n: Node, data: Scope, global: Scope, host: Host)
    ensures MalformedEach(attr, Prepared(n, data, global, host)) ==> MalformedEach(attr, n)
  {
    var valued := AfterValues(LegacyValueAttr, n, data, global, host);
    ConditionalsRemoveNothing(n, data, global, host);
    SameButDisplayMalformed(attr, valued, Prepared(n, data, global, host));
    if MalformedEach(attr, valued) {
      ValuesKeepWellFormed(LegacyValueAttr, attr, n, data, global, host);
    }
  }

  lemma PreparedAllKeepsWellFormed(attr: string, cs: seq<Node>, data: Scope, global: Scope, host: Host)
    ensures MalformedEachIn(attr, PreparedAll(cs, data, global, host)) ==> MalformedEachIn(attr, cs)
  {
    if MalformedEachIn(attr, PreparedAll(cs, data, global, host)) {
      var i :| 0 <= i < |cs| && MalformedEach(attr, PreparedAll(cs, data, global, host)[i]);
      PreparedKeepsWellFormed(attr, cs[i], data, global, host);
    }
  }

  /** The data-each step throws exactly when some element it reaches has a data-each without
      " in ": the element itself, a descendant on the detached original, or a descendant of a
      clone, which is the template's own descendant after the first three passes. */
  lemma {:induction false} LegacyEachFailsExactly(n: Node, data: Scope, global: Scope, host: Host)
    ensures LegacyEach(n, data, global, host).None? <==> MalformedEach(LegacyEachAttr, n)
    decreases Height(n), 1, 0
  {
    if n.Element? {
      LegacyEachChildrenFailExactly(n.children, data, global, host);
      if LegacyEachAttr in n.attrs && ParseEach(n.attrs[LegacyEachAttr]).Some? {
        var (itemName, path) := ParseEach(n.attrs[LegacyEachAttr]).value;
        var found := GetValueByPath(path, data, global, host);
        if found.Array? && !MalformedEachIn(LegacyEachAttr, n.children) {
          LegacyClonesSucceed(n, itemName, found.items, data, global, host);
        }
      }
    }
  }

  lemma {:induction false} LegacyEachChildrenFailExactly(cs: seq<Node>, data: Scope, global: Scope, host: Host)
    ensures LegacyEachChildren(cs, data, global, host).None? <==> MalformedEachIn(LegacyEachAttr, cs)
    decreases MaxHeight(cs), 2, |cs|
  {
    if cs != [] {
      var front := cs[..|cs| - 1];
      LegacyEachChildrenFailExactly(front, data, global, host);
      LegacyEachFailsExactly(cs[|cs| - 1], data, global, host);
      assert forall i :: 0 <= i < |front| ==> front[i] == cs[i];
      assert MalformedEachIn(LegacyEachAttr, cs) <==>
             MalformedEachIn(LegacyEachAttr, front) || MalformedEach(LegacyEachAttr, cs[|cs| - 1]);
    }
  }

  /** processElement throws exactly when its data-each list, taken after the first three
      passes, reaches a malformed data-each; then the root's own descendants had one. */
  lemma {:induction false} LegacyProcessedFails(root: Node, data: Scope, global: Scope, host: Host)
    requires root.Element?
    ensures LegacyProcessed(root, data, global, host).None? <==>
            MalformedEachIn(LegacyEachAttr, PreparedAll(root.children, data, global, host))
    ensures LegacyProcessed(root, data, global, host).None? ==> MalformedEachIn(LegacyEachAttr, root.children)
    decreases Height(root), 0, 0
  {
    LegacyEachChildrenFailExactly(PreparedAll(root.children, data, global, host), data, global, host);
    PreparedAllKeepsWellFormed(LegacyEachAttr, root.children, data, global, host);
  }

  /** Every clone is produced when the template's descendants have no malformed data-each:
      clone i is the template run through processElement with item i bound. */
  lemma {:induction false} LegacyClonesSucceed(template: Node, itemName: string, items: seq<Value>,
                                               data: Scope, global: Scope, host: Host)
    requires template.Element? && !MalformedEachIn(LegacyEachAttr, template.children)
    ensures var r := LegacyClones(template, itemName, items, data, global, host);
      && r.Some? && |r.value| == |items|
      && forall i :: 0 <= i < |items| ==>
           Some(r.value[i]) == LegacyProcessed(template, data[itemName := items[i]], global, host)
    decreases Height(template), 0, |items| + 1
  {
    if items != [] {
      var front := items[..|items| - 1];
      LegacyClonesSucceed(template, itemName, front, data, global, host);
      LegacyProcessedFails(template, data[itemName := items[|items| - 1]], global, host);
      assert forall i :: 0 <= i < |front| ==> front[i] == items[i];
    }
  }

  // ---------------------------------------------------------------------------------------
  // Expansion (index.js:54-68)

  /** An array: one clone per item, in array order, each the template run through
      processElement with `{...currentData, [itemName]: item}`; each keeps the template's tag,
      attributes and display, so its own data-each is not expanded again; nothing of the
      original is left, even for an empty array. */
  lemma LegacyEachExpandsArray(n: Node, itemName: string, path: string, data: Scope, global: Scope,
                               host: Host)
    requires n.Element? && LegacyEachAttr in n.attrs
    requires ParseEach(n.attrs[LegacyEachAttr]) == Some((itemName, path))
    requires GetValueByPath(path, data, global, host).Array?
    requires !MalformedEachIn(LegacyEachAttr, n.children)
    ensures var items := GetValueByPath(path, data, global, host).items;
      var r := LegacyEach(n, data, global, host);
      && r.Some? && |r.value| == |items|
      && forall i :: 0 <= i < |items| ==>
           && Some(r.value[i]) == LegacyProcessed(n, data[itemName := items[i]], global, host)
           && r.value[i].Element? && r.value[i].tag == n.tag && r.value[i].attrs == n.attrs
           && r.value[i].display == n.display
  {
    var items := GetValueByPath(path, data, global, host).items;
    LegacyClonesSucceed(n, itemName, items, data, global, host);
    LegacyEachChildrenFailExactly(n.children, data, global, host);
  }

  /** A data-each whose path resolves to anything but an array leaves the element in place,
      attribute and all, with its descendants processed in the same context. */
  lemma LegacyEachKeepsNonArray(n: Node, itemName: string, path: string, data: Scope, global: Scope,
                                host: Host)
    requires n.Element? && LegacyEachAttr in n.attrs
    requires ParseEach(n.attrs[LegacyEachAttr]) == Some((itemName, path))
    requires !GetValueByPath(path, data, global, host).Array?
    requires !MalformedEachIn(LegacyEachAttr, n.children)
    ensures LegacyEachChildren(n.children, data, global, host).Some?
    ensures LegacyEach(n, data, global, host) ==
            Some([n.(children := LegacyEachChildren(n.children, data, global, host).value)])
  {
    LegacyEachChildrenFailExactly(n.children, data, global, host);
  }

  /** The data-each walk over one sibling is that sibling's step. */
  lemma SingleSiblingWalk(p: Node, data: Scope, global: Scope, host: Host)
    ensures LegacyEachChildren([p], data, global, host) == LegacyEach(p, data, global, host)
  {
    assert [p][..0] == [];
    assert LegacyEachChildren([], data, global, host) == Some([]);
    if LegacyEach(p, data, global, host).Some? {
      var last := LegacyEach(p, data, global, host).value;
      assert [] + last == last;
    }
  }

  /** processElement on an element whose only child is a data-each over an array: the child is
      replaced by one copy per element of the array, each with the child's attributes. */
  lemma ProcessedOnlyChildLoop(n: Node, inner: Node, innerName: string, innerPath: string, scope: Scope,
                               global: Scope, host: Host)
    requires n.Element? && n.children == [inner] && inner.Element? && LegacyEachAttr in inner.attrs
    requires ParseEach(inner.attrs[LegacyEachAttr]) == Some((innerName, innerPath))
    requires !MalformedEachIn(LegacyEachAttr, inner.children)
    requires GetValueByPath(innerPath, scope, global, host).Array?
    ensures var inners := GetValueByPath(innerPath, scope, global, host).items;
      var r := LegacyProcessed(n, scope, global, host);
      && r.Some? && |r.value.children| == |inners|
      && forall j :: 0 <= j < |inners| ==> r.value.children[j].Element? && r.value.children[j].attrs == inner.attrs
  {
    var p := Prepared(inner, scope, global, host);
    assert PreparedAll(n.children, scope, global, host) == [p];
    PreparedElement(inner, scope, global, host);
    PreparedKeepsWellFormed(LegacyEachAttr, inner, scope, global, host);
    assert !MalformedEachIn(LegacyEachAttr, p.children);
    LegacyEachExpandsArray(p, innerName, innerPath, scope, global, host);
    SingleSiblingWalk(p, scope, global, host);
  }

  /** Nested loops (index.js:54, 63): processElement on a clone reaches the data-each elements
      below it. A template whose only child is itself a data-each template comes out, for each
      outer item, with the inner template replaced by one copy per element of the inner array,
      resolved in the outer item's context. */
  lemma LegacyNestedLoopExpanded(n: Node, inner: Node, itemName: string, path: string, innerName: string,
                                 innerPath: string, k: nat, data: Scope, global: Scope, host: Host)
    requires n.Element? && LegacyEachAttr in n.attrs
    requires ParseEach(n.attrs[LegacyEachAttr]) == Some((itemName, path))
    requires GetValueByPath(path, data, global, host).Array?
    requires k < |GetValueByPath(path, data, global, host).items|
    requires n.children == [inner] && inner.Element? && LegacyEachAttr in inner.attrs
    requires ParseEach(inner.attrs[LegacyEachAttr]) == Some((innerName, innerPath))
    requires !MalformedEachIn(LegacyEachAttr, inner.children)
    requires GetValueByPath(innerPath, data[itemName := GetValueByPath(path, data, global, host).items[k]],
                            global, host).Array?
    ensures var scope := data[itemName := GetValueByPath(path, data, global, host).items[k]];
      var inners := GetValueByPath(innerPath, scope, global, host).items;
      var r := LegacyEach(n, data, global, host);
      && r.Some? && k < |r.value| && r.value[k].Element?
      && |r.value[k].children| == |inners|
      && forall j :: 0 <= j < |inners| ==>
           r.value[k].children[j].Element? && r.value[k].children[j].attrs == inner.attrs
  {
    var items := GetValueByPath(path, data, global, host).items;
    assert !MalformedEach(LegacyEachAttr, inner);
    assert !MalformedEachIn(LegacyEachAttr, n.children);
    LegacyEachExpandsArray(n, itemName, path, data, global, host);
    ProcessedOnlyChildLoop(n, inner, innerName, innerPath, data[itemName := items[k]], global, host);
  }
}
