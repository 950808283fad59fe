/** renderTemplate's passes as the source performs them (src/index.ts:36-139): each pass visits
    an element, changes it, and loops over a snapshot of its children. Elements are values here,
    so a pass returns the updated element (or, for the repetition pass and the finalizer, the
    nodes left in its place) and the caller puts it back. Each method is proved to compute the
    function of the same pass in module Directives. */
module DirectiveProcessor {
  import opened Options
  import opened JsValues
  import opened PathResolver
  import opened Expressions
  import opened Dom
  import opened Directives

  /** processConditionals (src/index.ts:52-79). */
  method ProcessConditionals(el: Node, data: Scope, global: Scope, host: Host) returns (r: Node)
    ensures r == AfterConditionals(el, data, global, host)
    decreases el
  {
    if el.Text? {
      return el;
    }
    var classes := el.classes;
    if IfAttr in el.attrs {
      var show := Holds(el.attrs[IfAttr], data, global, host);
      if show {
        classes := RemoveClass(classes, HiddenMarker);
      } else {
        classes := AddClass(classes, HiddenMarker);
      }
    }
    if IfNotAttr in el.attrs {
      var show := !Holds(el.attrs[IfNotAttr], data, global, host);
      if show {
        classes := RemoveClass(classes, HiddenMarker);
      } else {
        classes := AddClass(classes, HiddenMarker);
      }
    }
    // for (const child of Array.from(el.children))
    var snapshot := el.children;
    var kids: seq<Node> := [];
    for i := 0 to |snapshot|
      invariant |kids| == i
      invariant forall j :: 0 <= j < i ==> kids[j] == AfterConditionals(snapshot[j], data, global, host)
    {
      var child := snapshot[i];
      if child.Element? {
        child := ProcessConditionals(child, data, global, host);
      }
      kids := kids + [child];
    }
    assert kids == seq(|snapshot|, i requires 0 <= i < |snapshot| => AfterConditionals(snapshot[i], data, global, host));
    r := el.(classes := classes, children := kids);
  }

  /** processDynamicValues (src/index.ts:36-50), for the value attribute `attr`. */
  method ProcessDynamicValues(attr: string, el: Node, data: Scope, global: Scope, host: Host)
    returns (r: Node)
    ensures r == AfterValues(attr, el, data, global, host)
    decreases el
  {
    if el.Text? {
      return el;
    }
    if attr in el.attrs {
      var value := GetValueByPath(el.attrs[attr], data, global, host);
      if value != Undefined {
        // el.textContent = value; the loop over el.children that follows finds no element
        return SetTextContent(el, host.toText(value));
      }
    }
    var snapshot := el.children;
    var kids: seq<Node> := [];
    for i := 0 to |snapshot|
      invariant |kids| == i
      invariant forall j :: 0 <= j < i ==> kids[j] == AfterValues(attr, snapshot[j], data, global, host)
    {
      var child := snapshot[i];
      if child.Element? {
        child := ProcessDynamicValues(attr, child, data, global, host);
      }
      kids := kids + [child];
    }
    r := el.(children := kids);
  }

  /** A failure anywhere in the prefix of a children walk is a failure of the walk. */
  lemma {:induction false} WalkFailsFromPrefix(cs: seq<Node>, i: nat, data: Scope, global: Scope, host: Host)
    requires i <= |cs|
    requires AfterEachChildren(cs[..i], data, global, host).None?
    ensures AfterEachChildren(cs, data, global, host).None?
    decreases |cs| - i
  {
    if i < |cs| {
      assert cs[..i + 1][..i] == cs[..i];
      WalkFailsFromPrefix(cs, i + 1, data, global, host);
    } else {
      assert cs[..i] == cs;
    }
  }

  /** The loop `for (const child of Array.from(el.children)) processEachElements(child, ...)`:
      each child is replaced in the parent by what its pass leaves; a throw ends the walk. */
  method ProcessEachOverSnapshot(snapshot: seq<Node>, data: Scope, global: Scope, host: Host)
    returns (r: Option<seq<Node>>)
    ensures r == AfterEachChildren(snapshot, data, global, host)
    decreases snapshot
  {
    var out: seq<Node> := [];
    for i := 0 to |snapshot|
      invariant AfterEachChildren(snapshot[..i], data, global, host) == Some(out)
    {
      assert snapshot[..i + 1][..i] == snapshot[..i];
      var replaced := ProcessEachElements(snapshot[i], data, global, host);
      if replaced.None? {
        WalkFailsFromPrefix(snapshot, i + 1, data, global, host);
        return None;
      }
      out := out + replaced.value;
    }
    assert snapshot[..|snapshot|] == snapshot;
    r := Some(out);
  }

  /** The loop at src/index.ts:89-95: for each item, in order, a fresh copy of the template gets
      the conditional and value passes in the extended context and is inserted before the
      original; the copies are returned in insertion order. */
  method CloneForEachItem(template: Node, itemName: string, items: seq<Value>, data: Scope,
                          global: Scope, host: Host)
    returns (clones: seq<Node>)
    ensures clones == Clones(template, itemName, items, data, global, host)
  {
    clones := [];
    for k := 0 to |items|
      invariant |clones| == k
      invariant forall j :: 0 <= j < k ==> clones[j] == Clone(template, itemName, items[j], data, global, host)
    {
      var scope := data[itemName := items[k]];
      var clone := ProcessConditionals(template, scope, global, host);
      clone := ProcessDynamicValues(ValueAttr, clone, scope, global, host);
      // parent.insertBefore(clone, el)
      clones := clones + [clone];
    }
    assert clones == seq(|items|, i requires 0 <= i < |items| => Clone(template, itemName, items[i], data, global, host));
  }

  /** processEachElements (src/index.ts:82-111), returning the nodes that stand in el's place in
      its parent afterwards; None when getValueByPath throws on a js-each without " in ". */
  method ProcessEachElements(el: Node, data: Scope, global: Scope, host: Host)
    returns (r: Option<seq<Node>>)
    ensures r == AfterEach(el, data, global, host)
    decreases el
  {
    if el.Text? {
      return Some([el]);
    }
    if EachAttr in el.attrs {
      var parsed := ParseEach(el.attrs[EachAttr]);
      if parsed.None? {
        return None;
      }
      var (itemName, path) := parsed.value;
      var found := GetValueByPath(path, data, global, host);
      if found.Array? {
        var clones := CloneForEachItem(el, itemName, found.items, data, global, host);
        // the walk of the original's children, which is removed right after
        var walked := ProcessEachOverSnapshot(el.children, data, global, host);
        if walked.None? {
          return None;
        }
        // el.remove()
        return Some(clones);
      }
    }
    var walked := ProcessEachOverSnapshot(el.children, data, global, host);
    if walked.None? {
      return None;
    }
    r := Some([el.(children := walked.value)]);
  }

  /** The finalizer (src/index.ts:118-139) over a sequence of sibling nodes. */
  method FinalizeNodes(nodes: seq<Node>, removeJsAttributes: bool) returns (r: seq<Node>)
    ensures r == AfterFinalizeChildren(nodes, removeJsAttributes)
    decreases nodes
  {
    r := [];
    for i := 0 to |nodes|
      invariant r == AfterFinalizeChildren(nodes[..i], removeJsAttributes)
    {
      assert nodes[..i + 1][..i] == nodes[..i];
      var el := nodes[i];
      if el.Text? {
        r := r + [el];
      } else if Deleted(el, removeJsAttributes) {
        // el.remove()
      } else {
        var attrs := el.attrs;
        if removeJsAttributes {
          attrs := attrs - {ValueAttr};
          attrs := attrs - {IfAttr};
          attrs := attrs - {IfNotAttr};
          attrs := attrs - {EachAttr};
        }
        assert attrs == if removeJsAttributes then el.attrs - DirectiveAttrs else el.attrs;
        var kids := FinalizeNodes(el.children, removeJsAttributes);
        r := r + [el.(attrs := attrs, children := kids)];
      }
    }
    assert nodes[..|nodes|] == nodes;
  }

  /** renderTemplate (src/index.ts:32-142) on the document body: the three passes with the root
      data as both contexts, then the finalizer; None when the render throws. */
  method RenderTemplate(body: Node, data: Scope, removeJsAttributes: bool, host: Host)
    returns (r: Option<seq<Node>>)
    ensures r == Rendered(body, data, removeJsAttributes, host)
  {
    var marked := ProcessConditionals(body, data, data, host);
    var valued := ProcessDynamicValues(ValueAttr, marked, data, data, host);
    var expanded := ProcessEachElements(valued, data, data, host);
    if expanded.None? {
      return None;
    }
    var finalized := FinalizeNodes(expanded.value, removeJsAttributes);
    r := Some(finalized);
  }
}
