/** The directive interpreter of renderTemplate (src/index.ts:32-142), as functions on trees:
    the conditional pass, the value pass, the repetition pass, the finalizer, and the render
    that runs them in that order on the document body. DirectiveProcessor holds the methods that
    perform the same passes step by step. */
module Directives {
  import opened Options
  import opened Strings
  import opened JsValues
  import opened PathResolver
  import opened Expressions
  import opened Dom

  const ValueAttr := "js-value"
  const IfAttr := "js-if"
  const IfNotAttr := "js-if-not"
  const EachAttr := "js-each"
  const DirectiveAttrs: set<string> := {ValueAttr, IfAttr, IfNotAttr, EachAttr}

  /** The separator of `js-each="item in path"`. */
  const EachSeparator := " in "

  // ---------------------------------------------------------------------------------------
  // Conditional pass (src/index.ts:52-79)

  /** `if (show) classList.remove('remove-it') else classList.add('remove-it')` */
  function Toggle(classes: seq<string>, show: bool): (r: seq<string>)
    ensures HiddenMarker in r <==> !show
    ensures forall c :: c != HiddenMarker ==> (c in r <==> c in classes)
  {
    if show then RemoveClass(classes, HiddenMarker) else AddClass(classes, HiddenMarker)
  }

  /** Whether an element carries the marker after the conditional pass: js-if-not is applied
      second, so it decides whenever it is present. */
  predicate MarkedByConditionals(n: Node, data: Scope, global: Scope, host: Host)
    requires n.Element?
  {
    if IfNotAttr in n.attrs then Holds(n.attrs[IfNotAttr], data, global, host)
    else if IfAttr in n.attrs then !Holds(n.attrs[IfAttr], data, global, host)
    else HiddenMarker in n.classes
  }

  /** Two trees that differ at most in their class lists. */
  predicate SameButClasses(a: Node, b: Node)
    decreases a
  {
    match a
    case Text(_) => a == b
    case Element(tag, attrs, _, display, children) =>
      && b.Element? && b.tag == tag && b.attrs == attrs && b.display == display
      && |b.children| == |children|
      && forall i :: 0 <= i < |children| ==> SameButClasses(children[i], b.children[i])
  }

  /** processConditionals(el, currentData, globalData), pre-order, children with the same
      context. */
  function AfterConditionals(n: Node, data: Scope, global: Scope, host: Host): (r: Node)
    ensures SameButClasses(n, r)
    ensures r.Element? ==> forall c :: c != HiddenMarker ==> (c in r.classes <==> c in n.classes)
    ensures r.Element? ==> (Hidden(r) <==> MarkedByConditionals(n, data, global, host))
    decreases n
  {
    match n
    case Text(_) => n
    case Element(_, attrs, classes, _, children) =>
      var afterIf := if IfAttr in attrs then Toggle(classes, Holds(attrs[IfAttr], data, global, host))
                     else classes;
      var afterIfNot := if IfNotAttr in attrs then Toggle(afterIf, !Holds(attrs[IfNotAttr], data, global, host))
                        else afterIf;
      n.(classes := afterIfNot,
         children := seq(|children|, i requires 0 <= i < |children| => AfterConditionals(children[i], data, global, host)))
  }

  // ---------------------------------------------------------------------------------------
  // Value pass (src/index.ts:36-50); the attribute is a parameter because the older engine
  // (index.js:33-37) performs the same substitution on `data-value`.

  /** The element carries the value attribute and its path resolves to something other than
      undefined, so its text is replaced. */
  predicate ValueReplaces(attr: string, n: Node, data: Scope, global: Scope, host: Host) {
    n.Element? && attr in n.attrs && GetValueByPath(n.attrs[attr], data, global, host) != Undefined
  }

  /** processDynamicValues(el, currentData, globalData): `if (value !== undefined)
      el.textContent = value`, then the children. After a replacement the element has no
      element children left, so there is nothing below it to visit. */
  function AfterValues(attr: string, n: Node, data: Scope, global: Scope, host: Host): (r: Node)
    ensures n.Text? ==> r == n
    ensures r.Element? == n.Element?
    ensures r.Element? ==> r.tag == n.tag && r.attrs == n.attrs && r.classes == n.classes
    ensures r.Element? ==> r.display == n.display
    ensures Height(r) <= Height(n)
    ensures ValueReplaces(attr, n, data, global, host) ==>
      && NoElementChildren(r)
      && TextContent(r) == host.toText(GetValueByPath(n.attrs[attr], data, global, host))
    ensures n.Element? && !ValueReplaces(attr, n, data, global, host) ==>
      && |r.children| == |n.children|
      && forall i :: 0 <= i < |n.children| && n.children[i].Text? ==> r.children[i] == n.children[i]
    decreases n
  {
    match n
    case Text(_) => n
    case Element(_, attrs, _, _, children) =>
      if ValueReplaces(attr, n, data, global, host) then
        SetTextContent(n, host.toText(GetValueByPath(attrs[attr], data, global, host)))
      else
        var kids := seq(|children|, i requires 0 <= i < |children| => AfterValues(attr, children[i], data, global, host));
        MaxHeightPointwise(kids, children);
        n.(children := kids)
  }

  // ---------------------------------------------------------------------------------------
  // Repetition pass (src/index.ts:82-111)

  /** `const [itemName, arrayName] = value.split(' in ')`: the text before the first separator
      and the text between the first and the second (or the end). None when there is no
      separator, which leaves arrayName undefined and makes getValueByPath throw. */
  function ParseEach(s: string): (r: Option<(string, string)>)
    ensures r.None? <==> !Contains(s, EachSeparator)
    ensures r.Some? ==> !Contains(r.value.0, EachSeparator) && !Contains(r.value.1, EachSeparator)
    ensures r.Some? ==> StartsWith(s, r.value.0 + EachSeparator + r.value.1)
    ensures r.Some? ==>
      var rest := s[|r.value.0 + EachSeparator + r.value.1|..];
      rest == [] || StartsWith(rest, EachSeparator)
    ensures r.Some? ==> IndexOf(s, EachSeparator) == Some(|r.value.0|)
    ensures r.Some? ==>
      var after := s[|r.value.0| + |EachSeparator|..];
      && (forall j: nat :: j < |r.value.1| ==> !OccursAt(after, EachSeparator, j))
      && (Contains(after, EachSeparator) ==> IndexOf(after, EachSeparator) == Some(|r.value.1|))
  {
    match IndexOf(s, EachSeparator)
    case None => None
    case Some(_) =>
      FirstTwoPieces(s, EachSeparator);
      var item := BeforeFirst(s, EachSeparator);
      var name := BeforeFirst(s[|item| + |EachSeparator|..], EachSeparator);
      Some((item, name))
  }

  /** One iteration of the loop at src/index.ts:89-95: a fresh copy of the template gets the
      conditional pass and then the value pass in the context `{...currentData, [itemName]:
      item}`; the repetition pass never sees it. */
  function Clone(template: Node, itemName: string, item: Value, data: Scope, global: Scope,
                 host: Host): Node
  {
    var scope := data[itemName := item];
    AfterValues(ValueAttr, AfterConditionals(template, scope, global, host), scope, global, host)
  }

  function Clones(template: Node, itemName: string, items: seq<Value>, data: Scope, global: Scope,
                  host: Host): seq<Node>
  {
    seq(|items|, i requires 0 <= i < |items| => Clone(template, itemName, items[i], data, global, host))
  }

  /** The element stays where it is, its children replaced by the pass's result on them. */
  function KeepWith(n: Node, kids: Option<seq<Node>>): Option<seq<Node>>
    requires n.Element?
  {
    match kids
    case None => None
    case Some(cs) => Some([n.(children := cs)])
  }

  /** processEachElements(el, currentData, globalData), as the nodes that stand in el's place in
      its parent afterwards; None when the render throws.
      - A js-each value without " in " throws.
      - An array: one clone per item, in array order, inserted before el, and el removed even for
        an empty array. The walk of el's own children at lines 98-100 runs on a subtree that is
        then removed, so it matters only by throwing; the walk at lines 108-110 repeats it on
        the detached element.
      - Anything else: el stays, attribute and all, and its children are walked with the same
        context. Children are walked over a snapshot, so inserted clones are never visited. */
  function AfterEach(n: Node, data: Scope, global: Scope, host: Host): Option<seq<Node>>
    decreases n
  {
    match n
    case Text(_) => Some([n])
    case Element(_, attrs, _, _, children) =>
      if EachAttr !in attrs then KeepWith(n, AfterEachChildren(children, data, global, host))
      else
        match ParseEach(attrs[EachAttr])
        case None => None
        case Some((itemName, path)) =>
          var found := GetValueByPath(path, data, global, host);
          if found.Array? then
            if AfterEachChildren(children, data, global, host).None? then None
            else Some(Clones(n, itemName, found.items, data, global, host))
          else KeepWith(n, AfterEachChildren(children, data, global, host))
  }

  /** The loop over a snapshot of the children: the replacements, concatenated in order. */
  function AfterEachChildren(cs: seq<Node>, data: Scope, global: Scope, host: Host): Option<seq<Node>>
    decreases cs
  {
    if cs == [] then Some([])
    else
      match AfterEachChildren(cs[..|cs| - 1], data, global, host)
      case None => None
      case Some(front) =>
        match AfterEach(cs[|cs| - 1], data, global, host)
        case None => None
        case Some(last) => Some(front + last)
  }

  // ---------------------------------------------------------------------------------------
  // Finalizer (src/index.ts:118-139)

  predicate HasDirective(n: Node) {
    n.Element? && (ValueAttr in n.attrs || IfAttr in n.attrs || IfNotAttr in n.attrs || EachAttr in n.attrs)
  }

  predicate HasConditional(n: Node) {
    n.Element? && (IfAttr in n.attrs || IfNotAttr in n.attrs)
  }

  /** The elements the finalizer deletes: marked ones among those its query selects. */
  predicate Deleted(n: Node, removeJsAttributes: bool) {
    Hidden(n) && (if removeJsAttributes then HasDirective(n) else HasConditional(n))
  }

  /** The finalizer on one node, as the nodes left in its place. The querySelectorAll list is
      static and in document order, so an element is processed after its ancestors; one inside
      a deleted subtree is processed on a detached tree, which changes nothing visible. */
  function AfterFinalize(n: Node, removeJsAttributes: bool): seq<Node>
    decreases n
  {
    match n
    case Text(_) => [n]
    case Element(_, attrs, _, _, children) =>
      if Deleted(n, removeJsAttributes) then []
      else
        var kept := if removeJsAttributes then attrs - DirectiveAttrs else attrs;
        [n.(attrs := kept, children := AfterFinalizeChildren(children, removeJsAttributes))]
  }

  function AfterFinalizeChildren(cs: seq<Node>, removeJsAttributes: bool): seq<Node>
    decreases cs
  {
    if cs == [] then []
    else AfterFinalizeChildren(cs[..|cs| - 1], removeJsAttributes) + AfterFinalize(cs[|cs| - 1], removeJsAttributes)
  }

  // ---------------------------------------------------------------------------------------
  // The render (src/index.ts:113-139)

  /** renderTemplate on the body element: conditionals, values, repetition, each on the whole
      body with the root data as both contexts, then the finalizer. The result is what stands in
      the body's place; None when the render throws. */
  function Rendered(body: Node, data: Scope, removeJsAttributes: bool, host: Host): Option<seq<Node>> {
    var marked := AfterConditionals(body, data, data, host);
    var valued := AfterValues(ValueAttr, marked, data, data, host);
    match AfterEach(valued, data, data, host)
    case None => None
    case Some(nodes) => Some(AfterFinalizeChildren(nodes, removeJsAttributes))
  }
}
