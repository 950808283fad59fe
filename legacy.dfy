/** The older engine in index.js, as functions on trees. There `processElement(root,
    currentData, globalData)` runs four passes over the descendants of root (never root itself),
    each over a list selected up front: data-value, then data-if, then data-if-not, then
    data-each. Conditionals write the inline display style instead of marking elements, and
    every clone of a data-each template goes through the whole of processElement with the
    extended context. LegacyProcessor holds the methods that perform the same passes. */
module LegacyDirectives {
  import opened Options
  import opened JsValues
  import opened PathResolver
  import opened Expressions
  import opened Dom
  import opened Directives

  const LegacyValueAttr := "data-value"
  const LegacyIfAttr := "data-if"
  const LegacyIfNotAttr := "data-if-not"
  const LegacyEachAttr := "data-each"

  /** `el.style.display = show ? '' : 'none'` */
  function DisplayFor(show: bool): (r: string)
    ensures r == "none" <==> !show
    ensures show ==> r == ""
  {
    if show then "" else "none"
  }

  /** Two trees that differ at most in their inline display. */
  predicate SameButDisplay(a: Node, b: Node)
    decreases a
  {
    match a
    case Text(_) => a == b
    case Element(tag, attrs, classes, _, children) =>
      && b.Element? && b.tag == tag && b.attrs == attrs && b.classes == classes
      && |b.children| == |children|
      && forall i :: 0 <= i < |children| ==> SameButDisplay(children[i], b.children[i])
  }

  /** One conditional pass over a subtree: every element carrying attr gets the display its
      condition gives (negated for data-if-not, index.js:47-51), every other node keeps its own;
      nothing is added, removed or moved. */
  function AfterDisplay(attr: string, negate: bool, n: Node, data: Scope, global: Scope, host: Host): (r: Node)
    ensures SameButDisplay(n, r)
    ensures Height(r) == Height(n)
    ensures r.Element? && attr !in n.attrs ==> r.display == n.display
    ensures r.Element? && attr in n.attrs ==>
      r.display == DisplayFor(Holds(n.attrs[attr], data, global, host) != negate)
    decreases n
  {
    match n
    case Text(_) => n
    case Element(_, attrs, _, display, children) =>
      var kids := seq(|children|, i requires 0 <= i < |children| => AfterDisplay(attr, negate, children[i], data, global, host));
      MaxHeightPointwise(kids, children);
      MaxHeightPointwise(children, kids);
      n.(display := if attr in attrs then DisplayFor(Holds(attrs[attr], data, global, host) != negate) else display,
         children := kids)
  }

  /** The first three passes of processElement on one child subtree of the root. */
  function Prepared(n: Node, data: Scope, global: Scope, host: Host): (r: Node)
    ensures Height(r) <= Height(n)
  {
    var valued := AfterValues(LegacyValueAttr, n, data, global, host);
    var shown := AfterDisplay(LegacyIfAttr, false, valued, data, global, host);
    AfterDisplay(LegacyIfNotAttr, true, shown, data, global, host)
  }

  function PreparedAll(cs: seq<Node>, data: Scope, global: Scope, host: Host): (r: seq<Node>)
    ensures |r| == |cs|
    ensures MaxHeight(r) <= MaxHeight(cs)
  {
    var r := seq(|cs|, i requires 0 <= i < |cs| => Prepared(cs[i], data, global, host));
    MaxHeightPointwise(r, cs);
    r
  }

  /** processElement(root, currentData, globalData) (index.js:31-69), as the updated root; None
      when it throws. The root's own attributes are never consulted. */
  function LegacyProcessed(root: Node, data: Scope, global: Scope, host: Host): (r: Option<Node>)
    requires root.Element?
    ensures r.Some? ==> r.value.Element? && r.value == root.(children := r.value.children)
    decreases Height(root), 0, 0
  {
    var decided := PreparedAll(root.children, data, global, host);
    match LegacyEachChildren(decided, data, global, host)
    case None => None
    case Some(kids) => Some(root.(children := kids))
  }

  /** The data-each step (index.js:54-68) on one element, as the nodes that stand in its place
      afterwards; None when it throws.
      - A value without " in " leaves arrayName undefined, and getValueByPath throws.
      - An array: one clone of the element per item, in order, each run through processElement
        with `{...currentData, [itemName]: item}` and inserted before the element, which is
        then removed, even for an empty array. The element's descendants are still in the list
        and are visited on the detached element, which matters only by throwing.
      - Anything else: the element stays, attribute and all; its descendants come next. */
  function LegacyEach(n: Node, data: Scope, global: Scope, host: Host): Option<seq<Node>>
    decreases Height(n), 1, 0
  {
    match n
    case Text(_) => Some([n])
    case Element(_, attrs, _, _, children) =>
      if LegacyEachAttr !in attrs then KeepWith(n, LegacyEachChildren(children, data, global, host))
      else
        match ParseEach(attrs[LegacyEachAttr])
        case None => None
        case Some((itemName, path)) =>
          var found := GetValueByPath(path, data, global, host);
          if found.Array? then
            match LegacyClones(n, itemName, found.items, data, global, host)
            case None => None
            case Some(clones) =>
              if LegacyEachChildren(children, data, global, host).None? then None else Some(clones)
          else KeepWith(n, LegacyEachChildren(children, data, global, host))
  }

  /** The data-each list in document order over a sequence of siblings: what stands in their
      place, concatenated in order. */
  function LegacyEachChildren(cs: seq<Node>, data: Scope, global: Scope, host: Host): Option<seq<Node>>
    decreases MaxHeight(cs), 2, |cs|
  {
    if cs == [] then Some([])
    else
      match LegacyEachChildren(cs[..|cs| - 1], data, global, host)
      case None => None
      case Some(front) =>
        match LegacyEach(cs[|cs| - 1], data, global, host)
        case None => None
        case Some(last) => Some(front + last)
  }

  /** `array.forEach(item => { ... processElement(clone, newContext, globalData) ... })`
      (index.js:60-65): the processed clones in array order. */
  function LegacyClones(template: Node, itemName: string, items: seq<Value>, data: Scope,
                        global: Scope, host: Host): Option<seq<Node>>
    requires template.Element?
    decreases Height(template), 0, |items| + 1
  {
    if items == [] then Some([])
    else
      match LegacyClones(template, itemName, items[..|items| - 1], data, global, host)
      case None => None
      case Some(front) =>
        match LegacyProcessed(template, data[itemName := items[|items| - 1]], global, host)
        case None => None
        case Some(clone) => Some(front + [clone])
  }
}
