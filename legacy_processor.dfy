/** processElement of index.js (lines 31-69) as the source performs it: four loops, one per
    directive, each replacing the root's children by what its pass leaves, and a data-each step
    that clones, processes and splices. Each method is proved to compute the function of the
    same step in module LegacyDirectives. */
module LegacyProcessor {
  import opened Options
  import opened JsValues
  import opened Expressions
  import opened PathResolver
  import opened Dom
  import opened Directives
  import opened DirectiveProcessor
  import opened LegacyDirectives

  /** `querySelectorAll('[data-if]').forEach(el => el.style.display = show ? '' : 'none')`
      on one subtree of the root, the subtree's own root included (index.js:40-51); negate is
      true for data-if-not. */
  method ApplyConditional(attr: string, negate: bool, el: Node, data: Scope, global: Scope, host: Host)
    returns (r: Node)
    ensures r == AfterDisplay(attr, negate, el, data, global, host)
    decreases el
  {
    if el.Text? {
      return el;
    }
    var display := el.display;
    if attr in el.attrs {
      var show := Holds(el.attrs[attr], data, global, host);
      if negate {
        show := !show;
      }
      display := if show then "" else "none";
    }
    var kids: seq<Node> := [];
    for i := 0 to |el.children|
      invariant |kids| == i
      invariant forall j :: 0 <= j < i ==> kids[j] == AfterDisplay(attr, negate, el.children[j], data, global, host)
    {
      var child := ApplyConditional(attr, negate, el.children[i], data, global, host);
      kids := kids + [child];
    }
    r := el.(display := display, children := kids);
  }

  /** A failure in the prefix of a data-each walk is a failure of the walk. */
  lemma {:induction false} LegacyWalkFailsFromPrefix(cs: seq<Node>, i: nat, data: Scope, global: Scope, host: Host)
    requires i <= |cs|
    requires LegacyEachChildren(cs[..i], data, global, host).None?
    ensures LegacyEachChildren(cs, data, global, host).None?
    decreases |cs| - i
  {
    if i < |cs| {
      assert cs[..i + 1][..i] == cs[..i];
      LegacyWalkFailsFromPrefix(cs, i + 1, data, global, host);
    } else {
      assert cs[..i] == cs;
    }
  }

  /** A failure while processing a prefix of the items is a failure of the whole forEach. */
  lemma {:induction false} ClonesFailFromPrefix(template: Node, itemName: string, items: seq<Value>, k: nat,
                                                data: Scope, global: Scope, host: Host)
    requires template.Element? && k <= |items|
    requires LegacyClones(template, itemName, items[..k], data, global, host).None?
    ensures LegacyClones(template, itemName, items, data, global, host).None?
    decreases |items| - k
  {
    if k < |items| {
      assert items[..k + 1][..k] == items[..k];
      ClonesFailFromPrefix(template, itemName, items, k + 1, data, global, host);
    } else {
      assert items[..k] == items;
    }
  }

  /** `rootElement.querySelectorAll('[data-value]').forEach(...)` (index.js:33-37), over the
      root's children in document order. */
  method ValuesOverList(cs: seq<Node>, data: Scope, global: Scope, host: Host) returns (r: seq<Node>)
    ensures |r| == |cs|
    ensures forall j :: 0 <= j < |cs| ==> r[j] == AfterValues(LegacyValueAttr, cs[j], data, global, host)
  {
    r := [];
    for i := 0 to |cs|
      invariant |r| == i
      invariant forall j :: 0 <= j < i ==> r[j] == AfterValues(LegacyValueAttr, cs[j], data, global, host)
    {
      var child := ProcessDynamicValues(LegacyValueAttr, cs[i], data, global, host);
      r := r + [child];
    }
  }

  /** `rootElement.querySelectorAll('[data-if]').forEach(...)` (index.js:40-44), and with
      negate the data-if-not list (index.js:47-51), over the root's children. */
  method DisplayOverList(attr: string, negate: bool, cs: seq<Node>, data: Scope, global: Scope, host: Host)
    returns (r: seq<Node>)
    ensures |r| == |cs|
    ensures forall j :: 0 <= j < |cs| ==> r[j] == AfterDisplay(attr, negate, cs[j], data, global, host)
  {
    r := [];
    for i := 0 to |cs|
      invariant |r| == i
      invariant forall j :: 0 <= j < i ==> r[j] == AfterDisplay(attr, negate, cs[j], data, global, host)
    {
      var child := ApplyConditional(attr, negate, cs[i], data, global, host);
      r := r + [child];
    }
  }

  /** processElement(root, currentData, globalData): the four lists in order, each pass
      applied to the root's descendants; None when it throws. */
  method ProcessElement(root: Node, data: Scope, global: Scope, host: Host) returns (r: Option<Node>)
    requires root.Element?
    ensures r == LegacyProcessed(root, data, global, host)
    decreases Height(root), 0, 0
  {
    var cs := root.children;
    var valued := ValuesOverList(cs, data, global, host);
    var shown := DisplayOverList(LegacyIfAttr, false, valued, data, global, host);
    var decided := DisplayOverList(LegacyIfNotAttr, true, shown, data, global, host);
    assert decided == PreparedAll(cs, data, global, host);
    var walked := ProcessEachOverList(decided, data, global, host);
    if walked.None? {
      return None;
    }
    r := Some(root.(children := walked.value));
  }

  /** The data-each list over a sequence of siblings, in document order. */
  method ProcessEachOverList(snapshot: seq<Node>, data: Scope, global: Scope, host: Host)
    returns (r: Option<seq<Node>>)
    ensures r == LegacyEachChildren(snapshot, data, global, host)
    decreases MaxHeight(snapshot), 2, |snapshot|
  {
    var out: seq<Node> := [];
    for i := 0 to |snapshot|
      invariant LegacyEachChildren(snapshot[..i], data, global, host) == Some(out)
    {
      assert snapshot[..i + 1][..i] == snapshot[..i];
      MaxHeightBounds(snapshot, i);
      var replaced := ProcessEach(snapshot[i], data, global, host);
      if replaced.None? {
        LegacyWalkFailsFromPrefix(snapshot, i + 1, data, global, host);
        return None;
      }
      out := out + replaced.value;
    }
    assert snapshot[..|snapshot|] == snapshot;
    r := Some(out);
  }

  /** The data-each step on one element (index.js:54-68), returning what stands in its place. */
  method ProcessEach(el: Node, data: Scope, global: Scope, host: Host) returns (r: Option<seq<Node>>)
    ensures r == LegacyEach(el, data, global, host)
    decreases Height(el), 1, 0
  {
    if el.Text? {
      return Some([el]);
    }
    if LegacyEachAttr in el.attrs {
      var parsed := ParseEach(el.attrs[LegacyEachAttr]);
      if parsed.None? {
        return None;
      }
      var (itemName, path) := parsed.value;
      var found := GetValueByPath(path, data, global, host);
      if found.Array? {
        var clones := CloneAndProcess(el, itemName, found.items, data, global, host);
        if clones.None? {
          return None;
        }
        // el.remove(); its descendants are still in the list
        var walked := ProcessEachOverList(el.children, data, global, host);
        if walked.None? {
          return None;
        }
        return clones;
      }
    }
    var walked := ProcessEachOverList(el.children, data, global, host);
    if walked.None? {
      return None;
    }
    r := Some([el.(children := walked.value)]);
  }

  /** The loop at index.js:60-65: a fresh copy of the template per item, processed with the
      extended context and inserted before the template; the copies in insertion order. */
  method CloneAndProcess(template: Node, itemName: string, items: seq<Value>, data: Scope,
                         global: Scope, host: Host)
    returns (r: Option<seq<Node>>)
    requires template.Element?
    ensures r == LegacyClones(template, itemName, items, data, global, host)
    decreases Height(template), 0, |items| + 1
  {
    var out: seq<Node> := [];
    for k := 0 to |items|
      invariant LegacyClones(template, itemName, items[..k], data, global, host) == Some(out)
    {
      assert items[..k + 1][..k] == items[..k];
      var newContext := data[itemName := items[k]];
      var clone := ProcessElement(template, newContext, global, host);
      if clone.None? {
        ClonesFailFromPrefix(template, itemName, items, k + 1, data, global, host);
        return None;
      }
      // parent.insertBefore(clone, el)
      out := out + [clone.value];
    }
    assert items[..|items|] == items;
    r := Some(out);
  }

  /** renderTemplate of index.js (lines 27-75) on the document body: processElement with the
      root data as both contexts. */
  method RenderLegacyTemplate(body: Node, data: Scope, host: Host) returns (r: Option<Node>)
    requires body.Element?
    ensures r == LegacyProcessed(body, data, data, host)
  {
    r := ProcessElement(body, data, data, host);
  }
}
