/** The part of the DOM the renderer touches: elements with a tag, attributes, a class list, an
    inline display style and child nodes, and text nodes. */
module Dom {

  datatype Node =
    | Element(tag: string, attrs: map<string, string>, classes: seq<string>, display: string,
              children: seq<Node>)
    | Text(data: string)

  /** The class token the conditional pass uses to mark an element for removal. */
  const HiddenMarker := "remove-it"

  /** classList.add(token): appended when absent, otherwise nothing changes. */
  function AddClass(classes: seq<string>, token: string): (r: seq<string>)
    ensures token in r
    ensures forall c :: c != token ==> (c in r <==> c in classes)
    ensures token in classes ==> r == classes
  {
    if token in classes then classes else classes + [token]
  }

  /** classList.remove(token): every occurrence goes, the other tokens keep their order. */
  function RemoveClass(classes: seq<string>, token: string): (r: seq<string>)
    ensures token !in r
    ensures forall c :: c != token ==> (c in r <==> c in classes)
    ensures token !in classes ==> r == classes
  {
    if classes == [] then []
    else
      var rest := RemoveClass(classes[1..], token);
      assert forall c :: c in classes <==> c == classes[0] || c in classes[1..];
      if classes[0] == token then rest
      else
        assert [classes[0]] + classes[1..] == classes;
        [classes[0]] + rest
  }

  predicate Hidden(n: Node) {
    n.Element? && HiddenMarker in n.classes
  }

  predicate HasAttr(n: Node, name: string) {
    n.Element? && name in n.attrs
  }

  /** el.children holds no element. */
  predicate NoElementChildren(n: Node) {
    n.Element? && forall i :: 0 <= i < |n.children| ==> n.children[i].Text?
  }

  /** The textContent getter: the text of every descendant text node, in document order. */
  function TextContent(n: Node): string {
    match n
    case Text(s) => s
    case Element(_, _, _, _, children) => ChildrenText(children)
  }

  function ChildrenText(cs: seq<Node>): string {
    if cs == [] then "" else ChildrenText(cs[..|cs| - 1]) + TextContent(cs[|cs| - 1])
  }

  /** The textContent setter: every child goes, replaced by one text node (none for ""). */
  function SetTextContent(n: Node, s: string): (r: Node)
    requires n.Element?
    ensures r.Element? && r.tag == n.tag && r.attrs == n.attrs && r.classes == n.classes
    ensures r.display == n.display
    ensures NoElementChildren(r)
    ensures TextContent(r) == s
    ensures Height(r) == 1
  {
    if s == "" then n.(children := [])
    else
      var kids := [Text(s)];
      assert kids[..0] == [];
      assert ChildrenText(kids) == s && MaxHeight(kids) == 0;
      n.(children := kids)
  }

  /** Nesting depth: 0 for text, one more than the deepest child for an element. */
  function Height(n: Node): nat {
    match n
    case Text(_) => 0
    case Element(_, _, _, _, children) => 1 + MaxHeight(children)
  }

  function MaxHeight(cs: seq<Node>): nat {
    if cs == [] then 0
    else
      var h := Height(cs[|cs| - 1]);
      var m := MaxHeight(cs[..|cs| - 1]);
      if h < m then m else h
  }

  /** MaxHeight bounds the height of every node of the sequence. */
  lemma {:induction false} MaxHeightBounds(cs: seq<Node>, i: nat)
    requires i < |cs|
    ensures Height(cs[i]) <= MaxHeight(cs)
    decreases |cs|
  {
    if i < |cs| - 1 {
      MaxHeightBounds(cs[..|cs| - 1], i);
    }
  }

  /** Replacing every node by one no higher yields a sequence no higher. */
  lemma {:induction false} MaxHeightPointwise(a: seq<Node>, b: seq<Node>)
    requires |a| == |b|
    requires forall i :: 0 <= i < |a| ==> Height(a[i]) <= Height(b[i])
    ensures MaxHeight(a) <= MaxHeight(b)
    decreases |a|
  {
    if a != [] {
      MaxHeightPointwise(a[..|a| - 1], b[..|b| - 1]);
    }
  }

  /** The height of a concatenation is the larger of the two heights. */
  lemma {:induction false} MaxHeightAppend(a: seq<Node>, b: seq<Node>)
    ensures MaxHeight(a + b) == if MaxHeight(a) < MaxHeight(b) then MaxHeight(b) else MaxHeight(a)
    decreases |b|
  {
    if b == [] {
      assert a + b == a;
    } else {
      assert (a + b)[..|a + b| - 1] == a + b[..|b| - 1];
      MaxHeightAppend(a, b[..|b| - 1]);
    }
  }
}
