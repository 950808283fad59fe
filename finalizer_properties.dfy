/** What the finalizer of renderTemplate (src/index.ts:118-139) guarantees, in both modes. */
module FinalizerProperties {
  import opened Dom
  import opened Directives

  /** No element of the tree carries a js-* directive attribute. */
  predicate NoDirectives(n: Node)
    decreases n
  {
    n.Text? || (!HasDirective(n) && forall i :: 0 <= i < |n.children| ==> NoDirectives(n.children[i]))
  }

  predicate NoDirectivesIn(cs: seq<Node>) {
    forall i :: 0 <= i < |cs| ==> NoDirectives(cs[i])
  }

  /** No element of the tree is one the finalizer deletes in the given mode. */
  predicate NothingDeleted(n: Node, removeJsAttributes: bool)
    decreases n
  {
    && !Deleted(n, removeJsAttributes)
    && (n.Element? ==> forall i :: 0 <= i < |n.children| ==> NothingDeleted(n.children[i], removeJsAttributes))
  }

  predicate NothingDeletedIn(cs: seq<Node>, removeJsAttributes: bool) {
    forall i :: 0 <= i < |cs| ==> NothingDeleted(cs[i], removeJsAttributes)
  }

  /** Every marked element of the tree that carries a directive carries a conditional. */
  predicate MarkedOnlyByConditionals(n: Node)
    decreases n
  {
    && (Hidden(n) && HasDirective(n) ==> HasConditional(n))
    && (n.Element? ==> forall i :: 0 <= i < |n.children| ==> MarkedOnlyByConditionals(n.children[i]))
  }

  predicate MarkedOnlyByConditionalsIn(cs: seq<Node>) {
    forall i :: 0 <= i < |cs| ==> MarkedOnlyByConditionals(cs[i])
  }

  /** The attribute cleanup of the removing mode, applied to a whole tree. */
  function Strip(n: Node): (r: Node)
    decreases n
  {
    match n
    case Text(_) => n
    case Element(_, attrs, _, _, children) =>
      n.(attrs := attrs - DirectiveAttrs, children := StripAll(children))
  }

  function StripAll(cs: seq<Node>): (r: seq<Node>)
    decreases cs
  {
    seq(|cs|, i requires 0 <= i < |cs| => Strip(cs[i]))
  }

  lemma StripAllAppend(a: seq<Node>, b: seq<Node>)
    ensures StripAll(a + b) == StripAll(a) + StripAll(b)
  {
  }

  lemma {:induction false} FinalizeAppend(a: seq<Node>, b: seq<Node>, removeJsAttributes: bool)
    ensures AfterFinalizeChildren(a + b, removeJsAttributes)
         == AfterFinalizeChildren(a, removeJsAttributes) + AfterFinalizeChildren(b, removeJsAttributes)
    decreases |b|
  {
    if b == [] {
      assert a + b == a;
    } else {
      var b' := b[..|b| - 1];
      assert (a + b)[..|a + b| - 1] == a + b';
      assert (a + b)[|a + b| - 1] == b[|b| - 1];
      FinalizeAppend(a, b', removeJsAttributes);
    }
  }

  /** With removeJsAttributes, no js-* attribute is left anywhere in the output. */
  lemma {:induction false} FinalizeLeavesNoDirectives(cs: seq<Node>)
    ensures NoDirectivesIn(AfterFinalizeChildren(cs, true))
    decreases cs
  {
    if cs != [] {
      var front := cs[..|cs| - 1];
      var last := cs[|cs| - 1];
      FinalizeLeavesNoDirectives(front);
      if last.Element? && !Deleted(last, true) {
        FinalizeLeavesNoDirectives(last.children);
        var m := AfterFinalize(last, true)[0];
        assert !HasDirective(m);
        assert NoDirectives(m);
      }
      var x := AfterFinalizeChildren(front, true);
      var y := AfterFinalize(last, true);
      assert forall i :: 0 <= i < |x + y| ==> NoDirectives((x + y)[i]) by {
        forall i | 0 <= i < |x + y| ensures NoDirectives((x + y)[i]) {
          if i >= |x| { assert (x + y)[i] == y[i - |x|]; }
        }
      }
    }
  }

  /** In either mode, nothing the finalizer deletes is left in its output: no marked element
      with a directive (removing mode), no marked js-if or js-if-not element (keeping mode). */
  lemma {:induction false} FinalizeLeavesNothingToDelete(cs: seq<Node>, removeJsAttributes: bool)
    ensures NothingDeletedIn(AfterFinalizeChildren(cs, removeJsAttributes), removeJsAttributes)
    decreases cs
  {
    if cs != [] {
      var front := cs[..|cs| - 1];
      var last := cs[|cs| - 1];
      FinalizeLeavesNothingToDelete(front, removeJsAttributes);
      if last.Element? && !Deleted(last, removeJsAttributes) {
        FinalizeLeavesNothingToDelete(last.children, removeJsAttributes);
        var m := AfterFinalize(last, removeJsAttributes)[0];
        assert !Deleted(m, removeJsAttributes);
        assert NothingDeleted(m, removeJsAttributes);
      }
      var x := AfterFinalizeChildren(front, removeJsAttributes);
      var y := AfterFinalize(last, removeJsAttributes);
      assert forall i :: 0 <= i < |x + y| ==> NothingDeleted((x + y)[i], removeJsAttributes) by {
        forall i | 0 <= i < |x + y| ensures NothingDeleted((x + y)[i], removeJsAttributes) {
          if i >= |x| { assert (x + y)[i] == y[i - |x|]; }
        }
      }
    }
  }

  /** In the keeping mode, a tree with nothing to delete comes out exactly as it went in: every
      surviving element keeps all its attributes. */
  lemma {:induction false} KeepingModeChangesNothingElse(cs: seq<Node>)
    requires NothingDeletedIn(cs, false)
    ensures AfterFinalizeChildren(cs, false) == cs
    decreases cs
  {
    if cs != [] {
      var front := cs[..|cs| - 1];
      var last := cs[|cs| - 1];
      KeepingModeChangesNothingElse(front);
      if last.Element? {
        KeepingModeChangesNothingElse(last.children);
      }
      assert front + [last] == cs;
    }
  }

  /** The finalizer is idempotent in either mode: a second run deletes and strips nothing more. */
  lemma {:induction false} FinalizeIdempotent(cs: seq<Node>, removeJsAttributes: bool)
    ensures AfterFinalizeChildren(AfterFinalizeChildren(cs, removeJsAttributes), removeJsAttributes)
         == AfterFinalizeChildren(cs, removeJsAttributes)
    decreases cs, 1
  {
    if cs != [] {
      var front := cs[..|cs| - 1];
      var last := cs[|cs| - 1];
      FinalizeIdempotent(front, removeJsAttributes);
      FinalizeNodeIdempotent(last, removeJsAttributes);
      FinalizeAppend(AfterFinalizeChildren(front, removeJsAttributes), AfterFinalize(last, removeJsAttributes),
                     removeJsAttributes);
    }
  }

  lemma {:induction false} FinalizeNodeIdempotent(n: Node, removeJsAttributes: bool)
    ensures AfterFinalizeChildren(AfterFinalize(n, removeJsAttributes), removeJsAttributes)
         == AfterFinalize(n, removeJsAttributes)
    decreases n, 0
  {
    var y := AfterFinalize(n, removeJsAttributes);
    if n.Text? {
      assert y[..0] == [];
    } else if Deleted(n, removeJsAttributes) {
      assert y == [];
    } else {
      FinalizeIdempotent(n.children, removeJsAttributes);
      var m := y[0];
      assert !Deleted(m, removeJsAttributes);
      assert (if removeJsAttributes then m.attrs - DirectiveAttrs else m.attrs) == m.attrs;
      assert y[..0] == [];
      assert AfterFinalizeChildren(y, removeJsAttributes) == AfterFinalize(m, removeJsAttributes);
    }
  }

  /** When every marked element with a directive also has a conditional, the two modes delete the
      same elements, and the removing mode's output is the keeping mode's output with the
      directive attributes stripped. */
  lemma {:induction false} ModesAgree(cs: seq<Node>)
    requires MarkedOnlyByConditionalsIn(cs)
    ensures AfterFinalizeChildren(cs, true) == StripAll(AfterFinalizeChildren(cs, false))
    decreases cs
  {
    if cs != [] {
      var front := cs[..|cs| - 1];
      var last := cs[|cs| - 1];
      ModesAgree(front);
      StripAllAppend(AfterFinalizeChildren(front, false), AfterFinalize(last, false));
      if last.Element? {
        assert Deleted(last, true) == Deleted(last, false);
        if !Deleted(last, false) {
          ModesAgree(last.children);
        }
      }
    }
  }
}
