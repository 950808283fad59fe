/** evaluateExpression (src/index.ts:18-29, and the same function at index.js:13-24): every
    identifier-shaped token of the expression is replaced by the JSON text of the value it names
    (or by `false` when that value is undefined), the result is run by the host as the body
    `return <expression>`, and an exception makes the condition false. */
module Expressions {
  import opened Options
  import opened Strings
  import opened JsValues
  import opened PathResolver

  /** [a-zA-Z_] */
  predicate IsIdentStart(c: char) {
    ('a' <= c <= 'z') || ('A' <= c <= 'Z') || c == '_'
  }

  /** [a-zA-Z0-9_.] */
  predicate IsIdentPart(c: char) {
    IsIdentStart(c) || ('0' <= c <= '9') || c == '.'
  }

  /** A string the regular expression [a-zA-Z_][a-zA-Z0-9_.]* matches in full. */
  predicate IsIdentifier(t: string) {
    |t| >= 1 && IsIdentStart(t[0]) && forall i :: 0 <= i < |t| ==> IsIdentPart(t[i])
  }

  /** Length of the longest prefix of s made of [a-zA-Z0-9_.] characters. */
  function RunLength(s: string): (n: nat)
    ensures n <= |s|
    ensures forall i :: 0 <= i < n ==> IsIdentPart(s[i])
    ensures n < |s| ==> !IsIdentPart(s[n])
    decreases |s|
  {
    if s == [] || !IsIdentPart(s[0]) then 0 else 1 + RunLength(s[1..])
  }

  /** A piece of the expression as the global regular-expression replace sees it: a maximal
      match, or a single character between matches. */
  datatype Piece = Token(name: string) | Other(c: char)

  function PieceText(p: Piece): string {
    match p
    case Token(t) => t
    case Other(c) => [c]
  }

  function Flatten(ps: seq<Piece>): string {
    if ps == [] then "" else PieceText(ps[0]) + Flatten(ps[1..])
  }

  /** The scan of `expression.replace(/([a-zA-Z_][a-zA-Z0-9_.]*)/g, ...)`: left to right, a
      match starts at an identifier-start character and is as long as possible; any other
      character is passed over. */
  function Tokenize(s: string): seq<Piece>
    decreases |s|
  {
    if s == [] then []
    else if IsIdentStart(s[0]) then
      var n := RunLength(s);
      [Token(s[..n])] + Tokenize(s[n..])
    else [Other(s[0])] + Tokenize(s[1..])
  }

  /** What makes a sequence of pieces a result of the scan: every token is an identifier, every
      other character cannot start one, and no token is followed by a character that would have
      extended it. */
  predicate WellFormed(ps: seq<Piece>) {
    && (forall i :: 0 <= i < |ps| && ps[i].Token? ==> IsIdentifier(ps[i].name))
    && (forall i :: 0 <= i < |ps| && ps[i].Other? ==> !IsIdentStart(ps[i].c))
    && (forall i :: 0 <= i < |ps| - 1 && ps[i].Token? ==> ps[i + 1].Other? && !IsIdentPart(ps[i + 1].c))
  }

  /** The scan loses and reorders nothing: the pieces spell the expression. */
  lemma FlattenCons(p: Piece, rest: seq<Piece>)
    ensures Flatten([p] + rest) == PieceText(p) + Flatten(rest)
  {
    assert ([p] + rest)[1..] == rest;
  }

  lemma {:induction false} TokenizeRoundTrip(s: string)
    ensures Flatten(Tokenize(s)) == s
    decreases |s|
  {
    if s != [] {
      if IsIdentStart(s[0]) {
        var n := RunLength(s);
        assert Tokenize(s) == [Token(s[..n])] + Tokenize(s[n..]);
        TokenizeRoundTrip(s[n..]);
        FlattenCons(Token(s[..n]), Tokenize(s[n..]));
        assert s[..n] + s[n..] == s;
      } else {
        assert Tokenize(s) == [Other(s[0])] + Tokenize(s[1..]);
        TokenizeRoundTrip(s[1..]);
        FlattenCons(Other(s[0]), Tokenize(s[1..]));
        assert [s[0]] + s[1..] == s;
      }
    }
  }

  lemma {:induction false} TokenizeStartsWith(s: string)
    requires s != []
    ensures Tokenize(s) != []
    ensures IsIdentStart(s[0]) ==> Tokenize(s)[0].Token?
    ensures !IsIdentStart(s[0]) ==> Tokenize(s)[0] == Other(s[0])
  {
  }

  /** Every scan is well formed. */
  lemma {:induction false} TokenizeWellFormed(s: string)
    ensures WellFormed(Tokenize(s))
    decreases |s|
  {
    if s != [] {
      var ps := Tokenize(s);
      if IsIdentStart(s[0]) {
        var n := RunLength(s);
        var rest := Tokenize(s[n..]);
        TokenizeWellFormed(s[n..]);
        assert ps == [Token(s[..n])] + rest;
        assert IsIdentifier(s[..n]);
        if s[n..] != [] {
          TokenizeStartsWith(s[n..]);
          assert s[n..][0] == s[n];
        }
        assert forall i :: 1 <= i < |ps| ==> ps[i] == rest[i - 1];
      } else {
        var rest := Tokenize(s[1..]);
        TokenizeWellFormed(s[1..]);
        assert ps == [Other(s[0])] + rest;
        assert forall i :: 1 <= i < |ps| ==> ps[i] == rest[i - 1];
      }
    }
  }

  lemma {:induction false} RunLengthOfToken(t: string, rest: string)
    requires forall i :: 0 <= i < |t| ==> IsIdentPart(t[i])
    requires rest == [] || !IsIdentPart(rest[0])
    ensures RunLength(t + rest) == |t|
    decreases |t|
  {
    if t != [] {
      assert (t + rest)[1..] == t[1..] + rest;
      RunLengthOfToken(t[1..], rest);
    }
  }

  /** The scan is the only well-formed split of an expression into pieces, so WellFormed is a
      complete description of what the regular expression matches. */
  lemma {:induction false} TokenizeUnique(ps: seq<Piece>)
    requires WellFormed(ps)
    ensures Tokenize(Flatten(ps)) == ps
    decreases |ps|
  {
    if ps != [] {
      var tail := ps[1..];
      assert WellFormed(tail) by {
        assert forall i :: 0 <= i < |tail| ==> tail[i] == ps[i + 1];
      }
      TokenizeUnique(tail);
      var s := Flatten(ps);
      var rest := Flatten(tail);
      match ps[0]
      case Other(c) =>
        assert s == [c] + rest;
        assert s[1..] == rest;
      case Token(t) =>
        assert s == t + rest;
        if tail != [] {
          assert rest == [tail[0].c] + Flatten(tail[1..]);
        }
        RunLengthOfToken(t, rest);
        assert s[..|t|] == t;
        assert s[|t|..] == rest;
    }
  }

  lemma {:induction false} FlattenAppend(a: seq<Piece>, b: seq<Piece>)
    ensures Flatten(a + b) == Flatten(a) + Flatten(b)
    decreases |a|
  {
    if a == [] {
      assert a + b == b;
    } else {
      assert (a + b)[1..] == a[1..] + b;
      FlattenAppend(a[1..], b);
    }
  }

  lemma {:induction false} TokenizeLastPiece(s: string)
    requires s != [] && !IsIdentPart(s[|s| - 1])
    ensures Tokenize(s) != [] && Tokenize(s)[|Tokenize(s)| - 1].Other?
    decreases |s|
  {
    if IsIdentStart(s[0]) {
      var n := RunLength(s);
      assert n < |s|;
      TokenizeLastPiece(s[n..]);
    } else if |s| > 1 {
      TokenizeLastPiece(s[1..]);
    }
  }

  lemma WellFormedAppend(a: seq<Piece>, b: seq<Piece>)
    requires WellFormed(a) && WellFormed(b)
    requires a == [] || a[|a| - 1].Other?
    ensures WellFormed(a + b)
  {
    var ps := a + b;
    forall i | 0 <= i < |ps| && ps[i].Token? ensures IsIdentifier(ps[i].name) {
      if i < |a| { assert ps[i] == a[i]; } else { assert ps[i] == b[i - |a|]; }
    }
    forall i | 0 <= i < |ps| && ps[i].Other? ensures !IsIdentStart(ps[i].c) {
      if i < |a| { assert ps[i] == a[i]; } else { assert ps[i] == b[i - |a|]; }
    }
    forall i | 0 <= i < |ps| - 1 && ps[i].Token? ensures ps[i + 1].Other? && !IsIdentPart(ps[i + 1].c) {
      if i < |a| - 1 {
        assert ps[i] == a[i] && ps[i + 1] == a[i + 1];
      } else if i >= |a| {
        assert ps[i] == b[i - |a|] && ps[i + 1] == b[i + 1 - |a|];
      }
    }
  }

  /** A character that cannot continue an identifier closes every token before it: scanning
      the two sides of such a boundary separately gives the scan of the whole. */
  lemma TokenizeAppend(a: string, b: string)
    requires a == [] || !IsIdentPart(a[|a| - 1])
    ensures Tokenize(a + b) == Tokenize(a) + Tokenize(b)
  {
    var pa, pb := Tokenize(a), Tokenize(b);
    TokenizeRoundTrip(a);
    TokenizeRoundTrip(b);
    if a == [] {
      assert a + b == b;
      assert pa + pb == pb;
    } else {
      TokenizeWellFormed(a);
      TokenizeWellFormed(b);
      TokenizeLastPiece(a);
      WellFormedAppend(pa, pb);
      FlattenAppend(pa, pb);
      TokenizeUnique(pa + pb);
    }
  }

  /** The text a token is replaced with: the JSON text of the value it names, or `false` when
      that value is undefined. */
  function Replacement(token: string, data: Scope, global: Scope, host: Host): string {
    var v := GetValueByPath(token, data, global, host);
    if v == Undefined then "false" else host.stringify(v)
  }

  function SubstitutePieces(ps: seq<Piece>, data: Scope, global: Scope, host: Host): string {
    if ps == [] then ""
    else
      var head := match ps[0]
        case Token(t) => Replacement(t, data, global, host)
        case Other(c) => [c];
      head + SubstitutePieces(ps[1..], data, global, host)
  }

  /** The substitution step of evaluateExpression (src/index.ts:20-23). */
  function Substitute(expr: string, data: Scope, global: Scope, host: Host): string {
    SubstitutePieces(Tokenize(expr), data, global, host)
  }

  lemma {:induction false} SubstitutePiecesAppend(a: seq<Piece>, b: seq<Piece>, data: Scope, global: Scope,
                                                  host: Host)
    ensures SubstitutePieces(a + b, data, global, host)
         == SubstitutePieces(a, data, global, host) + SubstitutePieces(b, data, global, host)
    decreases |a|
  {
    if a == [] {
      assert a + b == b;
    } else {
      assert (a + b)[1..] == a[1..] + b;
      SubstitutePiecesAppend(a[1..], b, data, global, host);
    }
  }

  /** Over any well-formed split of an expression, the substitution replaces exactly the tokens
      and copies every other character, in order. */
  lemma SubstituteOfPieces(ps: seq<Piece>, data: Scope, global: Scope, host: Host)
    requires WellFormed(ps)
    ensures Substitute(Flatten(ps), data, global, host) == SubstitutePieces(ps, data, global, host)
  {
    TokenizeUnique(ps);
  }

  /** Substitution distributes over a boundary no token crosses. */
  lemma SubstituteAppend(a: string, b: string, data: Scope, global: Scope, host: Host)
    requires a == [] || !IsIdentPart(a[|a| - 1])
    ensures Substitute(a + b, data, global, host)
         == Substitute(a, data, global, host) + Substitute(b, data, global, host)
  {
    TokenizeAppend(a, b);
    SubstitutePiecesAppend(Tokenize(a), Tokenize(b), data, global, host);
  }

  /** An expression with no identifier-start character comes through unchanged. */
  lemma {:induction false} SubstituteWithoutIdentifiers(s: string, data: Scope, global: Scope, host: Host)
    requires forall i :: 0 <= i < |s| ==> !IsIdentStart(s[i])
    ensures Substitute(s, data, global, host) == s
    decreases |s|
  {
    if s != [] {
      SubstituteWithoutIdentifiers(s[1..], data, global, host);
      assert Tokenize(s) == [Other(s[0])] + Tokenize(s[1..]);
      assert ([Other(s[0])] + Tokenize(s[1..]))[1..] == Tokenize(s[1..]);
      assert [s[0]] + s[1..] == s;
    }
  }

  /** A whole identifier is one token and is replaced as a whole, dots included. */
  lemma SubstituteIdentifier(t: string, data: Scope, global: Scope, host: Host)
    requires IsIdentifier(t)
    ensures Substitute(t, data, global, host) == Replacement(t, data, global, host)
  {
    var ps := [Token(t)];
    assert Flatten(ps) == t by { assert ps[1..] == []; }
    SubstituteOfPieces(ps, data, global, host);
    assert ps[1..] == [];
  }

  /** Literal keywords are looked up like any other token: `true` becomes `false` when the data
      has no property named "true". */
  lemma KeywordIsLookedUp(data: Scope, global: Scope, host: Host)
    requires "true" !in data
    ensures Substitute("true", data, global, host) == "false"
  {
    assert IsIdentifier("true");
    SubstituteIdentifier("true", data, global, host);
    assert !StartsWith("true", GlobalPrefix);
    SplitOfSeparatorFree("true", '.');
    MissingKeyIsUndefined(data, ["true"], host);
  }

  /** Quotes do not protect a word: the word inside a string literal is a token too. */
  lemma QuotedWordIsSubstituted(t: string, data: Scope, global: Scope, host: Host)
    requires IsIdentifier(t)
    ensures Substitute("'" + t + "'", data, global, host)
         == "'" + Replacement(t, data, global, host) + "'"
  {
    var last := [Other('\'')];
    var mid := [Token(t)] + last;
    var ps := [Other('\'')] + mid;
    assert last[1..] == [] && mid[1..] == last && ps[1..] == mid;
    assert Flatten(last) == "'";
    assert Flatten(mid) == t + "'";
    assert Flatten(ps) == "'" + t + "'";
    SubstituteOfPieces(ps, data, global, host);
    assert SubstitutePieces(last, data, global, host) == "'";
    assert SubstitutePieces(mid, data, global, host) == Replacement(t, data, global, host) + "'";
  }

  /** evaluateExpression: the host's result, or false when the host throws. */
  function EvaluateExpression(expr: string, data: Scope, global: Scope, host: Host): Value {
    match host.run("return " + Substitute(expr, data, global, host))
    case None => Bool(false)
    case Some(v) => v
  }

  /** How the callers use the result: `if (show)` tests its truthiness. */
  predicate Holds(expr: string, data: Scope, global: Scope, host: Host) {
    Truthy(EvaluateExpression(expr, data, global, host))
  }

  /** The host threw while building or running the substituted condition. */
  predicate Throws(expr: string, data: Scope, global: Scope, host: Host) {
    host.run("return " + Substitute(expr, data, global, host)).None?
  }
}
