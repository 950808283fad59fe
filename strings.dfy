/** The few operations of JavaScript's String.prototype that the renderer relies on:
    startsWith, indexOf, replace with a string pattern, and split. */
module Strings {
  import opened Options

  /** s.startsWith(p) */
  predicate StartsWith(s: string, p: string) {
    |p| <= |s| && s[..|p|] == p
  }

  /** p occurs in s at index i. */
  predicate OccursAt(s: string, p: string, i: nat) {
    i <= |s| && StartsWith(s[i..], p)
  }

  predicate Contains(s: string, p: string) {
    exists i: nat | i <= |s| :: OccursAt(s, p, i)
  }

  /** s.indexOf(p), with None for -1. */
  function IndexOf(s: string, p: string): (r: Option<nat>)
    ensures r.Some? ==> OccursAt(s, p, r.value)
    ensures r.Some? ==> forall j: nat :: j < r.value ==> !OccursAt(s, p, j)
    ensures r.None? <==> !Contains(s, p)
    decreases |s|
  {
    assert s[0..] == s;
    if StartsWith(s, p) then assert OccursAt(s, p, 0); Some(0)
    else if s == [] then None
    else
      match IndexOf(s[1..], p)
      case None =>
        assert forall j: nat :: 1 <= j ==> (OccursAt(s, p, j) <==> OccursAt(s[1..], p, j - 1)) by {
          forall j: nat | 1 <= j ensures OccursAt(s, p, j) <==> OccursAt(s[1..], p, j - 1) {
            if j <= |s| { assert s[j..] == s[1..][j - 1..]; }
          }
        }
        assert forall j: nat :: !OccursAt(s, p, j) by {
          forall j: nat ensures !OccursAt(s, p, j) {
            if j >= 1 { assert !OccursAt(s[1..], p, j - 1); }
          }
        }
        None
      case Some(k) =>
        assert s[k + 1..] == s[1..][k..];
        assert forall j: nat :: 1 <= j <= k ==> s[j..] == s[1..][j - 1..];
        assert forall j: nat :: j < k + 1 ==> !OccursAt(s, p, j) by {
          forall j: nat | j < k + 1 ensures !OccursAt(s, p, j) {
            if j >= 1 { assert s[j..] == s[1..][j - 1..]; assert !OccursAt(s[1..], p, j - 1); }
          }
        }
        assert OccursAt(s, p, k + 1);
        Some(k + 1)
  }

  /** An occurrence inside a prefix is an occurrence in the whole string. */
  lemma OccursInPrefix(s: string, k: nat, p: string, j: nat)
    requires k <= |s| && OccursAt(s[..k], p, j)
    ensures OccursAt(s, p, j)
  {
    assert s[..k][j..][..|p|] == s[j..][..|p|];
  }

  /** The text before the first occurrence of p, or all of s when p does not occur: the first
      piece of s.split(p). */
  function BeforeFirst(s: string, p: string): (r: string)
    ensures StartsWith(s, r)
    ensures !Contains(r, p) || p == ""
    ensures Contains(s, p) ==> StartsWith(s[|r|..], p)
    ensures !Contains(s, p) ==> r == s
    ensures forall j: nat :: j < |r| ==> !OccursAt(s, p, j)
    ensures Contains(s, p) ==> IndexOf(s, p) == Some(|r|)
  {
    match IndexOf(s, p)
    case None => s
    case Some(i) =>
      var r := s[..i];
      assert !Contains(r, p) || p == "" by {
        if p != "" {
          forall j: nat | j <= |r| ensures !OccursAt(r, p, j) {
            if OccursAt(r, p, j) { OccursInPrefix(s, i, p, j); }
          }
        }
      }
      assert s[|r|..] == s[i..];
      r
  }

  /** When p occurs, s is the text before its first occurrence, then p, then the rest. */
  lemma AroundFirst(s: string, p: string)
    requires Contains(s, p)
    ensures |BeforeFirst(s, p)| + |p| <= |s|
    ensures s == BeforeFirst(s, p) + p + s[|BeforeFirst(s, p)| + |p|..]
  {
    var item := BeforeFirst(s, p);
    assert s[|item|..][..|p|] == p;
  }

  /** Gluing a separator-free prefix of the rest onto item + p. */
  lemma GluePieces(s: string, item: string, p: string, after: string, name: string)
    requires s == item + p + after
    requires StartsWith(after, name)
    requires after[|name|..] == [] || StartsWith(after[|name|..], p)
    ensures StartsWith(s, item + p + name)
    ensures var t := item + p + name; s[|t|..] == [] || StartsWith(s[|t|..], p)
  {
    var t := item + p + name;
    assert s[..|t|] == item + p + after[..|name|];
    assert s[|t|..] == after[|name|..];
  }

  /** The first two pieces of s.split(p) when p occurs: neither contains p, s starts with
      them joined by p, and what follows is empty or starts with p. */
  lemma FirstTwoPieces(s: string, p: string)
    requires Contains(s, p) && p != ""
    ensures var item := BeforeFirst(s, p);
      && |item| + |p| <= |s|
      && var after := s[|item| + |p|..];
         var name := BeforeFirst(after, p);
         var t := item + p + name;
         && !Contains(item, p) && !Contains(name, p)
         && StartsWith(s, t)
         && (s[|t|..] == [] || StartsWith(s[|t|..], p))
  {
    AroundFirst(s, p);
    var item := BeforeFirst(s, p);
    var after := s[|item| + |p|..];
    var name := BeforeFirst(after, p);
    assert after[|name|..] == [] || StartsWith(after[|name|..], p) by {
      if !Contains(after, p) { assert name == after; }
    }
    GluePieces(s, item, p, after, name);
  }

  /** s.replace(p, q) for a string pattern p: only the first occurrence is replaced. */
  function ReplaceFirst(s: string, p: string, q: string): string {
    match IndexOf(s, p)
    case None => s
    case Some(i) => s[..i] + q + s[i + |p|..]
  }

  /** For a string that starts with p, replacing the first p by nothing strips the prefix. */
  lemma ReplaceFirstOfPrefix(s: string, p: string)
    requires StartsWith(s, p)
    ensures ReplaceFirst(s, p, "") == s[|p|..]
  {
    assert OccursAt(s, p, 0) by { assert s[0..] == s; }
    assert IndexOf(s, p) == Some(0);
  }

  /** parts.join(sep) */
  function Join(parts: seq<string>, sep: char): string {
    if |parts| == 0 then ""
    else if |parts| == 1 then parts[0]
    else parts[0] + [sep] + Join(parts[1..], sep)
  }

  /** s.split(sep) for a one-character separator: every piece, including empty ones at
      either end or between two adjacent separators. */
  function Split(s: string, sep: char): (r: seq<string>)
    ensures |r| >= 1
    ensures forall i :: 0 <= i < |r| ==> sep !in r[i]
    ensures Join(r, sep) == s
    decreases |s|
  {
    if s == [] then [""]
    else
      var rest := Split(s[1..], sep);
      if s[0] == sep then
        assert Join([""] + rest, sep) == [sep] + Join(rest, sep) by {
          assert ([""] + rest)[1..] == rest;
        }
        [""] + rest
      else
        var r := [[s[0]] + rest[0]] + rest[1..];
        assert r[1..] == rest[1..];
        assert Join(r, sep) == s by {
          if |rest| == 1 {
          } else {
            assert Join(rest, sep) == rest[0] + [sep] + Join(rest[1..], sep);
          }
        }
        r
  }

  /** Splitting a join of separator-free pieces gives the pieces back: Split and Join are
      inverse to each other in both directions. */
  lemma {:induction false} SplitJoin(parts: seq<string>, sep: char)
    requires |parts| >= 1
    requires forall i :: 0 <= i < |parts| ==> sep !in parts[i]
    ensures Split(Join(parts, sep), sep) == parts
    decreases |Join(parts, sep)|, |parts|, |parts[0]|
  {
    var p := parts[0];
    if |parts| == 1 {
      SplitOfSeparatorFree(p, sep);
    } else if p == [] {
      var s := Join(parts, sep);
      assert s == [sep] + Join(parts[1..], sep);
      assert s[1..] == Join(parts[1..], sep);
      SplitJoin(parts[1..], sep);
      assert [""] + parts[1..] == parts;
    } else {
      var s := Join(parts, sep);
      var shorter := [p[1..]] + parts[1..];
      assert shorter[1..] == parts[1..];
      assert forall i :: 0 <= i < |shorter| ==> sep !in shorter[i] by {
        forall i | 0 <= i < |shorter| ensures sep !in shorter[i] {
          if i == 0 { assert forall c :: c in p[1..] ==> c in p; } else { assert shorter[i] == parts[i]; }
        }
      }
      assert Join(shorter, sep) == p[1..] + [sep] + Join(parts[1..], sep);
      assert s == p + [sep] + Join(parts[1..], sep);
      assert s[1..] == Join(shorter, sep);
      assert s[0] == p[0];
      SplitJoin(shorter, sep);
      assert [p[0]] + p[1..] == p;
      assert [[p[0]] + p[1..]] + parts[1..] == parts;
    }
  }

  lemma {:induction false} SplitOfSeparatorFree(s: string, sep: char)
    requires sep !in s
    ensures Split(s, sep) == [s]
    decreases |s|
  {
    if s != [] {
      assert forall c :: c in s[1..] ==> c in s;
      SplitOfSeparatorFree(s[1..], sep);
    }
  }
}
