/** getValueByPath (src/index.ts:9-15, and the same function at index.js:4-10): a dotted path
    walked through nested data, with a `global.` prefix that escapes to the root data. */
module PathResolver {
  import opened Strings
  import opened JsValues

  const GlobalPrefix := "global."

  /** One step of the reduce: `acc && acc[part]`. A falsy accumulator is returned as it is. */
  function Step(acc: Value, part: string, host: Host): Value {
    if Truthy(acc) then Get(acc, part, host) else acc
  }

  /** `parts.reduce((acc, part) => acc && acc[part], acc)` */
  function Walk(acc: Value, parts: seq<string>, host: Host): Value
    decreases |parts|
  {
    if parts == [] then acc else Walk(Step(acc, parts[0], host), parts[1..], host)
  }

  /** getValueByPath(path, obj, globalData) */
  function GetValueByPath(path: string, obj: Scope, global: Scope, host: Host): Value {
    if StartsWith(path, GlobalPrefix) then
      Walk(Object(global), Split(ReplaceFirst(path, GlobalPrefix, ""), '.'), host)
    else
      Walk(Object(obj), Split(path, '.'), host)
  }

  /** A falsy accumulator absorbs every later segment. */
  lemma {:induction false} FalsyAbsorbs(acc: Value, parts: seq<string>, host: Host)
    requires !Truthy(acc)
    ensures Walk(acc, parts, host) == acc
    decreases |parts|
  {
    if parts != [] {
      FalsyAbsorbs(acc, parts[1..], host);
    }
  }

  /** Walking a concatenation of paths walks the first, then the second from where it ended. */
  lemma {:induction false} WalkAppend(acc: Value, p: seq<string>, q: seq<string>, host: Host)
    ensures Walk(acc, p + q, host) == Walk(Walk(acc, p, host), q, host)
    decreases |p|
  {
    if p == [] {
      assert p + q == q;
    } else {
      assert (p + q)[1..] == p[1..] + q;
      WalkAppend(Step(acc, p[0], host), p[1..], q, host);
    }
  }

  /** Falsy short-circuit: once the walk of the first k segments is falsy, the whole walk returns
      that same falsy value (which may be null, false, 0 or "" rather than undefined). */
  lemma FalsyShortCircuit(acc: Value, parts: seq<string>, k: nat, host: Host)
    requires k <= |parts|
    requires !Truthy(Walk(acc, parts[..k], host))
    ensures Walk(acc, parts, host) == Walk(acc, parts[..k], host)
  {
    assert parts == parts[..k] + parts[k..];
    WalkAppend(acc, parts[..k], parts[k..], host);
    FalsyAbsorbs(Walk(acc, parts[..k], host), parts[k..], host);
  }

  /** A truthy result means every intermediate accumulator of the walk was truthy. */
  lemma TruthyResultTruthyAllTheWay(acc: Value, parts: seq<string>, k: nat, host: Host)
    requires k <= |parts|
    requires Truthy(Walk(acc, parts, host))
    ensures Truthy(Walk(acc, parts[..k], host))
  {
    if !Truthy(Walk(acc, parts[..k], host)) {
      FalsyShortCircuit(acc, parts, k, host);
    }
  }

  /** A segment naming no property of the object it is applied to makes the whole path
      undefined, however many segments follow. */
  lemma MissingKeyIsUndefined(fields: map<string, Value>, parts: seq<string>, host: Host)
    requires |parts| >= 1 && parts[0] !in fields
    ensures Walk(Object(fields), parts, host) == Undefined
  {
    FalsyAbsorbs(Undefined, parts[1..], host);
  }

  /** Every segment of parts names an own property of the data object reached so far, and the
      last one holds v. */
  predicate PresentAlong(acc: Value, parts: seq<string>, v: Value)
    decreases |parts|
  {
    if parts == [] then acc == v
    else acc.Object? && parts[0] in acc.fields && PresentAlong(acc.fields[parts[0]], parts[1..], v)
  }

  /** Walking through data objects whose keys are all present reaches the nested value, at
      any depth. */
  lemma {:induction false} NestedObjects(acc: Value, parts: seq<string>, v: Value, host: Host)
    requires PresentAlong(acc, parts, v)
    ensures Walk(acc, parts, host) == v
    decreases |parts|
  {
    if parts != [] {
      assert Step(acc, parts[0], host) == acc.fields[parts[0]];
      NestedObjects(acc.fields[parts[0]], parts[1..], v, host);
    }
  }

  /** The dotted path of present keys names the nested value: from the current context for a
      path without the `global.` prefix, and from the root data behind that prefix. */
  lemma NestedPath(parts: seq<string>, obj: Scope, global: Scope, v: Value, host: Host)
    requires |parts| >= 1 && forall i :: 0 <= i < |parts| ==> '.' !in parts[i]
    ensures !StartsWith(Join(parts, '.'), GlobalPrefix) && PresentAlong(Object(obj), parts, v) ==>
      GetValueByPath(Join(parts, '.'), obj, global, host) == v
    ensures PresentAlong(Object(global), parts, v) ==>
      GetValueByPath(GlobalPrefix + Join(parts, '.'), obj, global, host) == v
  {
    var path := Join(parts, '.');
    SplitJoin(parts, '.');
    if PresentAlong(Object(obj), parts, v) {
      NestedObjects(Object(obj), parts, v, host);
    }
    if PresentAlong(Object(global), parts, v) {
      var full := GlobalPrefix + path;
      assert StartsWith(full, GlobalPrefix);
      assert full[|GlobalPrefix|..] == path;
      GlobalEscape(full, obj, obj, global, host);
      NestedObjects(Object(global), parts, v, host);
    }
  }

  /** Global escape: a `global.` path ignores the current context and walks the rest of the path,
      split on dots, from the root data. */
  lemma GlobalEscape(path: string, obj1: Scope, obj2: Scope, global: Scope, host: Host)
    requires StartsWith(path, GlobalPrefix)
    ensures GetValueByPath(path, obj1, global, host) == GetValueByPath(path, obj2, global, host)
    ensures GetValueByPath(path, obj1, global, host)
         == Walk(Object(global), Split(path[|GlobalPrefix|..], '.'), host)
  {
    ReplaceFirstOfPrefix(path, GlobalPrefix);
  }

  /** Any other path is resolved against the current context alone. */
  lemma LocalPath(path: string, obj: Scope, global1: Scope, global2: Scope, host: Host)
    requires !StartsWith(path, GlobalPrefix)
    ensures GetValueByPath(path, obj, global1, host) == GetValueByPath(path, obj, global2, host)
    ensures GetValueByPath(path, obj, global1, host) == Walk(Object(obj), Split(path, '.'), host)
  {
  }
}
