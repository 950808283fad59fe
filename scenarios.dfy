/** Whole renders of small templates, worked out end to end. */
module Scenarios {
  import opened Options
  import opened Strings
  import opened JsValues
  import opened PathResolver
  import opened Dom
  import opened Directives
  import opened DirectiveProperties
  import opened FinalizerProperties
  import opened NestedEach

  function Elem(tag: string, attrs: map<string, string>, children: seq<Node>): Node {
    Element(tag, attrs, [], "", children)
  }

  /** Split of a two-segment path. */
  lemma SplitTwo(a: string, b: string)
    requires '.' !in a && '.' !in b
    ensures Split(a + "." + b, '.') == [a, b]
  {
    assert Join([a, b], '.') == a + "." + b by {
      assert [a, b][1..] == [b];
    }
    SplitJoin([a, b], '.');
  }

  function Heading(attrs: map<string, string>): Node {
    Elem("h1", attrs, [Text("placeholder")])
  }

  /** A path whose first two characters are not "gl" is local. */
  lemma NotGlobal(s: string)
    requires |s| >= 2 && (s[0] != 'g' || s[1] != 'l')
    ensures !StartsWith(s, GlobalPrefix)
  {
    assert GlobalPrefix[0] == 'g' && GlobalPrefix[1] == 'l';
  }

  /** A two-segment local path: two steps of the walk from the context. */
  lemma LocalTwoSegments(a: string, b: string, obj: Scope, global: Scope, host: Host)
    requires '.' !in a && '.' !in b && !StartsWith(a + "." + b, GlobalPrefix)
    ensures GetValueByPath(a + "." + b, obj, global, host) == Step(Step(Object(obj), a, host), b, host)
  {
    SplitTwo(a, b);
    assert [a, b][1..] == [b];
    var x := Step(Object(obj), a, host);
    assert Walk(Object(obj), [a, b], host) == Walk(x, [b], host);
    assert [b][1..] == [];
    assert Walk(x, [b], host) == Walk(Step(x, b, host), [], host);
  }

  /** `user.name` is a local path of two segments. */
  lemma UserNamePath(obj: Scope, global: Scope, host: Host)
    ensures GetValueByPath("user.name", obj, global, host) == Step(Step(Object(obj), "user", host), "name", host)
  {
    assert "user.name" == "user" + "." + "name";
    NotGlobal("user.name");
    LocalTwoSegments("user", "name", obj, global, host);
  }

  lemma HeadingPathUnresolved(host: Host)
    ensures GetValueByPath("user.name", map[], map[], host) == Undefined
  {
    UserNamePath(map[], map[], host);
  }

  lemma HeadingValuesUnchanged(host: Host)
    ensures AfterValues(ValueAttr, Elem("body", map[], [Heading(map[ValueAttr := "user.name"])]), map[], map[], host)
         == Elem("body", map[], [Heading(map[ValueAttr := "user.name"])])
  {
    var h1 := Heading(map[ValueAttr := "user.name"]);
    HeadingPathUnresolved(host);
    PlaceholderSurvives(ValueAttr, h1, map[], map[], host);
    var r := AfterValues(ValueAttr, Elem("body", map[], [h1]), map[], map[], host);
    assert r.children == [h1];
  }

  lemma HeadingFinalized()
    ensures AfterFinalizeChildren([Elem("body", map[], [Heading(map[ValueAttr := "user.name"])])], true)
         == [Elem("body", map[], [Heading(map[])])]
  {
    var h1 := Heading(map[ValueAttr := "user.name"]);
    assert map[ValueAttr := "user.name"] - DirectiveAttrs == map[];
    assert AfterFinalizeChildren([Text("placeholder")], true) == [Text("placeholder")];
    assert AfterFinalizeChildren([h1], true) == [Heading(map[])];
  }

  /** `<h1 js-value="user.name">placeholder</h1>` with empty data keeps its placeholder; the
      removing finalizer drops the attribute. */
  lemma PlaceholderKept(host: Host)
    ensures Rendered(Elem("body", map[], [Heading(map[ValueAttr := "user.name"])]), map[], true, host)
         == Some([Elem("body", map[], [Heading(map[])])])
  {
    var body := Elem("body", map[], [Heading(map[ValueAttr := "user.name"])]);
    assert NoConditionals(Heading(map[ValueAttr := "user.name"]));
    ConditionalFreeUnchanged(body, map[], map[], host);
    HeadingValuesUnchanged(host);
    assert NoLoops(body) by {
      assert NoLoops(Heading(map[ValueAttr := "user.name"]));
    }
    LoopFreeUnchanged(body, map[], map[], host);
    HeadingFinalized();
  }

  function UserAnn(): Scope {
    map["user" := Object(map["name" := Str("Ann")])]
  }

  lemma AnnPath(data: Scope, host: Host)
    requires data == UserAnn()
    ensures GetValueByPath("user.name", data, data, host) == Str("Ann")
  {
    UserNamePath(data, data, host);
  }

  lemma AnnHeading(h1: Node, data: Scope, host: Host)
    requires h1 == Heading(map[ValueAttr := "user.name"]) && data == UserAnn()
    requires host.toText(Str("Ann")) == "Ann"
    ensures AfterValues(ValueAttr, h1, data, data, host) == Elem("h1", map[ValueAttr := "user.name"], [Text("Ann")])
  {
    AnnPath(data, host);
    assert ValueReplaces(ValueAttr, h1, data, data, host);
  }

  lemma HeadingValuesResolved(host: Host)
    requires host.toText(Str("Ann")) == "Ann"
    ensures AfterValues(ValueAttr, Elem("body", map[], [Heading(map[ValueAttr := "user.name"])]), UserAnn(), UserAnn(), host)
         == Elem("body", map[], [Elem("h1", map[ValueAttr := "user.name"], [Text("Ann")])])
  {
    var h1 := Heading(map[ValueAttr := "user.name"]);
    AnnHeading(h1, UserAnn(), host);
    var b := AfterValues(ValueAttr, Elem("body", map[], [h1]), UserAnn(), UserAnn(), host);
    assert b.children == [AfterValues(ValueAttr, h1, UserAnn(), UserAnn(), host)];
  }

  lemma ResolvedHeadingFinalized()
    ensures AfterFinalizeChildren([Elem("body", map[], [Elem("h1", map[ValueAttr := "user.name"], [Text("Ann")])])], true)
         == [Elem("body", map[], [Elem("h1", map[], [Text("Ann")])])]
  {
    var h1 := Elem("h1", map[ValueAttr := "user.name"], [Text("Ann")]);
    assert map[ValueAttr := "user.name"] - DirectiveAttrs == map[];
    assert AfterFinalizeChildren([Text("Ann")], true) == [Text("Ann")];
    assert AfterFinalizeChildren([h1], true) == [Elem("h1", map[], [Text("Ann")])];
  }

  /** The same heading with `{ user: { name: "Ann" } }` shows "Ann". */
  lemma HeadingShowsName(host: Host)
    requires host.toText(Str("Ann")) == "Ann"
    ensures Rendered(Elem("body", map[], [Heading(map[ValueAttr := "user.name"])]), UserAnn(), true, host)
         == Some([Elem("body", map[], [Elem("h1", map[], [Text("Ann")])])])
  {
    var body := Elem("body", map[], [Heading(map[ValueAttr := "user.name"])]);
    assert NoConditionals(Heading(map[ValueAttr := "user.name"]));
    ConditionalFreeUnchanged(body, UserAnn(), UserAnn(), host);
    HeadingValuesResolved(host);
    var valued := Elem("body", map[], [Elem("h1", map[ValueAttr := "user.name"], [Text("Ann")])]);
    assert NoLoops(valued) by {
      assert NoLoops(Elem("h1", map[ValueAttr := "user.name"], [Text("Ann")]));
    }
    LoopFreeUnchanged(valued, UserAnn(), UserAnn(), host);
    ResolvedHeadingFinalized();
  }

  // `<tr js-each="u in users"><td js-value="u.name"></td></tr>`

  function Cell(): Node {
    Elem("td", map[ValueAttr := "u.name"], [])
  }

  function Row(): Node {
    Elem("tr", map[EachAttr := "u in users"], [Cell()])
  }

  function Named(name: string): Value {
    Object(map["name" := Str(name)])
  }

  function Users(): Scope {
    map["users" := Array([Named("A"), Named("B")])]
  }

  lemma CellPath(scope: Scope, host: Host)
    ensures GetValueByPath("u.name", scope, Users(), host)
         == Step(Step(Object(scope), "u", host), "name", host)
  {
    assert "u.name" == "u" + "." + "name";
    NotGlobal("u.name");
    LocalTwoSegments("u", "name", scope, Users(), host);
  }

  lemma CellUnchanged(cell: Node, users: Scope, host: Host)
    requires cell == Cell() && users == Users()
    ensures AfterValues(ValueAttr, cell, users, users, host) == cell
  {
    CellPath(users, host);
    PlaceholderSurvives(ValueAttr, cell, users, users, host);
  }

  /** A row whose cell the value pass leaves alone is left alone too. */
  lemma RowUnchanged(row: Node, cell: Node, users: Scope, host: Host)
    requires row == Row() && cell == Cell()
    requires AfterValues(ValueAttr, cell, users, users, host) == cell
    ensures AfterValues(ValueAttr, row, users, users, host) == row
  {
    assert row.children == [cell];
    var r := AfterValues(ValueAttr, row, users, users, host);
    assert r.children == [AfterValues(ValueAttr, cell, users, users, host)];
  }

  lemma RowValuesUnchanged(host: Host)
    ensures AfterValues(ValueAttr, Elem("body", map[], [Row()]), Users(), Users(), host) == Elem("body", map[], [Row()])
  {
    CellUnchanged(Cell(), Users(), host);
    RowUnchanged(Row(), Cell(), Users(), host);
    var b := AfterValues(ValueAttr, Elem("body", map[], [Row()]), Users(), Users(), host);
    assert b.children == [AfterValues(ValueAttr, Row(), Users(), Users(), host)];
  }

  lemma CellValue(name: string, host: Host)
    requires name != "" && host.toText(Str(name)) == name
    ensures AfterValues(ValueAttr, Cell(), Users()["u" := Named(name)], Users(), host)
         == Elem("td", map[ValueAttr := "u.name"], [Text(name)])
  {
    var scope := Users()["u" := Named(name)];
    CellPath(scope, host);
    assert Step(Object(scope), "u", host) == Named(name);
    assert Step(Named(name), "name", host) == Str(name);
    assert ValueReplaces(ValueAttr, Cell(), scope, Users(), host);
  }

  /** The clone for one user: the cell shows the name. */
  lemma RowClone(name: string, host: Host)
    requires name != "" && host.toText(Str(name)) == name
    ensures Clone(Row(), "u", Named(name), Users(), Users(), host)
         == FilledRow(name, map[EachAttr := "u in users"], map[ValueAttr := "u.name"])
  {
    var scope := Users()["u" := Named(name)];
    assert NoConditionals(Row()) by {
      assert NoConditionals(Cell());
    }
    ConditionalFreeUnchanged(Row(), scope, Users(), host);
    CellValue(name, host);
    var r := AfterValues(ValueAttr, Row(), scope, Users(), host);
    assert r.children == [AfterValues(ValueAttr, Cell(), scope, Users(), host)];
  }

  lemma RowParsed()
    ensures ParseEach("u in users") == Some(("u", "users"))
  {
    assert "u in users" == "u" + EachSeparator + "users";
    ParseSimpleEach("u", "users");
  }

  lemma UsersResolved(host: Host)
    ensures GetValueByPath("users", Users(), Users(), host) == Array([Named("A"), Named("B")])
  {
    SplitOfSeparatorFree("users", '.');
    assert !StartsWith("users", GlobalPrefix) by {
      assert "users"[0] != GlobalPrefix[0];
    }
    assert ["users"][1..] == [];
  }

  /** An array of two gives exactly its two clones, in order. */
  lemma {:induction false} TwoClones(n: Node, itemName: string, path: string, a: Value, b: Value,
                                     data: Scope, host: Host)
    requires n.Element? && EachAttr in n.attrs
    requires ParseEach(n.attrs[EachAttr]) == Some((itemName, path))
    requires GetValueByPath(path, data, data, host) == Array([a, b])
    requires !MalformedEachIn(EachAttr, n.children)
    ensures AfterEach(n, data, data, host)
         == Some([Clone(n, itemName, a, data, data, host), Clone(n, itemName, b, data, data, host)])
  {
    EachExpandsArray(n, itemName, path, data, data, host);
    var r := AfterEach(n, data, data, host).value;
    assert [a, b][0] == a && [a, b][1] == b;
    assert r == [r[0], r[1]];
  }

  lemma RowCloned(row: Node, users: Scope, host: Host)
    requires row == Row() && users == Users()
    ensures AfterEach(row, users, users, host)
         == Some([Clone(row, "u", Named("A"), users, users, host),
                  Clone(row, "u", Named("B"), users, users, host)])
  {
    RowEachParsed(row);
    UsersFound(users, host);
    RowCellsWellFormed(row);
    TwoClones(row, "u", "users", Named("A"), Named("B"), users, host);
  }

  lemma RowEachParsed(row: Node)
    requires row == Row()
    ensures row.Element? && EachAttr in row.attrs
    ensures ParseEach(row.attrs[EachAttr]) == Some(("u", "users"))
  {
    RowParsed();
  }

  lemma UsersFound(users: Scope, host: Host)
    requires users == Users()
    ensures GetValueByPath("users", users, users, host) == Array([Named("A"), Named("B")])
  {
    UsersResolved(host);
  }

  lemma RowCellsWellFormed(row: Node)
    requires row == Row()
    ensures !MalformedEachIn(EachAttr, row.children)
  {
    assert !MalformedEach(EachAttr, Cell());
  }

  lemma RowExpanded(host: Host)
    requires host.toText(Str("A")) == "A" && host.toText(Str("B")) == "B"
    ensures AfterEach(Row(), Users(), Users(), host)
         == Some([FilledRow("A", map[EachAttr := "u in users"], map[ValueAttr := "u.name"]),
                  FilledRow("B", map[EachAttr := "u in users"], map[ValueAttr := "u.name"])])
  {
    RowCloned(Row(), Users(), host);
    RowClone("A", host);
    RowClone("B", host);
  }

  lemma RowsExpanded(host: Host)
    requires host.toText(Str("A")) == "A" && host.toText(Str("B")) == "B"
    ensures AfterEach(Elem("body", map[], [Row()]), Users(), Users(), host)
         == Some([Elem("body", map[], [
                    FilledRow("A", map[EachAttr := "u in users"], map[ValueAttr := "u.name"]),
                    FilledRow("B", map[EachAttr := "u in users"], map[ValueAttr := "u.name"])])])
  {
    RowExpanded(host);
    assert [Row()][..0] == [];
    var rows := [FilledRow("A", map[EachAttr := "u in users"], map[ValueAttr := "u.name"]),
                 FilledRow("B", map[EachAttr := "u in users"], map[ValueAttr := "u.name"])];
    assert AfterEachChildren([Row()], Users(), Users(), host) == Some([] + rows);
    assert [] + rows == rows;
  }

  function FilledRow(name: string, trAttrs: map<string, string>, tdAttrs: map<string, string>): Node {
    Elem("tr", trAttrs, [Elem("td", tdAttrs, [Text(name)])])
  }

  lemma FilledRowFinalized(name: string)
    ensures AfterFinalize(FilledRow(name, map[EachAttr := "u in users"], map[ValueAttr := "u.name"]), true)
         == [FilledRow(name, map[], map[])]
  {
    assert map[ValueAttr := "u.name"] - DirectiveAttrs == map[];
    assert map[EachAttr := "u in users"] - DirectiveAttrs == map[];
    assert [Text(name)][..0] == [];
    assert AfterFinalizeChildren([Text(name)], true) == [Text(name)];
    var td := Elem("td", map[ValueAttr := "u.name"], [Text(name)]);
    assert [td][..0] == [];
    assert AfterFinalizeChildren([td], true) == [Elem("td", map[], [Text(name)])];
  }

  lemma RowsFinalized()
    ensures AfterFinalizeChildren([Elem("body", map[], [
                    FilledRow("A", map[EachAttr := "u in users"], map[ValueAttr := "u.name"]),
                    FilledRow("B", map[EachAttr := "u in users"], map[ValueAttr := "u.name"])])], true)
         == [Elem("body", map[], [FilledRow("A", map[], map[]), FilledRow("B", map[], map[])])]
  {
    var rowA := FilledRow("A", map[EachAttr := "u in users"], map[ValueAttr := "u.name"]);
    var rowB := FilledRow("B", map[EachAttr := "u in users"], map[ValueAttr := "u.name"]);
    FilledRowFinalized("A");
    FilledRowFinalized("B");
    assert [rowA, rowB][..1] == [rowA];
    assert [rowA][..0] == [];
    assert AfterFinalizeChildren([rowA, rowB], true) == [FilledRow("A", map[], map[]), FilledRow("B", map[], map[])];
    var body := Elem("body", map[], [rowA, rowB]);
    assert [body][..0] == [];
    assert body.attrs - DirectiveAttrs == map[];
  }

  /** Two users give two rows, cell texts "A" then "B", and no js-each row is left. */
  lemma RowPerUser(host: Host)
    requires host.toText(Str("A")) == "A" && host.toText(Str("B")) == "B"
    ensures Rendered(Elem("body", map[], [Row()]), Users(), true, host)
         == Some([Elem("body", map[], [FilledRow("A", map[], map[]), FilledRow("B", map[], map[])])])
  {
    var body := Elem("body", map[], [Row()]);
    assert NoConditionals(body) by {
      assert NoConditionals(Cell());
      assert NoConditionals(Row());
    }
    ConditionalFreeUnchanged(body, Users(), Users(), host);
    RowValuesUnchanged(host);
    RowsExpanded(host);
    RowsFinalized();
  }
}
