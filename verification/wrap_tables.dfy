/** `src/plugins/rehype-wrap-tables.js`: every table is put inside a
    `<div class="table-wrapper">` unless its parent already is one. The plugin only replaces a
    child in its parent's list, so the walk is written out as a map over each list of
    children, with the parent's properties at hand. */
module WrapTables {
  import opened Strings
  import opened Hast

  const WRAPPER_CLASS: string := "table-wrapper"

  predicate IsTable(n: Node) {
    n.Element? && n.tagName == "table"
  }

  /** `Array.isArray(className) && className.includes('table-wrapper')` on the parent's
      properties; the root has no properties, and a string `className` does not count. */
  predicate AlreadyWrapped(parentProps: Option<map<string, Value>>) {
    parentProps.Some? && ListIncludes(Prop(parentProps.value, "className"), WRAPPER_CLASS)
  }

  /** The `div` that takes the table's place. */
  function Wrapper(t: Node): (r: Node)
    ensures r.Element? && r.tagName == "div" && r.children == [t]
    ensures AlreadyWrapped(Some(r.properties))
    ensures !IsTable(r)
  {
    var r := Element("div", map["className" := List([Str(WRAPPER_CLASS)])], [t]);
    assert Prop(r.properties, "className") == Some(List([Str(WRAPPER_CLASS)]));
    r
  }

  /** The tree after the plugin: a node keeps its kind, tag and properties, and its children
      are visited with it as their parent. */
  function Visit(n: Node): (r: Node)
    ensures r.Root? == n.Root? && r.Element? == n.Element?
    ensures n.Element? ==> r.tagName == n.tagName && r.properties == n.properties
    ensures n.Element? || n.Root? ==> |r.children| == |n.children|
    ensures n.Text? || n.Comment? ==> r == n
    ensures IsTable(r) == IsTable(n)
    decreases n, 1
  {
    match n
    case Root(cs) => Root(VisitChildren(None, cs))
    case Element(tag, props, cs) => Element(tag, props, VisitChildren(Some(props), cs))
    case Text(_) => n
    case Comment(_) => n
  }

  /** `parent.children[index] = wrapper` for each table child of a parent that is not a
      wrapper; the visit then goes on inside the table itself. */
  function VisitChildren(parentProps: Option<map<string, Value>>, cs: seq<Node>): (r: seq<Node>)
    ensures |r| == |cs|
    ensures forall i :: 0 <= i < |cs| && IsTable(cs[i]) && !AlreadyWrapped(parentProps) ==>
              r[i] == Wrapper(Visit(cs[i]))
    ensures forall i :: 0 <= i < |cs| && !(IsTable(cs[i]) && !AlreadyWrapped(parentProps)) ==>
              r[i] == Visit(cs[i])
    decreases cs, 0
  {
    if |cs| == 0 then []
    else
      var c := cs[0];
      var v := if IsTable(c) && !AlreadyWrapped(parentProps) then Wrapper(Visit(c)) else Visit(c);
      [v] + VisitChildren(parentProps, cs[1..])
  }

  /** Every table in the tree has a wrapper for a parent. */
  predicate TablesWrapped(n: Node)
    decreases n, 1
  {
    match n
    case Root(cs) => ChildrenWrapped(None, cs)
    case Element(_, props, cs) => ChildrenWrapped(Some(props), cs)
    case Text(_) => true
    case Comment(_) => true
  }

  predicate ChildrenWrapped(parentProps: Option<map<string, Value>>, cs: seq<Node>)
    decreases cs, 0
  {
    forall i :: 0 <= i < |cs| ==> (IsTable(cs[i]) ==> AlreadyWrapped(parentProps)) && TablesWrapped(cs[i])
  }

  /** After the plugin every table sits inside a wrapper. */
  lemma {:induction false} VisitWrapsTables(n: Node)
    ensures TablesWrapped(Visit(n))
    decreases n, 1
  {
    match n
    case Root(cs) => VisitChildrenWrapsTables(None, cs);
    case Element(_, props, cs) => VisitChildrenWrapsTables(Some(props), cs);
    case Text(_) =>
    case Comment(_) =>
  }

  lemma {:induction false} VisitChildrenWrapsTables(parentProps: Option<map<string, Value>>, cs: seq<Node>)
    ensures ChildrenWrapped(parentProps, VisitChildren(parentProps, cs))
    decreases cs, 0
  {
    var r := VisitChildren(parentProps, cs);
    forall i | 0 <= i < |cs|
      ensures (IsTable(r[i]) ==> AlreadyWrapped(parentProps)) && TablesWrapped(r[i])
    {
      VisitWrapsTables(cs[i]);
      if IsTable(cs[i]) && !AlreadyWrapped(parentProps) {
        var w := Wrapper(Visit(cs[i]));
        assert r[i] == w;
        assert ChildrenWrapped(Some(w.properties), w.children);
      }
    }
  }

  /** A tree whose tables are all wrapped already is left as it is. */
  lemma {:induction false} VisitKeepsWrappedTree(n: Node)
    requires TablesWrapped(n)
    ensures Visit(n) == n
    decreases n, 1
  {
    match n
    case Root(cs) => VisitChildrenKeepsWrapped(None, cs);
    case Element(_, props, cs) => VisitChildrenKeepsWrapped(Some(props), cs);
    case Text(_) =>
    case Comment(_) =>
  }

  lemma {:induction false} VisitChildrenKeepsWrapped(parentProps: Option<map<string, Value>>, cs: seq<Node>)
    requires ChildrenWrapped(parentProps, cs)
    ensures VisitChildren(parentProps, cs) == cs
    decreases cs, 0
  {
    var r := VisitChildren(parentProps, cs);
    forall i | 0 <= i < |cs| ensures r[i] == cs[i] {
      VisitKeepsWrappedTree(cs[i]);
    }
  }

  /** Running the plugin a second time changes nothing. */
  lemma VisitIdempotent(n: Node)
    ensures Visit(Visit(n)) == Visit(n)
  {
    VisitWrapsTables(n);
    VisitKeepsWrappedTree(Visit(n));
  }

  /** Removing the wrapper the plugin added gives back the visited table: nothing of a
      table is lost. */
  lemma WrapperHoldsTable(parentProps: Option<map<string, Value>>, cs: seq<Node>, i: nat)
    requires i < |cs| && IsTable(cs[i]) && !AlreadyWrapped(parentProps)
    ensures var w := VisitChildren(parentProps, cs)[i];
            w.Element? && w.tagName == "div" && |w.children| == 1
            && IsTable(w.children[0]) && w.children[0].properties == cs[i].properties
  {
  }
}
