/** The part of the HTML syntax tree (hast) that the rehype plugins read and write. */
module Hast {
  import opened Strings

  /** A property value: a string, a list of values such as `className` or `rel`, or anything
      else (a number, a boolean). */
  datatype Value = Str(s: string) | List(items: seq<Value>) | Other

  /** `properties` is a map from property names to values; the root has none. */
  datatype Node =
    | Root(children: seq<Node>)
    | Element(tagName: string, properties: map<string, Value>, children: seq<Node>)
    | Text(value: string)
    | Comment(value: string)

  /** `properties?.[name]`, `None` when absent. */
  function Prop(props: map<string, Value>, name: string): (r: Option<Value>)
    ensures r.Some? <==> name in props
    ensures r.Some? ==> r.value == props[name]
  {
    if name in props then Some(props[name]) else None
  }

  /** A list of strings as a property value. */
  function Strs(xs: seq<string>): (r: Value)
    ensures r.List? && |r.items| == |xs|
    ensures forall i :: 0 <= i < |xs| ==> r.items[i] == Str(xs[i])
  {
    List(seq(|xs|, i requires 0 <= i < |xs| => Str(xs[i])))
  }

  /** `Array.isArray(className) && className.includes(name)` */
  predicate ListIncludes(v: Option<Value>, name: string) {
    v.Some? && v.value.List? && Str(name) in v.value.items
  }
}
