/** `aggregateTaxonomy(posts, scraps)` of `src/utils/categoryFilter.ts`: how many entries use
    each category and each tag, most used first and ties by name. The insertion-ordered
    JavaScript `Map` is an order of first appearance plus a map of counts. */
module Taxonomy {
  import opened Strings
  import opened ContentDetector

  /** `{ name, count }` */
  datatype Count = Count(name: string, count: nat)

  /** The names of a count list, in order. */
  function Names(t: seq<Count>): (r: seq<string>)
    ensures |r| == |t|
  {
    if |t| == 0 then [] else [t[0].name] + Names(t[1..])
  }

  /** No name occurs twice, as in the entry list of a JavaScript `Map`. */
  predicate DistinctNames(t: seq<Count>) {
    |t| == 0 || (t[0].name !in Names(t[1..]) && DistinctNames(t[1..]))
  }

  /** The value of key `n`, 0 when absent (`map.get(n) ?? 0`). */
  function CountOf(t: seq<Count>, n: string): nat {
    if |t| == 0 then 0
    else if t[0].name == n then t[0].count
    else CountOf(t[1..], n)
  }

  /** Every key in the map has been counted at least once. */
  predicate Positive(t: seq<Count>) {
    forall i :: 0 <= i < |t| ==> t[i].count >= 1
  }

  /** Sum of the counts. */
  function Total(xs: seq<Count>): nat {
    if |xs| == 0 then 0 else xs[0].count + Total(xs[1..])
  }

  /** How often `n` occurs in `xs`. */
  function Occurrences(xs: seq<string>, n: string): nat
    decreases |xs|
  {
    if |xs| == 0 then 0
    else Occurrences(xs[..|xs| - 1], n) + (if xs[|xs| - 1] == n then 1 else 0)
  }

  /** `map.set(n, (map.get(n) ?? 0) + 1)` on the entry list of an insertion-ordered map: an
      existing key keeps its place, a new key goes last. */
  function Add(t: seq<Count>, n: string): (r: seq<Count>)
    requires DistinctNames(t)
    ensures DistinctNames(r)
    ensures forall m :: m in Names(r) <==> m in Names(t) || m == n
    ensures forall m :: CountOf(r, m) == CountOf(t, m) + (if m == n then 1 else 0)
    ensures Total(r) == Total(t) + 1
    ensures Positive(t) ==> Positive(r)
    ensures n in Names(t) ==> Names(r) == Names(t)
    ensures n !in Names(t) ==> Names(r) == Names(t) + [n]
  {
    if |t| == 0 then [Count(n, 1)]
    else if t[0].name == n then
      assert t[1..] == ([t[0].(count := t[0].count + 1)] + t[1..])[1..];
      [t[0].(count := t[0].count + 1)] + t[1..]
    else
      var rest := Add(t[1..], n);
      AddSpecCons(t[0], t[1..], rest, n);
      assert t == [t[0]] + t[1..];
      [t[0]] + rest
  }

  /** What one increment promises, as `Add` states it. */
  ghost predicate AddSpec(t: seq<Count>, n: string, r: seq<Count>) {
    && DistinctNames(r)
    && (forall m :: m in Names(r) <==> m in Names(t) || m == n)
    && (forall m :: CountOf(r, m) == CountOf(t, m) + (if m == n then 1 else 0))
    && Total(r) == Total(t) + 1
    && (Positive(t) ==> Positive(r))
    && (n in Names(t) ==> Names(r) == Names(t))
    && (n !in Names(t) ==> Names(r) == Names(t) + [n])
  }

  /** An entry with another name in front of both lists keeps the promise. */
  lemma AddSpecCons(h: Count, tail: seq<Count>, rest: seq<Count>, n: string)
    requires h.name != n && DistinctNames([h] + tail)
    requires AddSpec(tail, n, rest)
    ensures AddSpec([h] + tail, n, [h] + rest)
  {
    var t, r := [h] + tail, [h] + rest;
    assert t[1..] == tail && r[1..] == rest;
    assert Total(r) == h.count + Total(rest) && Total(t) == h.count + Total(tail);
    if Positive(t) {
      assert Positive(tail) by { forall i | 0 <= i < |tail| ensures tail[i].count >= 1 { assert tail[i] == t[i + 1]; } }
      forall i | 0 <= i < |r| ensures r[i].count >= 1 {
        if i > 0 { assert r[i] == rest[i - 1]; }
      }
    }
    assert Names(r) == [h.name] + Names(rest);
    assert Names(t) == [h.name] + Names(tail);
    assert n !in Names(tail) ==> Names(t) + [n] == [h.name] + (Names(tail) + [n]);
  }

  /** The map after counting every name of `xs` in order. */
  function TallyOf(xs: seq<string>): (r: seq<Count>)
    ensures DistinctNames(r) && Positive(r)
    ensures forall n :: n in Names(r) <==> n in xs
    ensures forall n :: CountOf(r, n) == Occurrences(xs, n)
    ensures Total(r) == |xs|
    decreases |xs|
  {
    if |xs| == 0 then []
    else
      var init := xs[..|xs| - 1];
      assert xs == init + [xs[|xs| - 1]];
      Add(TallyOf(init), xs[|xs| - 1])
  }

  /** In a list with distinct names, an entry's count is the value of its name. */
  lemma {:induction false} CountOfMember(t: seq<Count>, c: Count)
    requires DistinctNames(t) && c in t
    ensures CountOf(t, c.name) == c.count
  {
    if t[0] != c {
      assert c in t[1..];
      NameOfMember(t[1..], c);
      CountOfMember(t[1..], c);
    }
  }

  lemma {:induction false} NameOfMember(t: seq<Count>, c: Count)
    requires c in t
    ensures c.name in Names(t)
  {
    if t[0] != c {
      assert c in t[1..];
      NameOfMember(t[1..], c);
    }
  }

  /** The comparator `b.count - a.count || a.name.localeCompare(b.name)` as "a may precede b". */
  predicate Le(a: Count, b: Count) {
    a.count > b.count || (a.count == b.count && (a.name == b.name || StrLt(a.name, b.name)))
  }

  lemma LeTransitive(a: Count, b: Count, c: Count)
    requires Le(a, b) && Le(b, c)
    ensures Le(a, c)
  {
    if a.count == b.count == c.count && a.name != b.name && b.name != c.name {
      StrLtTransitive(a.name, b.name, c.name);
    }
  }

  lemma LeTotal(a: Count, b: Count)
    ensures Le(a, b) || Le(b, a)
  {
    if a.count == b.count && a.name != b.name {
      StrLtTotal(a.name, b.name);
    }
  }

  /** Ties of name and count cannot both precede each other unless the entries are equal. */
  lemma LeAntisymmetric(a: Count, b: Count)
    requires Le(a, b) && Le(b, a)
    ensures a == b
  {
    if a.name != b.name {
      StrLtTransitive(a.name, b.name, a.name);
      StrLtIrreflexive(a.name);
    }
  }

  predicate Sorted(xs: seq<Count>) {
    forall i, j :: 0 <= i < j < |xs| ==> Le(xs[i], xs[j])
  }

  function Insert(x: Count, xs: seq<Count>): (r: seq<Count>)
    requires Sorted(xs)
    ensures Sorted(r)
    ensures multiset(r) == multiset(xs) + multiset{x}
    ensures Total(r) == Total(xs) + x.count
    ensures r[0] == x || (|xs| > 0 && r[0] == xs[0])
  {
    if |xs| == 0 then [x]
    else if Le(x, xs[0]) then
      ConsSorted(x, xs);
      assert ([x] + xs)[1..] == xs;
      [x] + xs
    else
      assert Sorted(xs[1..]);
      var rest := Insert(x, xs[1..]);
      InsertSpecCons(x, xs[0], xs[1..], rest);
      assert xs == [xs[0]] + xs[1..];
      [xs[0]] + rest
  }

  /** What one insertion promises, as `Insert` states it. */
  ghost predicate InsertSpec(x: Count, xs: seq<Count>, r: seq<Count>) {
    && Sorted(r)
    && multiset(r) == multiset(xs) + multiset{x}
    && Total(r) == Total(xs) + x.count
    && |r| > 0 && (r[0] == x || (|xs| > 0 && r[0] == xs[0]))
  }

  /** Inserting past a head that goes first keeps the promise. */
  lemma InsertSpecCons(x: Count, y: Count, tail: seq<Count>, rest: seq<Count>)
    requires Sorted([y] + tail) && !Le(x, y)
    requires InsertSpec(x, tail, rest)
    ensures InsertSpec(x, [y] + tail, [y] + rest)
  {
    LeTotal(x, y);
    var xs := [y] + tail;
    assert |tail| > 0 ==> tail[0] == xs[1] && Le(xs[0], xs[1]);
    assert Le(y, rest[0]);
    ConsSorted(y, rest);
    ConsFacts(y, rest, tail, x);
  }

  /** Putting the same head in front of two lists keeps what the inserted element adds. */
  lemma ConsFacts(y: Count, rest: seq<Count>, tail: seq<Count>, x: Count)
    requires multiset(rest) == multiset(tail) + multiset{x}
    requires Total(rest) == Total(tail) + x.count
    ensures multiset([y] + rest) == multiset([y] + tail) + multiset{x}
    ensures Total([y] + rest) == Total([y] + tail) + x.count
  {
    assert ([y] + rest)[1..] == rest;
    assert ([y] + tail)[1..] == tail;
  }

  /** A sorted list stays sorted with an element in front that may precede its head. */
  lemma ConsSorted(y: Count, rest: seq<Count>)
    requires Sorted(rest) && (|rest| == 0 || Le(y, rest[0]))
    ensures Sorted([y] + rest)
  {
    var r := [y] + rest;
    forall i, j | 0 <= i < j < |r| ensures Le(r[i], r[j]) {
      if i == 0 && j > 1 {
        LeTransitive(y, rest[0], rest[j - 1]);
      }
    }
  }

  /** Insertion adds exactly the inserted name. */
  lemma {:induction false} InsertNames(x: Count, xs: seq<Count>)
    requires Sorted(xs)
    ensures forall m :: m in Names(Insert(x, xs)) <==> m in Names(xs) || m == x.name
    ensures DistinctNames(xs) && x.name !in Names(xs) ==> DistinctNames(Insert(x, xs))
  {
    if |xs| > 0 && !Le(x, xs[0]) {
      assert Sorted(xs[1..]);
      InsertNames(x, xs[1..]);
      var r := Insert(x, xs);
      assert r[1..] == Insert(x, xs[1..]);
    } else if |xs| > 0 {
      assert ([x] + xs)[1..] == xs;
    }
  }

  /** `.sort(...)` with the comparator above. */
  function SortCounts(xs: seq<Count>): (r: seq<Count>)
    ensures Sorted(r)
    ensures multiset(r) == multiset(xs)
    ensures Total(r) == Total(xs)
    ensures forall m :: m in Names(r) <==> m in Names(xs)
    ensures DistinctNames(xs) ==> DistinctNames(r)
  {
    if |xs| == 0 then []
    else
      assert xs == [xs[0]] + xs[1..];
      InsertNames(xs[0], SortCounts(xs[1..]));
      Insert(xs[0], SortCounts(xs[1..]))
  }

  /** The categories of `entries`, one per entry, in order. */
  function CategoryNames(entries: seq<Entry>): (r: seq<string>)
    ensures |r| == |entries|
    ensures forall i :: 0 <= i < |entries| ==> r[i] == entries[i].data.category
  {
    seq(|entries|, i requires 0 <= i < |entries| => entries[i].data.category)
  }

  /** The tags of `entries`, entry by entry, in order. */
  function TagNames(entries: seq<Entry>): (r: seq<string>)
    ensures forall n :: n in r <==> exists e :: e in entries && n in e.data.tags
  {
    if |entries| == 0 then []
    else
      assert forall e :: e in entries <==> e == entries[0] || e in entries[1..];
      entries[0].data.tags + TagNames(entries[1..])
  }

  /** A sorted count list with one entry per distinct name of `xs`, holding the number of times
      the name occurs in `xs`. */
  function Summary(xs: seq<string>): (r: seq<Count>)
    ensures Sorted(r) && DistinctNames(r)
    ensures forall n :: n in Names(r) <==> n in xs
    ensures forall c :: c in r ==> c.count == Occurrences(xs, c.name) && c.count >= 1
    ensures Total(r) == |xs|
  {
    var t := TallyOf(xs);
    var r := SortCounts(t);
    forall c | c in r ensures c.count == Occurrences(xs, c.name) && c.count >= 1 {
      assert c in multiset(r);
      assert c in t;
      CountOfMember(t, c);
    }
    r
  }

  /** `aggregateTaxonomy(posts, scraps)`: posts are counted before scraps. */
  function AggregateTaxonomy(posts: seq<Entry>, scraps: seq<Entry>): (r: (seq<Count>, seq<Count>))
    ensures Sorted(r.0) && DistinctNames(r.0) && Sorted(r.1) && DistinctNames(r.1)
    ensures Total(r.0) == |posts| + |scraps|
    ensures forall c :: c in r.0 ==> c.count == Occurrences(CategoryNames(posts + scraps), c.name)
    ensures forall n :: n in Names(r.0) <==> exists e :: e in posts + scraps && e.data.category == n
    ensures forall c :: c in r.1 ==> c.count == Occurrences(TagNames(posts + scraps), c.name)
    ensures forall n :: n in Names(r.1) <==> exists e :: e in posts + scraps && n in e.data.tags
  {
    var all := posts + scraps;
    var names := CategoryNames(all);
    assert forall n :: n in names <==> exists e :: e in all && e.data.category == n by {
      forall n ensures n in names <==> exists e :: e in all && e.data.category == n {
        if n in names {
          var i :| 0 <= i < |all| && names[i] == n;
          assert all[i] in all;
        }
        if exists e :: e in all && e.data.category == n {
          var e :| e in all && e.data.category == n;
          var i :| 0 <= i < |all| && all[i] == e;
          assert names[i] == n;
        }
      }
    }
    (Summary(names), Summary(TagNames(all)))
  }
}
