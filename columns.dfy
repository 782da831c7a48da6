/**
 * CSV column names: the leaf paths of a topic's first message (get_field_names), sorted in
 * code-point order and written, minus their leading `_`, as the header line (write_header_line).
 */
module Columns {
  import opened Messages

  /** The names get_field_names(prefix, m, ...) appends, in order. */
  function FieldNames(prefix: string, m: Msg): seq<string>
    decreases m, 1
  {
    match m
    case Composite(slots) => SlotFieldNames(prefix, m, |slots|)
    case List(elems) =>
      if HasTemplate(m) then SlotFieldNames(prefix, elems[0], |elems[0].slots|) else [prefix]
    case Scalar(_) => [prefix]
  }

  /** The names appended for the first `n` slots of composite `c`. */
  function SlotFieldNames(prefix: string, c: Msg, n: nat): seq<string>
    requires c.Composite? && n <= |c.slots|
    decreases c, 0, n
  {
    if n == 0 then []
    else SlotFieldNames(prefix, c, n - 1) + FieldNames(Child(prefix, c.slots[n - 1].0), c.slots[n - 1].1)
  }

  /** The Python list that get_field_names appends to and write_header_line sorts. */
  class NameList {
    var items: seq<string>

    constructor ()
      ensures items == []
    {
      items := [];
    }

    method Append(name: string)
      modifies this
      ensures items == old(items) + [name]
    {
      items := items + [name];
    }

    /** `list.sort()`: items become the sorted arrangement of what they were. */
    method Sort()
      modifies this
      ensures items == SortedOf(old(items))
    {
      var sorted: seq<string> := [];
      for i := 0 to |items|
        invariant sorted == SortedOf(items[..i])
      {
        assert items[..i + 1][..i] == items[..i];
        sorted := Insert(items[i], sorted);
      }
      assert items[..|items|] == items;
      items := sorted;
    }
  }

  /** get_field_names: appends the leaf paths of `m` below `prefix` and changes nothing else. */
  method GetFieldNames(prefix: string, m: Msg, names: NameList)
    modifies names
    ensures names.items == old(names.items) + FieldNames(prefix, m)
    decreases m
  {
    if m.Composite? {
      for i := 0 to |m.slots|
        invariant names.items == old(names.items) + SlotFieldNames(prefix, m, i)
      {
        GetFieldNames(Child(prefix, m.slots[i].0), m.slots[i].1, names);
      }
    } else if HasTemplate(m) {
      var first := m.elems[0];
      for i := 0 to |first.slots|
        invariant names.items == old(names.items) + SlotFieldNames(prefix, first, i)
      {
        GetFieldNames(Child(prefix, first.slots[i].0), first.slots[i].1, names);
      }
    } else {
      names.Append(prefix);
    }
  }

  /**
   * Every collected name extends the prefix: by one or more `_slot` segments below a composite or
   * a list of composites, and is the prefix itself for a scalar or any other list.
   */
  lemma {:induction false} FieldNamesExtendPrefix(prefix: string, m: Msg)
    ensures m.Composite? || HasTemplate(m) ==>
              forall n :: n in FieldNames(prefix, m) ==> StartsWith(n, prefix + "_")
    ensures !(m.Composite? || HasTemplate(m)) ==> FieldNames(prefix, m) == [prefix]
    decreases m, 1
  {
    match m
    case Composite(slots) => SlotFieldNamesExtendPrefix(prefix, m, |slots|);
    case List(elems) =>
      if HasTemplate(m) { SlotFieldNamesExtendPrefix(prefix, elems[0], |elems[0].slots|); }
    case Scalar(_) =>
  }

  lemma {:induction false} SlotFieldNamesExtendPrefix(prefix: string, c: Msg, n: nat)
    requires c.Composite? && n <= |c.slots|
    ensures forall s :: s in SlotFieldNames(prefix, c, n) ==> StartsWith(s, prefix + "_")
    decreases c, 0, n
  {
    if n > 0 {
      SlotFieldNamesExtendPrefix(prefix, c, n - 1);
      var (slot, v) := c.slots[n - 1];
      var p := Child(prefix, slot);
      FieldNamesExtendPrefix(p, v);
      forall s | s in FieldNames(p, v) ensures StartsWith(s, prefix + "_") {
        if v.Composite? || HasTemplate(v) {
          PrefixTransitive(s, p + "_", prefix + "_");
        } else {
          PrefixTransitive(s, p, prefix + "_");
        }
      }
    }
  }

  lemma PrefixTransitive(s: string, p: string, q: string)
    requires StartsWith(s, p) && StartsWith(p, q)
    ensures StartsWith(s, q)
  {
    assert s[..|q|] == s[..|p|][..|q|];
  }

  /**
   * `path` is a sequence of slot names leading from `m` down to a leaf: through a composite's
   * slot, or through a slot of a list's first element when that element is a composite; it ends
   * where the value is neither.
   */
  ghost predicate LeafPath(m: Msg, path: seq<string>)
    decreases m
  {
    if path == [] then !(m.Composite? || HasTemplate(m))
    else
      match m
      case Composite(slots) =>
        exists i :: 0 <= i < |slots| && slots[i].0 == path[0] && LeafPath(slots[i].1, path[1..])
      case List(elems) =>
        && HasTemplate(m)
        && exists i :: 0 <= i < |elems[0].slots| && elems[0].slots[i].0 == path[0] && LeafPath(elems[0].slots[i].1, path[1..])
      case Scalar(_) => false
  }

  /** The name of the leaf at `path` below `prefix`: the prefix extended by `_slot` for each step. */
  function PathName(prefix: string, path: seq<string>): string
    decreases |path|
  {
    if path == [] then prefix else PathName(Child(prefix, path[0]), path[1..])
  }

  /** `n` is the name of some leaf path of `m` below `prefix`. */
  ghost predicate LeafPathName(prefix: string, m: Msg, n: string) {
    exists path :: LeafPath(m, path) && PathName(prefix, path) == n
  }

  /**
   * The names collected below `prefix` are exactly the names of the leaf paths of `m`: each
   * collected name is a leaf path's name, and each leaf path's name is collected.
   */
  lemma FieldNamesAreLeafPaths(prefix: string, m: Msg)
    ensures forall n :: n in FieldNames(prefix, m) ==> LeafPathName(prefix, m, n)
    ensures forall path :: LeafPath(m, path) ==> PathName(prefix, path) in FieldNames(prefix, m)
  {
    forall n | n in FieldNames(prefix, m) ensures LeafPathName(prefix, m, n) {
      CollectedNameHasPath(prefix, m, n);
    }
    forall path | LeafPath(m, path) ensures PathName(prefix, path) in FieldNames(prefix, m) {
      LeafPathCollected(prefix, m, path);
    }
  }

  lemma CollectedNameHasPath(prefix: string, m: Msg, n: string)
    requires n in FieldNames(prefix, m)
    ensures exists path :: LeafPath(m, path) && PathName(prefix, path) == n
  {
    var path := CollectedNamePath(prefix, m, n);
  }

  lemma {:induction false} CollectedNamePath(prefix: string, m: Msg, n: string) returns (path: seq<string>)
    requires n in FieldNames(prefix, m)
    ensures LeafPath(m, path) && PathName(prefix, path) == n
    decreases m, 1
  {
    match m
    case Composite(slots) =>
      var i, rest := CollectedSlotPath(prefix, m, |slots|, n);
      path := [slots[i].0] + rest;
      assert path[1..] == rest;
    case List(elems) =>
      if HasTemplate(m) {
        var i, rest := CollectedSlotPath(prefix, elems[0], |elems[0].slots|, n);
        path := [elems[0].slots[i].0] + rest;
        assert path[1..] == rest;
      } else {
        path := [];
      }
    case Scalar(_) =>
      path := [];
  }

  lemma {:induction false} CollectedSlotPath(prefix: string, c: Msg, k: nat, n: string) returns (i: nat, rest: seq<string>)
    requires c.Composite? && k <= |c.slots| && n in SlotFieldNames(prefix, c, k)
    ensures i < k && LeafPath(c.slots[i].1, rest) && PathName(Child(prefix, c.slots[i].0), rest) == n
    decreases c, 0, k
  {
    if n in SlotFieldNames(prefix, c, k - 1) {
      i, rest := CollectedSlotPath(prefix, c, k - 1, n);
    } else {
      i := k - 1;
      rest := CollectedNamePath(Child(prefix, c.slots[i].0), c.slots[i].1, n);
    }
  }

  lemma {:induction false} LeafPathCollected(prefix: string, m: Msg, path: seq<string>)
    requires LeafPath(m, path)
    ensures PathName(prefix, path) in FieldNames(prefix, m)
    decreases m
  {
    if path != [] {
      var c := if m.Composite? then m else m.elems[0];
      var i :| 0 <= i < |c.slots| && c.slots[i].0 == path[0] && LeafPath(c.slots[i].1, path[1..]);
      LeafPathCollected(Child(prefix, path[0]), c.slots[i].1, path[1..]);
      SlotNamesCollected(prefix, c, i, |c.slots|);
    }
  }

  /** The names collected for slot `i` are among those collected for any first `k` slots that include it. */
  lemma {:induction false} SlotNamesCollected(prefix: string, c: Msg, i: nat, k: nat)
    requires c.Composite? && i < k <= |c.slots|
    ensures forall n :: n in FieldNames(Child(prefix, c.slots[i].0), c.slots[i].1) ==> n in SlotFieldNames(prefix, c, k)
    decreases k
  {
    if i < k - 1 {
      SlotNamesCollected(prefix, c, i, k - 1);
    }
  }

  /** Only the first element of a list is sampled: `[e1, e2, ...]` names exactly what `[e1]` does. */
  lemma ListUsesFirstElement(prefix: string, first: Msg, rest: seq<Msg>)
    ensures FieldNames(prefix, List([first] + rest)) == FieldNames(prefix, List([first]))
  {
  }

  // ---- Python's string order and list.sort ----

  /** `a <= b` on Python strings: lexicographic by code point, a proper prefix first. */
  predicate LexLe(a: string, b: string)
    decreases |a|
  {
    |a| == 0 || (|b| > 0 && (a[0] < b[0] || (a[0] == b[0] && LexLe(a[1..], b[1..]))))
  }

  lemma {:induction false} LexLeReflexive(a: string)
    ensures LexLe(a, a)
    decreases |a|
  {
    if |a| > 0 { LexLeReflexive(a[1..]); }
  }

  lemma {:induction false} LexLeTotal(a: string, b: string)
    ensures LexLe(a, b) || LexLe(b, a)
    decreases |a|
  {
    if |a| > 0 && |b| > 0 && a[0] == b[0] { LexLeTotal(a[1..], b[1..]); }
  }

  lemma {:induction false} LexLeTransitive(a: string, b: string, c: string)
    requires LexLe(a, b) && LexLe(b, c)
    ensures LexLe(a, c)
    decreases |a|
  {
    if |a| > 0 && a[0] == b[0] && b[0] == c[0] { LexLeTransitive(a[1..], b[1..], c[1..]); }
  }

  lemma {:induction false} LexLeAntisymmetric(a: string, b: string)
    requires LexLe(a, b) && LexLe(b, a)
    ensures a == b
    decreases |a|
  {
    if |a| > 0 {
      LexLeAntisymmetric(a[1..], b[1..]);
      assert a == [a[0]] + a[1..] && b == [b[0]] + b[1..];
    }
  }

  predicate Sorted(s: seq<string>) {
    forall i, j :: 0 <= i < j < |s| ==> LexLe(s[i], s[j])
  }

  /** A name no later than the head of a sorted list can go in front of it. */
  lemma SortedFront(x: string, s: seq<string>)
    requires Sorted(s) && s != [] && LexLe(x, s[0])
    ensures Sorted([x] + s)
  {
    forall i, j | 0 <= i < j < |[x] + s| ensures LexLe(([x] + s)[i], ([x] + s)[j]) {
      if i == 0 {
        assert ([x] + s)[j] == s[j - 1];
        if j > 1 { LexLeTransitive(x, s[0], s[j - 1]); }
      } else {
        assert ([x] + s)[i] == s[i - 1] && ([x] + s)[j] == s[j - 1];
      }
    }
  }

  /** The head of a sorted list stays in front when `x`, which follows it, goes into the rest. */
  lemma SortedBehindHead(x: string, s: seq<string>, t: seq<string>)
    requires Sorted(s) && s != [] && !LexLe(x, s[0])
    requires Sorted(t) && multiset(t) == multiset(s[1..]) + multiset{x}
    ensures Sorted([s[0]] + t)
  {
    LexLeTotal(x, s[0]);
    forall j | 0 <= j < |t| ensures LexLe(s[0], t[j]) {
      assert t[j] in multiset(t);
      if t[j] != x {
        assert t[j] in multiset(s[1..]);
        var k :| 0 <= k < |s[1..]| && s[1..][k] == t[j];
        assert s[k + 1] == t[j];
      }
    }
    forall i, j | 0 <= i < j < |[s[0]] + t| ensures LexLe(([s[0]] + t)[i], ([s[0]] + t)[j]) {
      assert ([s[0]] + t)[j] == t[j - 1];
      if i > 0 { assert ([s[0]] + t)[i] == t[i - 1]; }
    }
  }

  /** `x` placed before the first element it does not follow. */
  function Insert(x: string, s: seq<string>): (r: seq<string>)
    ensures multiset(r) == multiset(s) + multiset{x}
    ensures Sorted(s) ==> Sorted(r)
  {
    if s == [] then [x]
    else if LexLe(x, s[0]) then
      assert Sorted(s) ==> Sorted([x] + s) by { if Sorted(s) { SortedFront(x, s); } }
      [x] + s
    else
      var t := Insert(x, s[1..]);
      assert s == [s[0]] + s[1..];
      assert Sorted(s) ==> Sorted(s[1..]) by { if Sorted(s) { SortedTail(s); } }
      assert Sorted(s) ==> Sorted([s[0]] + t) by { if Sorted(s) { SortedBehindHead(x, s, t); } }
      [s[0]] + t
  }

  /** The result of sorting `s` in ascending order: its elements inserted one by one. */
  function SortedOf(s: seq<string>): (r: seq<string>)
    ensures Sorted(r) && multiset(r) == multiset(s)
  {
    if s == [] then []
    else
      assert s == s[..|s| - 1] + [s[|s| - 1]];
      Insert(s[|s| - 1], SortedOf(s[..|s| - 1]))
  }

  /** Comparing two names that share a prefix compares what follows it. */
  lemma {:induction false} LexLeCommonPrefix(p: string, a: string, b: string)
    ensures LexLe(p + a, p + b) == LexLe(a, b)
    decreases |p|
  {
    if |p| > 0 {
      assert (p + a)[1..] == p[1..] + a && (p + b)[1..] == p[1..] + b;
      LexLeCommonPrefix(p[1..], a, b);
    } else {
      assert p + a == a && p + b == b;
    }
  }

  lemma {:induction false} InsertDistinct(x: string, s: seq<string>)
    requires Distinct(s) && x !in s
    ensures Distinct(Insert(x, s))
  {
    if s != [] && !LexLe(x, s[0]) {
      assert x !in s[1..] && Distinct(s[1..]);
      InsertDistinct(x, s[1..]);
      var t := Insert(x, s[1..]);
      assert s[0] !in t by {
        assert s[0] !in s[1..];
        assert s[0] !in multiset(t) by { assert multiset(t) == multiset(s[1..]) + multiset{x}; }
      }
      forall i, j | 0 <= i < j < |[s[0]] + t| ensures ([s[0]] + t)[i] != ([s[0]] + t)[j] {
        if i == 0 { assert ([s[0]] + t)[j] == t[j - 1]; }
      }
    } else if s != [] {
      forall i, j | 0 <= i < j < |[x] + s| ensures ([x] + s)[i] != ([x] + s)[j] {
        if i == 0 { assert ([x] + s)[j] == s[j - 1]; }
      }
    }
  }

  /** Sorting distinct names leaves them distinct. */
  lemma {:induction false} SortedOfDistinct(s: seq<string>)
    requires Distinct(s)
    ensures Distinct(SortedOf(s))
  {
    if s != [] {
      var init := s[..|s| - 1];
      var x := s[|s| - 1];
      assert Distinct(init) by {
        forall i, j | 0 <= i < j < |init| ensures init[i] != init[j] { assert s[i] != s[j]; }
      }
      assert x !in init by {
        forall i | 0 <= i < |init| ensures init[i] != x { assert s[i] != s[|s| - 1]; }
      }
      SortedOfDistinct(init);
      assert x !in SortedOf(init) by { assert x !in multiset(init); }
      InsertDistinct(x, SortedOf(init));
    }
  }

  /** The first name of a sorted list comes no later than any of its names. */
  lemma SortedHeadFirst(a: seq<string>, x: string)
    requires Sorted(a) && x in a
    ensures LexLe(a[0], x)
  {
    var j :| 0 <= j < |a| && a[j] == x;
    if j == 0 { LexLeReflexive(x); }
  }

  lemma SortedTail(a: seq<string>)
    requires Sorted(a) && a != []
    ensures Sorted(a[1..])
  {
    forall i, j | 0 <= i < j < |a[1..]| ensures LexLe(a[1..][i], a[1..][j]) {
      assert a[1..][i] == a[i + 1] && a[1..][j] == a[j + 1];
    }
  }

  lemma MultisetTail(a: seq<string>)
    requires a != []
    ensures multiset(a[1..]) == multiset(a) - multiset{a[0]}
  {
    assert a == [a[0]] + a[1..];
    assert multiset(a) == multiset{a[0]} + multiset(a[1..]);
  }

  /** A sorted arrangement is unique: sorting has no choice to make, even among equal names. */
  lemma {:induction false} SortedPermutationUnique(a: seq<string>, b: seq<string>)
    requires Sorted(a) && Sorted(b) && multiset(a) == multiset(b)
    ensures a == b
    decreases |a|
  {
    assert |b| == |a| by { assert |multiset(a)| == |a| && |multiset(b)| == |b|; }
    if a != [] {
      assert a[0] in multiset(b) && b[0] in multiset(a);
      SortedHeadFirst(a, b[0]);
      SortedHeadFirst(b, a[0]);
      LexLeAntisymmetric(a[0], b[0]);
      MultisetTail(a);
      MultisetTail(b);
      SortedTail(a);
      SortedTail(b);
      SortedPermutationUnique(a[1..], b[1..]);
      assert a == [a[0]] + a[1..] && b == [b[0]] + b[1..];
    }
  }

  // ---- the header line ----

  /** `col[1:]` */
  function DropFirst(s: string): (r: string)
    ensures |s| > 0 ==> [s[0]] + r == s
    ensures |s| == 0 ==> r == ""
  {
    if |s| == 0 then "" else s[1..]
  }

  function Trimmed(names: seq<string>): (r: seq<string>)
    ensures |r| == |names|
    ensures forall i :: 0 <= i < |names| ==> r[i] == DropFirst(names[i])
  {
    seq(|names|, i requires 0 <= i < |names| => DropFirst(names[i]))
  }

  /** The names collected from the first message of the topic, before sorting. */
  function FirstMessageNames(messages: seq<Msg>): seq<string> {
    if messages == [] then [] else FieldNames("", messages[0])
  }

  /**
   * write_header_line: names from the first message only, sorted; the header is those names
   * without their first character, comma-joined and ended by a newline.
   */
  method WriteHeaderLine(messages: seq<Msg>) returns (names: seq<string>, header: string)
    ensures Sorted(names) && multiset(names) == multiset(FirstMessageNames(messages))
    ensures header == Join(",", Trimmed(names)) + "\n"
    ensures messages == [] ==> names == [] && header == "\n"
  {
    var list := new NameList();
    if |messages| > 0 {
      GetFieldNames("", messages[0], list);
    }
    list.Sort();
    names := list.items;
    header := Join(",", Trimmed(names)) + "\n";
  }
}
