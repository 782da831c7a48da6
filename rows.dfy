/**
 * One message flattened to name -> value entries (find_field_value).  The dict it fills is
 * modelled in insertion order, as from Python 3.7 on (under Python 2 the order is unspecified):
 * re-assigning a key keeps its place.
 */
module Rows {
  import opened Messages
  import opened Columns

  type Entry = (string, Msg)

  function Keys(d: seq<Entry>): (r: seq<string>)
    ensures |r| == |d| && forall i :: 0 <= i < |d| ==> r[i] == d[i].0
  {
    seq(|d|, i requires 0 <= i < |d| => d[i].0)
  }

  predicate DistinctKeys(d: seq<Entry>) {
    Distinct(Keys(d))
  }

  /** `d[k] = v`: the entry for `k` takes the value in its place, or a new entry goes last. */
  function Assign(d: seq<Entry>, k: string, v: Msg): seq<Entry>
  {
    if d == [] then [(k, v)]
    else if d[0].0 == k then [(k, v)] + d[1..]
    else [d[0]] + Assign(d[1..], k, v)
  }

  lemma KeysCons(e: Entry, d: seq<Entry>)
    ensures Keys([e] + d) == [e.0] + Keys(d)
  {
  }

  /** Assigning keeps the order of the keys; a new key goes last. */
  lemma {:induction false} AssignKeys(d: seq<Entry>, k: string, v: Msg)
    ensures Keys(Assign(d, k, v)) == if k in Keys(d) then Keys(d) else Keys(d) + [k]
  {
    if d != [] {
      assert d == [d[0]] + d[1..];
      KeysCons(d[0], d[1..]);
      if d[0].0 != k {
        var t := Assign(d[1..], k, v);
        AssignKeys(d[1..], k, v);
        KeysCons(d[0], t);
        assert k in Keys(d) <==> k in Keys(d[1..]);
        if k !in Keys(d[1..]) {
          assert [d[0].0] + (Keys(d[1..]) + [k]) == Keys(d) + [k];
        }
      } else {
        KeysCons((k, v), d[1..]);
      }
    }
  }

  /** Assigning a key the dict does not hold appends it. */
  lemma {:induction false} AssignFresh(d: seq<Entry>, k: string, v: Msg)
    requires k !in Keys(d)
    ensures Assign(d, k, v) == d + [(k, v)]
  {
    if d != [] {
      assert Keys(d) == [d[0].0] + Keys(d[1..]);
      AssignFresh(d[1..], k, v);
      assert [d[0]] + (d[1..] + [(k, v)]) == d + [(k, v)];
    }
  }

  lemma DistinctKeysTail(d: seq<Entry>)
    requires DistinctKeys(d) && d != []
    ensures DistinctKeys(d[1..]) && d[0].0 !in Keys(d[1..])
  {
    var t := d[1..];
    assert Keys(d) == [d[0].0] + Keys(t);
    forall i, j | 0 <= i < j < |t| ensures Keys(t)[i] != Keys(t)[j] {
      assert Keys(d)[i + 1] != Keys(d)[j + 1];
    }
    forall i | 0 <= i < |t| ensures Keys(t)[i] != d[0].0 {
      assert Keys(d)[0] != Keys(d)[i + 1];
    }
  }

  /** In a dict with distinct keys, assigning changes the value under `k` and nothing else. */
  lemma {:induction false} AssignValues(d: seq<Entry>, k: string, v: Msg)
    requires DistinctKeys(d)
    ensures |Assign(d, k, v)| >= |d|
    ensures forall i :: 0 <= i < |d| ==> Assign(d, k, v)[i] == if d[i].0 == k then (k, v) else d[i]
  {
    if d == [] { return; }
    var r := Assign(d, k, v);
    var t := d[1..];
    DistinctKeysTail(d);
    if d[0].0 != k {
      AssignValues(t, k, v);
      var rt := Assign(t, k, v);
      assert r == [d[0]] + rt;
      forall i | 0 <= i < |d| ensures r[i] == if d[i].0 == k then (k, v) else d[i] {
        if i > 0 {
          assert r[i] == rt[i - 1] && t[i - 1] == d[i];
        }
      }
    } else {
      assert r == [(k, v)] + t;
      forall i | 0 < i < |d| ensures d[i].0 != k && r[i] == d[i] {
        assert Keys(t)[i - 1] == d[i].0;
        assert r[i] == t[i - 1];
      }
    }
  }

  lemma AssignDistinct(d: seq<Entry>, k: string, v: Msg)
    requires DistinctKeys(d)
    ensures DistinctKeys(Assign(d, k, v))
  {
    AssignKeys(d, k, v);
  }

  /** The dict after assigning `pairs` one after another. */
  function PutAll(d: seq<Entry>, pairs: seq<Entry>): seq<Entry>
  {
    if pairs == [] then d
    else Assign(PutAll(d, pairs[..|pairs| - 1]), pairs[|pairs| - 1].0, pairs[|pairs| - 1].1)
  }

  lemma {:induction false} PutAllConcat(d: seq<Entry>, a: seq<Entry>, b: seq<Entry>)
    ensures PutAll(PutAll(d, a), b) == PutAll(d, a + b)
    decreases |b|
  {
    if b != [] {
      assert (a + b)[..|a + b| - 1] == a + b[..|b| - 1];
      PutAllConcat(d, a, b[..|b| - 1]);
    } else {
      assert a + b == a;
    }
  }

  /** The keys of the dict after a run of assignments are its old keys and the keys assigned, and no others. */
  lemma PutAllKeys(d: seq<Entry>, pairs: seq<Entry>)
    ensures forall k :: k in Keys(PutAll(d, pairs)) <==> k in Keys(d) || k in Keys(pairs)
  {
    forall k ensures k in Keys(PutAll(d, pairs)) <==> k in Keys(d) || k in Keys(pairs) {
      PutAllKey(d, pairs, k);
    }
  }

  lemma {:induction false} PutAllKey(d: seq<Entry>, pairs: seq<Entry>, k: string)
    ensures k in Keys(PutAll(d, pairs)) <==> k in Keys(d) || k in Keys(pairs)
    decreases |pairs|
  {
    if pairs != [] {
      var init := pairs[..|pairs| - 1];
      var last := pairs[|pairs| - 1];
      var before := PutAll(d, init);
      PutAllKey(d, init, k);
      AssignKeys(before, last.0, last.1);
      assert Keys(pairs) == Keys(init) + [last.0];
    }
  }

  /**
   * Assigning pairs whose keys are new and distinct appends them in order: a fresh row holds
   * exactly the assignments made.
   */
  lemma {:induction false} PutAllFreshKeys(d: seq<Entry>, pairs: seq<Entry>)
    requires DistinctKeys(d + pairs)
    ensures PutAll(d, pairs) == d + pairs
    decreases |pairs|
  {
    if pairs != [] {
      var init := pairs[..|pairs| - 1];
      var last := pairs[|pairs| - 1];
      assert d + pairs == (d + init) + [last];
      assert DistinctKeys(d + init) by {
        forall i, j | 0 <= i < j < |d + init| ensures Keys(d + init)[i] != Keys(d + init)[j] {
          assert Keys(d + pairs)[i] != Keys(d + pairs)[j];
        }
      }
      PutAllFreshKeys(d, init);
      assert last.0 !in Keys(d + init) by {
        forall i | 0 <= i < |d + init| ensures (d + init)[i].0 != last.0 {
          assert Keys(d + pairs)[i] != Keys(d + pairs)[|d + pairs| - 1];
        }
      }
      AssignFresh(d + init, last.0, last.1);
    } else {
      assert d + pairs == d;
    }
  }

  /** The dict find_field_value fills; write_topic makes a fresh one per message. */
  class RowDict {
    var entries: seq<Entry>

    constructor ()
      ensures entries == []
    {
      entries := [];
    }

    method Put(k: string, v: Msg)
      modifies this
      ensures entries == Assign(old(entries), k, v)
    {
      entries := Assign(entries, k, v);
    }
  }

  /** `[getattr(x, slot) for x in elems]` */
  function Gather(elems: seq<Msg>, slot: string): (r: seq<Msg>)
    requires forall i :: 0 <= i < |elems| ==> elems[i].Composite? && slot in SlotNames(elems[i].slots)
    ensures |r| == |elems|
    ensures forall i :: 0 <= i < |elems| ==> r[i] == Field(elems[i].slots, slot)
  {
    seq(|elems|, i requires 0 <= i < |elems| => Field(elems[i].slots, slot))
  }

  /** The loop that collects one slot from every element of a list. */
  method GatherSlot(elems: seq<Msg>, slot: string) returns (gathered: seq<Msg>)
    requires forall i :: 0 <= i < |elems| ==> elems[i].Composite? && slot in SlotNames(elems[i].slots)
    ensures gathered == Gather(elems, slot)
  {
    gathered := [];
    for j := 0 to |elems|
      invariant gathered == Gather(elems[..j], slot)
    {
      assert elems[..j + 1] == elems[..j] + [elems[j]];
      gathered := gathered + [Field(elems[j].slots, slot)];
    }
    assert elems[..|elems|] == elems;
  }

  lemma TemplateSlotsPresent(m: Msg, n: nat)
    requires WellFormed(m) && HasTemplate(m) && n < |m.elems[0].slots|
    ensures forall i :: 0 <= i < |m.elems| ==>
              m.elems[i].Composite? && m.elems[0].slots[n].0 in SlotNames(m.elems[i].slots)
  {
    assert SlotNames(m.elems[0].slots)[n] == m.elems[0].slots[n].0;
  }

  /**
   * The assignments find_field_value(prefix, m, ...) makes, in order.  For a list of composites,
   * a slot whose extended name is a known column gets that slot of every element; any other
   * slot is walked into from the first element with `prefix` left as it was.
   */
  function Assignments(prefix: string, m: Msg, columns: map<string, nat>): seq<Entry>
    requires WellFormed(m)
    decreases m, 1
  {
    match m
    case Composite(slots) => SlotAssignments(prefix, m, columns, |slots|)
    case List(elems) =>
      if HasTemplate(m) then TemplateAssignments(prefix, m, columns, |elems[0].slots|) else [(prefix, m)]
    case Scalar(_) => [(prefix, m)]
  }

  function SlotAssignments(prefix: string, c: Msg, columns: map<string, nat>, n: nat): seq<Entry>
    requires c.Composite? && n <= |c.slots| && WellFormed(c)
    decreases c, 0, n
  {
    if n == 0 then []
    else
      SlotAssignments(prefix, c, columns, n - 1) +
      Assignments(Child(prefix, c.slots[n - 1].0), c.slots[n - 1].1, columns)
  }

  function TemplateAssignments(prefix: string, l: Msg, columns: map<string, nat>, n: nat): seq<Entry>
    requires WellFormed(l) && HasTemplate(l) && n <= |l.elems[0].slots|
    decreases l, 0, n
  {
    if n == 0 then []
    else
      TemplateAssignments(prefix, l, columns, n - 1) + TemplateSlot(prefix, l, columns, n - 1)
  }

  function TemplateSlot(prefix: string, l: Msg, columns: map<string, nat>, k: nat): seq<Entry>
    requires WellFormed(l) && HasTemplate(l) && k < |l.elems[0].slots|
    decreases l, 0, k, 0
  {
    var (slot, v) := l.elems[0].slots[k];
    if Child(prefix, slot) in columns then
      TemplateSlotsPresent(l, k);
      [(Child(prefix, slot), List(Gather(l.elems, slot)))]
    else
      assert WellFormed(l.elems[0]);
      Assignments(prefix, v, columns)
  }

  /** find_field_value: the row afterwards is the old row with the assignments made in order. */
  method FindFieldValue(prefix: string, m: Msg, values: RowDict, columns: map<string, nat>)
    requires WellFormed(m)
    modifies values
    ensures values.entries == PutAll(old(values.entries), Assignments(prefix, m, columns))
    decreases m
  {
    if m.Composite? {
      for i := 0 to |m.slots|
        invariant values.entries == PutAll(old(values.entries), SlotAssignments(prefix, m, columns, i))
      {
        FindFieldValue(Child(prefix, m.slots[i].0), m.slots[i].1, values, columns);
        PutAllConcat(old(values.entries), SlotAssignments(prefix, m, columns, i),
                     Assignments(Child(prefix, m.slots[i].0), m.slots[i].1, columns));
      }
    } else if HasTemplate(m) {
      var first := m.elems[0];
      for i := 0 to |first.slots|
        invariant values.entries == PutAll(old(values.entries), TemplateAssignments(prefix, m, columns, i))
      {
        var slot := first.slots[i].0;
        var newPrefix := Child(prefix, slot);
        if newPrefix in columns {
          TemplateSlotsPresent(m, i);
          var gathered := GatherSlot(m.elems, slot);
          values.Put(newPrefix, List(gathered));
          assert TemplateSlot(prefix, m, columns, i) == [(newPrefix, List(gathered))];
          assert PutAll(old(values.entries), TemplateAssignments(prefix, m, columns, i + 1)) ==
                 Assign(PutAll(old(values.entries), TemplateAssignments(prefix, m, columns, i)),
                        newPrefix, List(gathered));
        } else {
          FindFieldValue(prefix, first.slots[i].1, values, columns);
          PutAllConcat(old(values.entries), TemplateAssignments(prefix, m, columns, i),
                       Assignments(prefix, first.slots[i].1, columns));
        }
      }
    } else {
      values.Put(prefix, m);
    }
  }

  // ---- alignment with the column names ----

  /** The values at the leaves get_field_names names, in the same order (lists sampled by their first element). */
  function LeafValues(m: Msg): seq<Msg>
    decreases m, 1
  {
    match m
    case Composite(slots) => SlotLeafValues(m, |slots|)
    case List(elems) => if HasTemplate(m) then SlotLeafValues(elems[0], |elems[0].slots|) else [m]
    case Scalar(_) => [m]
  }

  function SlotLeafValues(c: Msg, n: nat): seq<Msg>
    requires c.Composite? && n <= |c.slots|
    decreases c, 0, n
  {
    if n == 0 then [] else SlotLeafValues(c, n - 1) + LeafValues(c.slots[n - 1].1)
  }

  function Zip(ks: seq<string>, vs: seq<Msg>): (r: seq<Entry>)
    requires |ks| == |vs|
    ensures |r| == |ks| && forall i :: 0 <= i < |ks| ==> r[i] == (ks[i], vs[i])
  {
    seq(|ks|, i requires 0 <= i < |ks| => (ks[i], vs[i]))
  }

  lemma ZipConcat(a: seq<string>, b: seq<string>, x: seq<Msg>, y: seq<Msg>)
    requires |a| == |x| && |b| == |y|
    ensures Zip(a + b, x + y) == Zip(a, x) + Zip(b, y)
  {
  }

  /**
   * For a message made only of composites and scalars, find_field_value makes one assignment per
   * name get_field_names produces, in the same order, each of the scalar found at that path,
   * whatever the known columns are.
   */
  lemma {:induction false} ListFreeAlignment(prefix: string, m: Msg, columns: map<string, nat>)
    requires ListFree(m)
    ensures WellFormed(m)
    ensures |FieldNames(prefix, m)| == |LeafValues(m)|
    ensures Assignments(prefix, m, columns) == Zip(FieldNames(prefix, m), LeafValues(m))
    ensures forall v :: v in LeafValues(m) ==> v.Scalar?
    decreases m, 1
  {
    ListFreeIsWellFormed(m);
    match m
    case Scalar(_) =>
    case Composite(slots) => SlotListFreeAlignment(prefix, m, columns, |slots|);
  }

  lemma {:induction false} SlotListFreeAlignment(prefix: string, c: Msg, columns: map<string, nat>, n: nat)
    requires c.Composite? && n <= |c.slots| && ListFree(c)
    ensures WellFormed(c)
    ensures |SlotFieldNames(prefix, c, n)| == |SlotLeafValues(c, n)|
    ensures SlotAssignments(prefix, c, columns, n) == Zip(SlotFieldNames(prefix, c, n), SlotLeafValues(c, n))
    ensures forall v :: v in SlotLeafValues(c, n) ==> v.Scalar?
    decreases c, 0, n
  {
    ListFreeIsWellFormed(c);
    if n > 0 {
      SlotListFreeAlignment(prefix, c, columns, n - 1);
      var (slot, v) := c.slots[n - 1];
      ListFreeAlignment(Child(prefix, slot), v, columns);
      ZipConcat(SlotFieldNames(prefix, c, n - 1), FieldNames(Child(prefix, slot), v),
                SlotLeafValues(c, n - 1), LeafValues(v));
    }
  }

  /**
   * For a list of composites whose slot, appended to the list's own path, is a known column, an
   * assignment is made of that column to the slot of every element in order: as many values as
   * elements. A later assignment to the same key can still overwrite it (`GatheredColumnOverwritten`).
   */
  lemma GatheredColumn(prefix: string, m: Msg, columns: map<string, nat>, k: nat)
    requires WellFormed(m) && HasTemplate(m) && k < |m.elems[0].slots|
    requires Child(prefix, m.elems[0].slots[k].0) in columns
    ensures var slot := m.elems[0].slots[k].0;
      exists vals: seq<Msg> ::
        && (Child(prefix, slot), List(vals)) in Assignments(prefix, m, columns)
        && |vals| == |m.elems|
        && forall i :: 0 <= i < |m.elems| ==> m.elems[i].Composite? && vals[i] == Field(m.elems[i].slots, slot)
  {
    var slot := m.elems[0].slots[k].0;
    TemplateSlotsPresent(m, k);
    var vals := Gather(m.elems, slot);
    TemplateSlotIncluded(prefix, m, columns, k, |m.elems[0].slots|);
    assert TemplateSlot(prefix, m, columns, k) == [(Child(prefix, slot), List(vals))];
    assert (Child(prefix, slot), List(vals)) in TemplateAssignments(prefix, m, columns, |m.elems[0].slots|);
    assert Assignments(prefix, m, columns) == TemplateAssignments(prefix, m, columns, |m.elems[0].slots|);
  }

  lemma {:induction false} TemplateSlotIncluded(prefix: string, l: Msg, columns: map<string, nat>, k: nat, n: nat)
    requires WellFormed(l) && HasTemplate(l) && k < n <= |l.elems[0].slots|
    ensures forall e :: e in TemplateSlot(prefix, l, columns, k) ==> e in TemplateAssignments(prefix, l, columns, n)
  {
    if k < n - 1 {
      TemplateSlotIncluded(prefix, l, columns, k, n - 1);
    }
  }

  // ---- line 295 as written and as evidently intended ----

  /**
   * A list of composites whose first element holds a nested message: the names come from the
   * extended path `_poses_position_x`, but find_field_value, descending with the list's own prefix,
   * records `_poses_x`, which is not a column.
   */
  lemma NestedTemplateKeyNotAColumn()
    ensures
      var m := Composite([("poses", List([Composite([("position", Composite([("x", Scalar("1"))]))])]))]);
      var columns := map["_poses_position_x" := 0];
      && FieldNames("", m) == ["_poses_position_x"]
      && WellFormed(m)
      && Assignments("", m, columns) == [("_poses_x", Scalar("1"))]
      && "_poses_x" !in columns
  {
    var x := Scalar("1");
    var point := Composite([("x", x)]);
    var pose := Composite([("position", point)]);
    var poses := List([pose]);
    var m := Composite([("poses", poses)]);
    var columns := map["_poses_position_x" := 0];
    assert "" + "_" + "poses" == "_poses";
    assert "_poses" + "_" + "position" == "_poses_position";
    assert "_poses_position" + "_" + "x" == "_poses_position_x";
    assert "_poses" + "_" + "x" == "_poses_x";
    assert FieldNames("_poses_position_x", x) == ["_poses_position_x"];
    assert SlotFieldNames("_poses_position", point, 1) == ["_poses_position_x"];
    assert FieldNames("_poses_position", point) == ["_poses_position_x"];
    assert SlotFieldNames("_poses", pose, 1) == ["_poses_position_x"];
    assert FieldNames("_poses", poses) == ["_poses_position_x"];
    assert SlotFieldNames("", m, 1) == ["_poses_position_x"];
    assert SlotNames(pose.slots) == ["position"];
    assert WellFormed(x) && WellFormed(point) && WellFormed(pose);
    assert WellFormed(poses);
    assert WellFormed(m);
    assert Assignments("_poses_x", x, columns) == [("_poses_x", x)];
    assert SlotAssignments("_poses", point, columns, 1) == [("_poses_x", x)];
    assert Assignments("_poses", point, columns) == [("_poses_x", x)];
    assert "_poses_position" !in columns;
    assert TemplateSlot("_poses", poses, columns, 0) == [("_poses_x", x)];
    assert TemplateAssignments("_poses", poses, columns, 1) == [("_poses_x", x)];
    assert SlotAssignments("", m, columns, 1) == [("_poses_x", x)];
  }

  /**
   * A list field `f` of composites `{x: a, q: {x: b}}`, where `_f_x` is a column and `_f_q` is
   * not: the gathered `_f_x` is recorded, then the walk into `q` under the list's own prefix
   * records `_f_x` again with `b`, which overwrites it.  The row keeps only `(_f_x, b)`.
   */
  lemma GatheredColumnOverwritten(f: string, a: string, b: string, columns: map<string, nat>)
    requires Child(Child("", f), "x") in columns && Child(Child("", f), "q") !in columns
    ensures
      var m := Composite([(f, List([Composite([("x", Scalar(a)), ("q", Composite([("x", Scalar(b))]))])]))]);
      var x := Child(Child("", f), "x");
      && WellFormed(m)
      && FieldNames("", m) == [x, Child(Child(Child("", f), "q"), "x")]
      && Assignments("", m, columns) == [(x, List([Scalar(a)])), (x, Scalar(b))]
      && PutAll([], Assignments("", m, columns)) == [(x, Scalar(b))]
  {
    var inner := Composite([("x", Scalar(b))]);
    var e := Composite([("x", Scalar(a)), ("q", inner)]);
    var l := List([e]);
    var m := Composite([(f, l)]);
    var p := Child("", f);
    var x := Child(p, "x");
    assert WellFormed(inner) && WellFormed(e);
    assert SlotNames(e.slots) == ["x", "q"];
    assert WellFormed(l);
    assert WellFormed(m);
    assert FieldNames("", m) == [x, Child(Child(p, "q"), "x")] by {
      assert SlotFieldNames(Child(p, "q"), inner, 1) == [Child(Child(p, "q"), "x")];
      assert SlotFieldNames(p, e, 1) == [x];
      assert SlotFieldNames(p, e, 2) == [x] + [Child(Child(p, "q"), "x")];
      assert SlotFieldNames("", m, 1) == [] + FieldNames(p, l);
    }
    assert Gather(l.elems, "x") == [Scalar(a)];
    assert TemplateSlot(p, l, columns, 0) == [(x, List([Scalar(a)]))];
    assert Assignments(p, inner, columns) == [(x, Scalar(b))] by {
      assert SlotAssignments(p, inner, columns, 1) == [] + [(x, Scalar(b))];
    }
    assert TemplateSlot(p, l, columns, 1) == [(x, Scalar(b))];
    assert TemplateAssignments(p, l, columns, 2) == [(x, List([Scalar(a)]))] + [(x, Scalar(b))] by {
      assert TemplateAssignments(p, l, columns, 1) == [] + [(x, List([Scalar(a)]))];
    }
    var asg := [(x, List([Scalar(a)])), (x, Scalar(b))];
    assert Assignments("", m, columns) == asg by {
      assert SlotAssignments("", m, columns, 1) == [] + Assignments(p, l, columns);
    }
    assert asg[..1] == [(x, List([Scalar(a)]))] && asg[..1][..0] == [];
    assert PutAll([], asg[..1]) == [(x, List([Scalar(a)]))];
  }

  /** find_field_value with the non-column slot walked into under its extended name `new_prefix`. */
  function IntendedAssignments(prefix: string, m: Msg, columns: map<string, nat>): seq<Entry>
    requires WellFormed(m)
    decreases m, 1
  {
    match m
    case Composite(slots) => IntendedSlotAssignments(prefix, m, columns, |slots|)
    case List(elems) =>
      if HasTemplate(m) then IntendedTemplateAssignments(prefix, m, columns, |elems[0].slots|) else [(prefix, m)]
    case Scalar(_) => [(prefix, m)]
  }

  function IntendedSlotAssignments(prefix: string, c: Msg, columns: map<string, nat>, n: nat): seq<Entry>
    requires c.Composite? && n <= |c.slots| && WellFormed(c)
    decreases c, 0, n
  {
    if n == 0 then []
    else
      IntendedSlotAssignments(prefix, c, columns, n - 1) +
      IntendedAssignments(Child(prefix, c.slots[n - 1].0), c.slots[n - 1].1, columns)
  }

  function IntendedTemplateAssignments(prefix: string, l: Msg, columns: map<string, nat>, n: nat): seq<Entry>
    requires WellFormed(l) && HasTemplate(l) && n <= |l.elems[0].slots|
    decreases l, 0, n
  {
    if n == 0 then []
    else
      var (slot, v) := l.elems[0].slots[n - 1];
      IntendedTemplateAssignments(prefix, l, columns, n - 1) +
      if Child(prefix, slot) in columns then
        TemplateSlotsPresent(l, n - 1);
        [(Child(prefix, slot), List(Gather(l.elems, slot)))]
      else
        assert WellFormed(l.elems[0]);
        IntendedAssignments(Child(prefix, slot), v, columns)
  }

  /**
   * The same list field walked as intended: `q` is walked into under `_f_q`, so the row keeps the
   * gathered `_f_x` and adds `_f_q_x`, the two columns the message's names give.
   */
  lemma IntendedGatheredColumnKept(f: string, a: string, b: string, columns: map<string, nat>)
    requires Child(Child("", f), "x") in columns && Child(Child("", f), "q") !in columns
    ensures
      var m := Composite([(f, List([Composite([("x", Scalar(a)), ("q", Composite([("x", Scalar(b))]))])]))]);
      var x := Child(Child("", f), "x");
      var qx := Child(Child(Child("", f), "q"), "x");
      && WellFormed(m)
      && FieldNames("", m) == [x, qx]
      && IntendedAssignments("", m, columns) == [(x, List([Scalar(a)])), (qx, Scalar(b))]
      && PutAll([], IntendedAssignments("", m, columns)) == [(x, List([Scalar(a)])), (qx, Scalar(b))]
  {
    GatheredColumnOverwritten(f, a, b, columns);
    IntendedGatheredAssignments(f, a, b, columns);
    var x := Child(Child("", f), "x");
    var qx := Child(Child(Child("", f), "q"), "x");
    var asg := [(x, List([Scalar(a)])), (qx, Scalar(b))];
    assert x != qx by { assert |qx| > |x|; }
    assert DistinctKeys([] + asg) by { assert Keys(asg) == [x, qx]; }
    PutAllFreshKeys([], asg);
    assert [] + asg == asg;
  }

  /** The assignments of that list field under the corrected walk, in order. */
  lemma IntendedGatheredAssignments(f: string, a: string, b: string, columns: map<string, nat>)
    requires Child(Child("", f), "x") in columns && Child(Child("", f), "q") !in columns
    requires WellFormed(Composite([(f, List([Composite([("x", Scalar(a)), ("q", Composite([("x", Scalar(b))]))])]))]))
    ensures
      var m := Composite([(f, List([Composite([("x", Scalar(a)), ("q", Composite([("x", Scalar(b))]))])]))]);
      IntendedAssignments("", m, columns)
        == [(Child(Child("", f), "x"), List([Scalar(a)])), (Child(Child(Child("", f), "q"), "x"), Scalar(b))]
  {
    var inner := Composite([("x", Scalar(b))]);
    var e := Composite([("x", Scalar(a)), ("q", inner)]);
    var l := List([e]);
    var m := Composite([(f, l)]);
    var p := Child("", f);
    var x := Child(p, "x");
    var q := Child(p, "q");
    var qx := Child(q, "x");
    assert WellFormed(inner) && WellFormed(e);
    assert SlotNames(e.slots) == ["x", "q"];
    assert WellFormed(l);
    assert Gather(l.elems, "x") == [Scalar(a)];
    assert IntendedAssignments(q, inner, columns) == [(qx, Scalar(b))] by {
      assert IntendedSlotAssignments(q, inner, columns, 1) == [] + [(qx, Scalar(b))];
    }
    assert IntendedTemplateAssignments(p, l, columns, 1) == [] + [(x, List([Scalar(a)]))];
    var asg := [(x, List([Scalar(a)])), (qx, Scalar(b))];
    assert IntendedTemplateAssignments(p, l, columns, 2)
      == IntendedTemplateAssignments(p, l, columns, 1) + IntendedAssignments(q, inner, columns);
    assert IntendedAssignments("", m, columns) == asg by {
      assert IntendedSlotAssignments("", m, columns, 1) == [] + IntendedAssignments(p, l, columns);
    }
  }

  /**
   * With the extended name, flattening a message against columns that include its own names
   * records only known columns: write_topic_line never meets a missing key for it.
   */
  lemma {:induction false} IntendedKeysAreColumns(prefix: string, m: Msg, columns: map<string, nat>)
    requires WellFormed(m)
    requires forall n :: n in FieldNames(prefix, m) ==> n in columns
    ensures forall e :: e in IntendedAssignments(prefix, m, columns) ==> e.0 in columns
    decreases m, 1
  {
    match m
    case Scalar(_) =>
    case Composite(slots) => IntendedSlotKeysAreColumns(prefix, m, columns, |slots|);
    case List(elems) =>
      if HasTemplate(m) {
        IntendedTemplateKeysAreColumns(prefix, m, columns, |elems[0].slots|);
      }
  }

  lemma {:induction false} IntendedSlotKeysAreColumns(prefix: string, c: Msg, columns: map<string, nat>, n: nat)
    requires c.Composite? && n <= |c.slots| && WellFormed(c)
    requires forall s :: s in SlotFieldNames(prefix, c, n) ==> s in columns
    ensures forall e :: e in IntendedSlotAssignments(prefix, c, columns, n) ==> e.0 in columns
    decreases c, 0, n
  {
    if n > 0 {
      IntendedSlotKeysAreColumns(prefix, c, columns, n - 1);
      IntendedKeysAreColumns(Child(prefix, c.slots[n - 1].0), c.slots[n - 1].1, columns);
    }
  }

  lemma {:induction false} IntendedTemplateKeysAreColumns(prefix: string, l: Msg, columns: map<string, nat>, n: nat)
    requires WellFormed(l) && HasTemplate(l) && n <= |l.elems[0].slots|
    requires forall s :: s in SlotFieldNames(prefix, l.elems[0], n) ==> s in columns
    ensures forall e :: e in IntendedTemplateAssignments(prefix, l, columns, n) ==> e.0 in columns
    decreases l, 0, n
  {
    if n > 0 {
      IntendedTemplateKeysAreColumns(prefix, l, columns, n - 1);
      var (slot, v) := l.elems[0].slots[n - 1];
      if Child(prefix, slot) !in columns {
        assert WellFormed(l.elems[0]);
        IntendedKeysAreColumns(Child(prefix, slot), v, columns);
      }
    }
  }
}
