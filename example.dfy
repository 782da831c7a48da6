/**
 * The worked export of messages whose one field `f` is shaped like a ROS `Header` (`seq`, then
 * `stamp` with `secs` and `nsecs`): the columns come out in code-point order, so `nsecs` precedes
 * `secs`, and each line lists the scalars in that order. For `f` = "header" the header line is
 * `header_seq,header_stamp_nsecs,header_stamp_secs`.
 */
module Example {
  import opened Wrappers
  import opened Messages
  import opened Columns
  import opened Rows
  import opened CsvLine
  import opened Export

  /** The column of leaf `slot` directly under field `f`: `_f_slot`. */
  function Top(f: string, slot: string): string {
    Child(Child("", f), slot)
  }

  /** The column of leaf `slot` under `f`'s stamp: `_f_stamp_slot`. */
  function Stamp(f: string, slot: string): string {
    Child(Child(Child("", f), "stamp"), slot)
  }

  /** The leaf paths of the message, in slot order, and its scalars in the same order. */
  lemma HeaderLeaves(f: string, s: string, secs: string, nsecs: string)
    ensures FieldNames("", HeaderMsg(f, s, secs, nsecs)) == [Top(f, "seq"), Stamp(f, "secs"), Stamp(f, "nsecs")]
    ensures LeafValues(HeaderMsg(f, s, secs, nsecs)) == [Scalar(s), Scalar(secs), Scalar(nsecs)]
  {
    var m := HeaderMsg(f, s, secs, nsecs);
    var stamp := Composite([("secs", Scalar(secs)), ("nsecs", Scalar(nsecs))]);
    var hdr := Composite([("seq", Scalar(s)), ("stamp", stamp)]);
    var p := Child("", f);
    var sp := Child(p, "stamp");
    assert FieldNames(sp, stamp) == [Stamp(f, "secs"), Stamp(f, "nsecs")] by {
      assert SlotFieldNames(sp, stamp, 0) == [];
      assert SlotFieldNames(sp, stamp, 1) == [Stamp(f, "secs")];
      assert SlotFieldNames(sp, stamp, 2) == [Stamp(f, "secs")] + [Stamp(f, "nsecs")];
    }
    assert FieldNames(p, hdr) == [Top(f, "seq"), Stamp(f, "secs"), Stamp(f, "nsecs")] by {
      assert SlotFieldNames(p, hdr, 1) == [Top(f, "seq")];
    }
    assert FieldNames("", m) == FieldNames(p, hdr) by {
      assert SlotFieldNames("", m, 1) == [] + FieldNames(p, hdr);
    }
    assert LeafValues(stamp) == [Scalar(secs), Scalar(nsecs)] by {
      assert SlotLeafValues(stamp, 0) == [];
      assert SlotLeafValues(stamp, 1) == [Scalar(secs)];
      assert SlotLeafValues(stamp, 2) == [Scalar(secs)] + [Scalar(nsecs)];
    }
    assert LeafValues(hdr) == [Scalar(s), Scalar(secs), Scalar(nsecs)] by {
      assert SlotLeafValues(hdr, 1) == [Scalar(s)];
    }
    assert LeafValues(m) == LeafValues(hdr) by {
      assert SlotLeafValues(m, 1) == [] + LeafValues(hdr);
    }
  }

  /** `seq` sorts before both stamp columns, and `nsecs` before `secs`, whatever the field is called. */
  lemma HeaderColumnOrder(f: string)
    ensures LexLe(Top(f, "seq"), Stamp(f, "nsecs"))
    ensures LexLe(Top(f, "seq"), Stamp(f, "secs"))
    ensures LexLe(Stamp(f, "nsecs"), Stamp(f, "secs"))
    ensures !LexLe(Stamp(f, "secs"), Stamp(f, "nsecs"))
  {
    var q := Child("", f) + "_";
    var r := Child(Child("", f), "stamp") + "_";
    var tail1: string := "stamp_nsecs";
    var tail2: string := "stamp_secs";
    assert Top(f, "seq") == q + "seq";
    assert Stamp(f, "nsecs") == q + tail1 && Stamp(f, "secs") == q + tail2 by {
      assert Child(Child("", f), "stamp") + "_" == q + "stamp_";
    }
    assert Stamp(f, "nsecs") == r + "nsecs" && Stamp(f, "secs") == r + "secs";
    assert LexLe("seq", tail1) by { assert "seq"[1..] == "eq" && tail1[1..] == "tamp_nsecs"; }
    assert LexLe("seq", tail2) by { assert "seq"[1..] == "eq" && tail2[1..] == "tamp_secs"; }
    LexLeCommonPrefix(q, "seq", tail1);
    LexLeCommonPrefix(q, "seq", tail2);
    LexLeCommonPrefix(r, "nsecs", "secs");
    LexLeCommonPrefix(r, "secs", "nsecs");
  }

  lemma SortedThree(a: string, b: string, c: string)
    requires LexLe(a, b) && LexLe(a, c) && LexLe(b, c)
    ensures Sorted([a, b, c])
  {
  }

  /** Sorting the leaf paths moves `nsecs` before `secs`. */
  lemma HeaderColumnsSorted(f: string)
    ensures SortedOf([Top(f, "seq"), Stamp(f, "secs"), Stamp(f, "nsecs")])
         == [Top(f, "seq"), Stamp(f, "nsecs"), Stamp(f, "secs")]
  {
    var names := [Top(f, "seq"), Stamp(f, "secs"), Stamp(f, "nsecs")];
    var c := [Top(f, "seq"), Stamp(f, "nsecs"), Stamp(f, "secs")];
    HeaderColumnOrder(f);
    SortedThree(c[0], c[1], c[2]);
    assert multiset(c) == multiset(names) by {
      assert c == [names[0], names[2], names[1]];
    }
    SortedPermutationUnique(SortedOf(names), c);
  }

  /** The three columns are different names (they differ in length). */
  lemma HeaderColumnsDistinct(f: string)
    ensures Top(f, "seq") != Stamp(f, "nsecs") && Top(f, "seq") != Stamp(f, "secs")
    ensures Stamp(f, "nsecs") != Stamp(f, "secs")
  {
  }

  /** The mapping of three distinct column names: each to its position. */
  lemma MappingOfThree(a: string, b: string, c: string)
    requires a != b && a != c && b != c
    ensures ColumnMapping([a, b, c]) == map[a := 0, b := 1, c := 2]
  {
    assert [a, b, c][..2] == [a, b] && [a, b][..1] == [a] && [a][..0] == [];
    assert ColumnMapping([a]) == map[a := 0];
    assert ColumnMapping([a, b]) == map[a := 0, b := 1];
  }

  lemma SwappedOneToOne(a: string, b: string, c: string)
    requires a != b && a != c && b != c
    ensures OneToOneOntoSlots(map[a := 0, c := 1, b := 2])
  {
    var mapping := map[a := 0, c := 1, b := 2];
    assert |mapping| == 3 by {
      assert mapping.Keys == {a, b, c};
      assert |{a, b, c}| == 3 by {
        assert |{a} + {b}| == 2;
        assert {a, b, c} == ({a} + {b}) + {c};
      }
    }
    forall k | k in mapping ensures mapping[k] < |mapping| {
      assert k == a || k == b || k == c;
    }
    forall k1, k2 | k1 in mapping && k2 in mapping && k1 != k2 ensures mapping[k1] != mapping[k2] {
      assert k1 == a || k1 == b || k1 == c;
      assert k2 == a || k2 == b || k2 == c;
    }
    forall j | 0 <= j < |mapping| ensures j in mapping.Values {
      assert mapping[a] == 0 && mapping[c] == 1 && mapping[b] == 2;
    }
  }

  lemma ThreeRowKeys(a: string, b: string, c: string, x: string, y: string, z: string)
    requires a != b && a != c && b != c
    ensures var row := [(a, Scalar(x)), (b, Scalar(y)), (c, Scalar(z))];
      && DistinctKeys(row)
      && (forall k :: k in map[a := 0, c := 1, b := 2] <==> k in Keys(row))
      && (forall i :: 0 <= i < |row| ==> !row[i].1.List?)
  {
    assert Keys([(a, Scalar(x)), (b, Scalar(y)), (c, Scalar(z))]) == [a, b, c];
  }

  lemma PinThree(mapping: map<string, nat>, row: seq<Entry>, texts: seq<string>,
                 a: string, b: string, c: string, x: string, y: string, z: string)
    requires |texts| == 3 && |row| == 3
    requires row[0] == (a, Scalar(x)) && row[1] == (b, Scalar(y)) && row[2] == (c, Scalar(z))
    requires a in mapping && b in mapping && c in mapping
    requires mapping[a] == 0 && mapping[c] == 1 && mapping[b] == 2
    requires forall i :: 0 <= i < |row| ==> texts[mapping[row[i].0]] == Str(row[i].1)
    ensures texts == [x, z, y]
  {
    assert texts[mapping[row[0].0]] == Str(row[0].1);
    assert texts[mapping[row[1].0]] == Str(row[1].1);
    assert texts[mapping[row[2].0]] == Str(row[2].1);
  }

  lemma JoinThree(x: string, y: string, z: string)
    ensures Join(",", [x, y, z]) == x + "," + y + "," + z
  {
    assert [x, y, z][1..] == [y, z] && [y, z][1..] == [z];
    assert Join(",", [z]) == z;
    assert Join(",", [y, z]) == y + "," + z;
    assert Join(",", [x, y, z]) == x + "," + (y + "," + z);
    assert x + "," + (y + "," + z) == x + "," + y + "," + z;
  }

  /** A row of three scalars against three distinct columns, the second and third entries swapped. */
  lemma ThreeScalarLine(a: string, b: string, c: string, x: string, y: string, z: string)
    requires a != b && a != c && b != c
    ensures TopicLine(map[a := 0, c := 1, b := 2], [(a, Scalar(x)), (b, Scalar(y)), (c, Scalar(z))])
         == Ok(x + "," + z + "," + y + "\n")
  {
    var mapping := map[a := 0, c := 1, b := 2];
    var row := [(a, Scalar(x)), (b, Scalar(y)), (c, Scalar(z))];
    ThreeRowKeys(a, b, c, x, y, z);
    SwappedOneToOne(a, b, c);
    ScalarRowLine(mapping, row);
    var texts :| && |texts| == |mapping|
                 && (forall i :: 0 <= i < |row| ==> texts[mapping[row[i].0]] == Str(row[i].1))
                 && TopicLine(mapping, row) == Ok(Join(",", texts) + "\n");
    PinThree(mapping, row, texts, a, b, c, x, y, z);
    JoinThree(x, z, y);
  }

  /** One message's line: its scalars in column order, `seq`, `nsecs`, `secs`. */
  lemma HeaderLine(f: string, s: string, secs: string, nsecs: string)
    ensures var mapping := ColumnMapping([Top(f, "seq"), Stamp(f, "nsecs"), Stamp(f, "secs")]);
      TopicLine(mapping, RowOf(mapping, HeaderMsg(f, s, secs, nsecs))) == Ok(s + "," + nsecs + "," + secs + "\n")
  {
    var m := HeaderMsg(f, s, secs, nsecs);
    var a, b, c := Top(f, "seq"), Stamp(f, "secs"), Stamp(f, "nsecs");
    HeaderLeaves(f, s, secs, nsecs);
    HeaderColumnsDistinct(f);
    assert Distinct([a, b, c]);
    var mapping := ColumnMapping([a, c, b]);
    MappingOfThree(a, c, b);
    ScalarMessageRow(m, mapping);
    assert RowOf(mapping, m) == [(a, Scalar(s)), (b, Scalar(secs)), (c, Scalar(nsecs))];
    ThreeScalarLine(a, b, c, s, secs, nsecs);
  }

  /** Trimming three names that each start with an underscore and joining them. */
  lemma TrimmedThree(a: string, b: string, c: string)
    ensures Join(",", Trimmed(["_" + a, "_" + b, "_" + c])) == a + "," + b + "," + c
  {
    var names := ["_" + a, "_" + b, "_" + c];
    assert DropFirst(names[0]) == a && DropFirst(names[1]) == b && DropFirst(names[2]) == c;
    assert Trimmed(names) == [a, b, c];
    JoinThree(a, b, c);
  }

  /** The header line: the sorted columns without their leading underscore, `f_seq,f_stamp_nsecs,f_stamp_secs`. */
  lemma HeaderText(f: string)
    ensures Join(",", Trimmed([Top(f, "seq"), Stamp(f, "nsecs"), Stamp(f, "secs")]))
         == Child(f, "seq") + "," + Child(Child(f, "stamp"), "nsecs") + "," + Child(Child(f, "stamp"), "secs")
  {
    assert Top(f, "seq") == "_" + Child(f, "seq");
    assert Stamp(f, "nsecs") == "_" + Child(Child(f, "stamp"), "nsecs");
    assert Stamp(f, "secs") == "_" + Child(Child(f, "stamp"), "secs");
    TrimmedThree(Child(f, "seq"), Child(Child(f, "stamp"), "nsecs"), Child(Child(f, "stamp"), "secs"));
  }

  /** Two messages whose lines are both written export as those two lines. */
  lemma ExportTwo(mapping: map<string, nat>, m1: Msg, m2: Msg, l1: string, l2: string)
    requires WellFormed(m1) && WellFormed(m2)
    requires TopicLine(mapping, RowOf(mapping, m1)) == Ok(l1)
    requires TopicLine(mapping, RowOf(mapping, m2)) == Ok(l2)
    ensures ExportLines(mapping, [m1, m2]) == ([l1, l2], Ok(2))
  {
    assert [m1, m2][..1] == [m1] && [m1][..0] == [];
    assert ExportLines(mapping, []) == ([], Ok(0));
    assert ExportLines(mapping, [m1]) == ([] + [l1], Ok(0 + 1));
    assert [] + [l1] == [l1] && [l1] + [l2] == [l1, l2];
  }

  /** The whole output for two messages, given the sorted columns, the header text and both lines. */
  lemma CsvOutputOfTwo(m1: Msg, m2: Msg, names: seq<string>, header: string, l1: string, l2: string)
    requires WellFormed(m1) && WellFormed(m2)
    requires SortedOf(FirstMessageNames([m1, m2])) == names && Join(",", Trimmed(names)) == header
    requires ExportLines(ColumnMapping(names), [m1, m2]) == ([l1, l2], Ok(2))
    ensures CsvOutput([m1, m2]) == ([header + "\n", l1, l2], Ok(2))
  {
    assert [header + "\n"] + [l1, l2] == [header + "\n", l1, l2];
  }

  /** The columns taken from the first of two such messages. */
  lemma HeaderColumnsOfFirst(f: string, m1: Msg, m2: Msg, s: string, secs: string, nsecs: string)
    requires m1 == HeaderMsg(f, s, secs, nsecs)
    ensures SortedOf(FirstMessageNames([m1, m2])) == [Top(f, "seq"), Stamp(f, "nsecs"), Stamp(f, "secs")]
  {
    assert FirstMessageNames([m1, m2]) == FieldNames("", m1);
    HeaderLeaves(f, s, secs, nsecs);
    HeaderColumnsSorted(f);
  }

  /** Both messages' lines are written, each in column order. */
  lemma HeaderExport(f: string, s1: string, secs1: string, nsecs1: string, s2: string, secs2: string, nsecs2: string)
    ensures ExportLines(ColumnMapping([Top(f, "seq"), Stamp(f, "nsecs"), Stamp(f, "secs")]),
                        [HeaderMsg(f, s1, secs1, nsecs1), HeaderMsg(f, s2, secs2, nsecs2)])
         == ([s1 + "," + nsecs1 + "," + secs1 + "\n", s2 + "," + nsecs2 + "," + secs2 + "\n"], Ok(2))
  {
    HeaderLine(f, s1, secs1, nsecs1);
    HeaderLine(f, s2, secs2, nsecs2);
    ExportTwo(ColumnMapping([Top(f, "seq"), Stamp(f, "nsecs"), Stamp(f, "secs")]),
              HeaderMsg(f, s1, secs1, nsecs1), HeaderMsg(f, s2, secs2, nsecs2),
              s1 + "," + nsecs1 + "," + secs1 + "\n", s2 + "," + nsecs2 + "," + secs2 + "\n");
  }

  /**
   * Two such messages export as the header line of the sorted, underscore-trimmed column names
   * and one line per message with its scalars in that column order: `seq`, `nsecs`, `secs`.
   */
  lemma HeaderCsv(f: string, s1: string, secs1: string, nsecs1: string, s2: string, secs2: string, nsecs2: string)
    ensures CsvOutput([HeaderMsg(f, s1, secs1, nsecs1), HeaderMsg(f, s2, secs2, nsecs2)])
         == ([Child(f, "seq") + "," + Child(Child(f, "stamp"), "nsecs") + "," + Child(Child(f, "stamp"), "secs") + "\n",
              s1 + "," + nsecs1 + "," + secs1 + "\n",
              s2 + "," + nsecs2 + "," + secs2 + "\n"], Ok(2))
  {
    var m1, m2 := HeaderMsg(f, s1, secs1, nsecs1), HeaderMsg(f, s2, secs2, nsecs2);
    var names := [Top(f, "seq"), Stamp(f, "nsecs"), Stamp(f, "secs")];
    var header := Child(f, "seq") + "," + Child(Child(f, "stamp"), "nsecs") + "," + Child(Child(f, "stamp"), "secs");
    var l1, l2 := s1 + "," + nsecs1 + "," + secs1 + "\n", s2 + "," + nsecs2 + "," + secs2 + "\n";
    HeaderColumnsOfFirst(f, m1, m2, s1, secs1, nsecs1);
    HeaderText(f);
    HeaderExport(f, s1, secs1, nsecs1, s2, secs2, nsecs2);
    CsvOutputOfTwo(m1, m2, names, header, l1, l2);
  }
}
