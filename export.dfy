/**
 * CSV export of one topic (write_to_csv, write_topic): the header from the first message, then
 * one line per message in order against the column mapping built from the sorted names.  The bag
 * is the sequence of the topic's messages; written lines are returned.
 */
module Export {
  import opened Wrappers
  import opened Messages
  import opened Columns
  import opened Rows
  import opened CsvLine

  /** `dict(zip(names, range(0, len(names))))`: a name repeated keeps its last position. */
  function ColumnMapping(names: seq<string>): map<string, nat>
  {
    if names == [] then map[]
    else ColumnMapping(names[..|names| - 1])[names[|names| - 1] := |names| - 1]
  }

  /** Each name maps to the position of its last occurrence, and nothing else is mapped. */
  lemma {:induction false} ColumnMappingPositions(names: seq<string>)
    ensures forall k :: k in ColumnMapping(names) <==> k in names
    ensures forall k :: k in ColumnMapping(names) ==>
              && ColumnMapping(names)[k] < |names|
              && names[ColumnMapping(names)[k]] == k
              && forall j :: ColumnMapping(names)[k] < j < |names| ==> names[j] != k
  {
    if names != [] {
      var init := names[..|names| - 1];
      ColumnMappingPositions(init);
      assert names == init + [names[|names| - 1]];
      forall k ensures k in ColumnMapping(names) <==> k in names {
        if k in names && k != names[|names| - 1] {
          var i :| 0 <= i < |names| && names[i] == k;
          assert init[i] == k;
        }
      }
    }
  }

  /** The mapping has one slot per distinct name: as many as there are names exactly when no name repeats. */
  lemma {:induction false} ColumnMappingSize(names: seq<string>)
    ensures |ColumnMapping(names)| <= |names|
    ensures |ColumnMapping(names)| == |names| <==> Distinct(names)
  {
    if names != [] {
      var init := names[..|names| - 1];
      var x := names[|names| - 1];
      ColumnMappingSize(init);
      ColumnMappingPositions(init);
      assert names == init + [x];
      if x in init {
        var i :| 0 <= i < |init| && init[i] == x;
        assert names[i] == names[|names| - 1];
      } else {
        assert Distinct(names) <==> Distinct(init) by {
          if Distinct(init) {
            forall i, j | 0 <= i < j < |names| ensures names[i] != names[j] {
              if j < |names| - 1 { assert init[i] != init[j]; } else { assert init[i] in init; }
            }
          }
          if Distinct(names) {
            forall i, j | 0 <= i < j < |init| ensures init[i] != init[j] {
              assert names[i] != names[j];
            }
          }
        }
      }
      assert Distinct(names) ==> Distinct(init) by {
        if Distinct(names) {
          forall i, j | 0 <= i < j < |init| ensures init[i] != init[j] { assert names[i] != names[j]; }
        }
      }
    }
  }

  /** With distinct names, each name maps to its own position, one-to-one onto the slots. */
  lemma DistinctColumnMapping(names: seq<string>)
    requires Distinct(names)
    ensures |ColumnMapping(names)| == |names|
    ensures forall j :: 0 <= j < |names| ==> names[j] in ColumnMapping(names) && ColumnMapping(names)[names[j]] == j
    ensures OneToOneOntoSlots(ColumnMapping(names))
  {
    var m := ColumnMapping(names);
    ColumnMappingSize(names);
    ColumnMappingPositions(names);
    forall j | 0 <= j < |names| ensures names[j] in m && m[names[j]] == j {
      assert names[j] in names;
      var p := m[names[j]];
      assert names[p] == names[j];
    }
    forall j | 0 <= j < |m| ensures j in m.Values {
      assert m[names[j]] == j;
    }
  }

  /** No known column maps to slot `j`. */
  predicate Unreached(mapping: map<string, nat>, j: nat) {
    forall k :: k in mapping ==> mapping[k] != j
  }

  /**
   * When a collected name repeats, some slot of the line is reached by no column: the header has
   * more columns than a line has slots, and one slot is left unset.
   */
  lemma {:induction false} DuplicateNamesLeaveUnsetSlot(names: seq<string>)
    requires !Distinct(names)
    ensures exists j :: 0 <= j < |ColumnMapping(names)| && Unreached(ColumnMapping(names), j)
  {
    var init := names[..|names| - 1];
    var x := names[|names| - 1];
    ColumnMappingSize(init);
    ColumnMappingSize(names);
    if Distinct(init) {
      assert x in init by {
        if x !in init {
          forall i, j | 0 <= i < j < |names| ensures names[i] != names[j] {
            if j < |names| - 1 { assert init[i] != init[j]; } else { assert init[i] in init; }
          }
        }
      }
      DuplicateOfDistinctPrefix(names);
    } else {
      DuplicateNamesLeaveUnsetSlot(init);
      var j :| 0 <= j < |ColumnMapping(init)| && Unreached(ColumnMapping(init), j);
      UnreachedKept(names, j);
    }
  }

  /** The last name repeats an earlier one among distinct names: the earlier position loses its column. */
  lemma DuplicateOfDistinctPrefix(names: seq<string>)
    requires |names| > 0 && Distinct(names[..|names| - 1]) && names[|names| - 1] in names[..|names| - 1]
    ensures exists j :: 0 <= j < |ColumnMapping(names)| && Unreached(ColumnMapping(names), j)
  {
    var init := names[..|names| - 1];
    var x := names[|names| - 1];
    var big := ColumnMapping(names);
    DistinctColumnMapping(init);
    ColumnMappingPositions(names);
    var j := ColumnMapping(init)[x];
    assert big == ColumnMapping(init)[x := |names| - 1];
    forall k | k in big ensures big[k] != j {
      if k != x { assert names[big[k]] == k && init[j] == x; }
    }
    assert Unreached(big, j);
  }

  /** A slot unreached before the last name is still unreached after it, when names already repeated. */
  lemma UnreachedKept(names: seq<string>, j: nat)
    requires |names| > 0 && !Distinct(names[..|names| - 1])
    requires j < |ColumnMapping(names[..|names| - 1])| && Unreached(ColumnMapping(names[..|names| - 1]), j)
    ensures j < |ColumnMapping(names)| && Unreached(ColumnMapping(names), j)
  {
    var init := names[..|names| - 1];
    ColumnMappingSize(init);
    var small := ColumnMapping(init);
    var big := ColumnMapping(names);
    assert big == small[names[|names| - 1] := |names| - 1];
    assert j < |init|;
    forall k | k in big ensures big[k] != j {
      if k != names[|names| - 1] { assert big[k] == small[k]; }
    }
  }

  /** A repeated name makes every line of the export fail, whatever the message holds. */
  lemma DuplicateNamesFailEveryLine(names: seq<string>, entries: seq<Entry>)
    requires !Distinct(names)
    ensures TopicLine(ColumnMapping(names), entries).Err?
  {
    DuplicateNamesLeaveUnsetSlot(names);
    var j :| 0 <= j < |ColumnMapping(names)| && Unreached(ColumnMapping(names), j);
    UnmappedSlotFails(ColumnMapping(names), entries, j);
  }

  /** The row find_field_value builds for a message, starting from an empty dict. */
  function RowOf(mapping: map<string, nat>, m: Msg): seq<Entry>
    requires WellFormed(m)
  {
    PutAll([], Assignments("", m, mapping))
  }

  /** The lines write_topic writes, and the count it reports or the exception that stops it. */
  function ExportLines(mapping: map<string, nat>, messages: seq<Msg>): (seq<string>, Result<nat, LineError>)
    requires forall i :: 0 <= i < |messages| ==> WellFormed(messages[i])
  {
    if messages == [] then ([], Ok(0))
    else
      var (lines, outcome) := ExportLines(mapping, messages[..|messages| - 1]);
      if outcome.Err? then (lines, outcome)
      else
        match TopicLine(mapping, RowOf(mapping, messages[|messages| - 1]))
        case Err(e) => (lines, Err(e))
        case Ok(line) => (lines + [line], Ok(outcome.value + 1))
  }

  /**
   * A completed export writes one line per message, in order, each the line of that message's
   * row, and reports the number of messages; a failed one stops at the first failing message with
   * the lines of the messages before it written.
   */
  lemma {:induction false} ExportLinesSpec(mapping: map<string, nat>, messages: seq<Msg>)
    requires forall i :: 0 <= i < |messages| ==> WellFormed(messages[i])
    ensures var (lines, outcome) := ExportLines(mapping, messages);
      && (outcome.Ok? ==> outcome.value == |messages| == |lines|)
      && (outcome.Err? ==> |lines| < |messages| && TopicLine(mapping, RowOf(mapping, messages[|lines|])) == Err(outcome.error))
      && (forall i :: 0 <= i < |lines| ==> TopicLine(mapping, RowOf(mapping, messages[i])) == Ok(lines[i]))
  {
    if messages != [] {
      var init := messages[..|messages| - 1];
      ExportLinesSpec(mapping, init);
      forall i | 0 <= i < |init| ensures init[i] == messages[i] { }
    }
  }

  lemma {:induction false} ExportStaysFailed(mapping: map<string, nat>, messages: seq<Msg>, i: nat)
    requires forall k :: 0 <= k < |messages| ==> WellFormed(messages[k])
    requires i <= |messages| && ExportLines(mapping, messages[..i]).1.Err?
    ensures ExportLines(mapping, messages) == ExportLines(mapping, messages[..i])
    decreases |messages| - i
  {
    if i < |messages| {
      assert messages[..i + 1][..i] == messages[..i];
      ExportStaysFailed(mapping, messages, i + 1);
    } else {
      assert messages[..i] == messages;
    }
  }

  /** write_topic: a fresh row per message, flattened, written as a line; the count at the end. */
  method WriteTopic(messages: seq<Msg>, columnNames: seq<string>) returns (lines: seq<string>, outcome: Result<nat, LineError>)
    requires forall i :: 0 <= i < |messages| ==> WellFormed(messages[i])
    ensures (lines, outcome) == ExportLines(ColumnMapping(columnNames), messages)
  {
    var mapping := ColumnMapping(columnNames);
    lines := [];
    var msgCount := 1;
    for i := 0 to |messages|
      invariant msgCount == i + 1
      invariant ExportLines(mapping, messages[..i]) == (lines, Ok(msgCount - 1))
    {
      assert messages[..i + 1][..i] == messages[..i];
      msgCount := msgCount + 1;
      var values := new RowDict();
      FindFieldValue("", messages[i], values, mapping);
      var line := WriteTopicLine(mapping, values.entries);
      if line.Err? {
        ExportStaysFailed(mapping, messages, i + 1);
        return lines, Err(line.error);
      }
      lines := lines + [line.value];
    }
    assert messages[..|messages|] == messages;
    outcome := Ok(msgCount - 1);
  }

  /** Everything written to the CSV file: the header line, then the data lines. */
  function CsvOutput(messages: seq<Msg>): (seq<string>, Result<nat, LineError>)
    requires forall i :: 0 <= i < |messages| ==> WellFormed(messages[i])
  {
    var names := SortedOf(FirstMessageNames(messages));
    var (lines, outcome) := ExportLines(ColumnMapping(names), messages);
    ([Join(",", Trimmed(names)) + "\n"] + lines, outcome)
  }

  /** write_to_csv with the bag opened as the topic's messages and the file as the returned lines. */
  method WriteToCsv(messages: seq<Msg>) returns (output: seq<string>, outcome: Result<nat, LineError>)
    requires forall i :: 0 <= i < |messages| ==> WellFormed(messages[i])
    ensures (output, outcome) == CsvOutput(messages)
  {
    var names, header := WriteHeaderLine(messages);
    SortedPermutationUnique(names, SortedOf(FirstMessageNames(messages)));
    var lines;
    lines, outcome := WriteTopic(messages, names);
    output := [header] + lines;
  }

  // ---- end to end ----

  /** Two arrangements of the same names have the same members. */
  lemma SameMembers(a: seq<string>, b: seq<string>)
    requires multiset(a) == multiset(b)
    ensures forall k :: k in a <==> k in b
  {
    assert forall k :: k in a <==> k in multiset(a);
    assert forall k :: k in b <==> k in multiset(b);
  }

  /**
   * The header has one column per collected name; a written line has one slot per distinct name,
   * so the two agree exactly when no name repeats.
   */
  lemma HeaderMatchesLine(names: seq<string>, entries: seq<Entry>)
    ensures |Trimmed(names)| == |names|
    ensures Fill(ColumnMapping(names), entries).Ok? ==>
              (|Fill(ColumnMapping(names), entries).value| == |Trimmed(names)| <==> Distinct(names))
  {
    FillCellCount(ColumnMapping(names), entries);
    ColumnMappingSize(names);
  }

  /** The row of a message of composites and scalars with distinct leaf paths pairs each leaf path with its scalar. */
  lemma ScalarMessageRow(m: Msg, mapping: map<string, nat>)
    requires ListFree(m) && Distinct(FieldNames("", m))
    ensures WellFormed(m) && |FieldNames("", m)| == |LeafValues(m)|
    ensures RowOf(mapping, m) == Zip(FieldNames("", m), LeafValues(m))
    ensures Keys(RowOf(mapping, m)) == FieldNames("", m)
    ensures forall i :: 0 <= i < |RowOf(mapping, m)| ==> RowOf(mapping, m)[i].1.Scalar?
  {
    ListFreeAlignment("", m, mapping);
    var entries := Zip(FieldNames("", m), LeafValues(m));
    assert Keys(entries) == FieldNames("", m);
    PutAllFreshKeys([], entries);
    assert [] + entries == entries;
    forall i | 0 <= i < |entries| ensures entries[i].1.Scalar? {
      assert entries[i].1 == LeafValues(m)[i];
    }
  }

  /**
   * The line for `row` is written, and under the header `names` each entry's text sits in the
   * slot of the column that bears the entry's key.
   */
  ghost predicate LineInColumns(names: seq<string>, mapping: map<string, nat>, row: seq<Entry>) {
    exists texts: seq<string> ::
      && |texts| == |names|
      && (forall i :: 0 <= i < |row| ==>
            && row[i].0 in mapping && mapping[row[i].0] < |texts|
            && names[mapping[row[i].0]] == row[i].0
            && texts[mapping[row[i].0]] == Str(row[i].1))
      && TopicLine(mapping, row) == Ok(Join(",", texts) + "\n")
  }

  /**
   * A row of scalars whose keys are exactly the columns of a one-to-one mapping onto the slots:
   * the slot a key maps to is the column the header names after it, and holds its value's text.
   */
  lemma ScalarRowAgainstColumns(names: seq<string>, mapping: map<string, nat>, row: seq<Entry>)
    requires DistinctKeys(row) && OneToOneOntoSlots(mapping) && |mapping| == |names|
    requires forall k :: k in mapping ==> mapping[k] < |names| && names[mapping[k]] == k
    requires forall k :: k in mapping <==> k in Keys(row)
    requires forall i :: 0 <= i < |row| ==> row[i].1.Scalar?
    ensures LineInColumns(names, mapping, row)
  {
    ScalarRowLine(mapping, row);
    var texts :| && |texts| == |mapping|
                 && (forall i :: 0 <= i < |row| ==> texts[mapping[row[i].0]] == Str(row[i].1))
                 && TopicLine(mapping, row) == Ok(Join(",", texts) + "\n");
    forall i | 0 <= i < |row| ensures row[i].0 in mapping {
      assert row[i].0 == Keys(row)[i];
    }
  }

  /**
   * A message of composites and scalars whose leaf paths are distinct, exported against the
   * columns taken from itself: its row pairs each leaf path with its scalar, the line is
   * written, and the slot at the column of each leaf's path holds that leaf's text.
   */
  lemma ScalarMessageLine(m: Msg, names: seq<string>, mapping: map<string, nat>)
    requires ListFree(m) && Distinct(FieldNames("", m))
    requires names == SortedOf(FieldNames("", m)) && mapping == ColumnMapping(names)
    ensures WellFormed(m)
    ensures LineInColumns(names, mapping, RowOf(mapping, m))
  {
    ListFreeIsWellFormed(m);
    var row := RowOf(mapping, m);
    assert && DistinctKeys(row) && OneToOneOntoSlots(mapping) && |mapping| == |names|
           && (forall k :: k in mapping ==> mapping[k] < |names| && names[mapping[k]] == k)
           && (forall k :: k in mapping <==> k in Keys(row))
           && (forall i :: 0 <= i < |row| ==> row[i].1.Scalar?) by {
      ScalarMessageRow(m, mapping);
      SortedColumns(FieldNames("", m), names, mapping);
    }
    ScalarRowAgainstColumns(names, mapping, row);
  }

  /** The columns of distinct field names, sorted: one slot per name, and a name's slot holds it. */
  lemma SortedColumns(fn: seq<string>, names: seq<string>, mapping: map<string, nat>)
    requires Distinct(fn) && names == SortedOf(fn) && mapping == ColumnMapping(names)
    ensures OneToOneOntoSlots(mapping) && |mapping| == |names|
    ensures forall k :: k in mapping ==> mapping[k] < |names| && names[mapping[k]] == k
    ensures forall k :: k in mapping <==> k in fn
  {
    SortedOfDistinct(fn);
    SameMembers(names, fn);
    ColumnMappingPositions(names);
    DistinctColumnMapping(names);
  }

  /**
   * The message of the nested-list example, exported against its own columns: the row holds
   * `_poses_x`, which no column has, and the line fails with a KeyError.
   */
  lemma NestedTemplateLineFails()
    ensures
      var m := Composite([("poses", List([Composite([("position", Composite([("x", Scalar("1"))]))])]))]);
      && WellFormed(m)
      && TopicLine(ColumnMapping(SortedOf(FieldNames("", m))), RowOf(ColumnMapping(SortedOf(FieldNames("", m))), m))
           == Err(KeyError("_poses_x"))
  {
    var m := Composite([("poses", List([Composite([("position", Composite([("x", Scalar("1"))]))])]))]);
    NestedTemplateKeyNotAColumn();
    var names := SortedOf(["_poses_position_x"]);
    assert names == ["_poses_position_x"] by {
      assert SortedOf(["_poses_position_x"][..0]) == [];
      assert ["_poses_position_x"][..0] == [];
    }
    var mapping := ColumnMapping(names);
    assert mapping == map["_poses_position_x" := 0] by {
      assert names[..0] == [];
    }
    var entries := Assignments("", m, mapping);
    assert entries == [("_poses_x", Scalar("1"))];
    assert RowOf(mapping, m) == [("_poses_x", Scalar("1"))] by {
      assert entries[..0] == [];
    }
    MissingKeyFails(mapping, RowOf(mapping, m), 0);
    assert [("_poses_x", Scalar("1"))][..1][..0] == [];
    assert [("_poses_x", Scalar("1"))][..1] == [("_poses_x", Scalar("1"))];
  }

  /** The columns of a list field `f` of `{x, q: {x}}` composites: `_f_q_x` sorts before `_f_x`. */
  lemma NestedListColumns(f: string)
    ensures var x := Child(Child("", f), "x");
      var qx := Child(Child(Child("", f), "q"), "x");
      ColumnMapping(SortedOf([x, qx])) == map[qx := 0, x := 1]
  {
    var p := Child("", f) + "_";
    var x := Child(Child("", f), "x");
    var qx := Child(Child(Child("", f), "q"), "x");
    assert x == p + "x" && qx == p + "q_x";
    assert LexLe("q_x", "x");
    LexLeCommonPrefix(p, "q_x", "x");
    assert [x, qx][..1] == [x] && [x][..0] == [];
    assert SortedOf([x]) == [x];
    assert SortedOf([x, qx]) == Insert(qx, [x]);
    assert Insert(qx, [x]) == [qx, x];
    assert [qx, x][..1] == [qx] && [qx][..0] == [];
    assert ColumnMapping([qx]) == map[qx := 0];
    assert ColumnMapping([qx, x]) == map[qx := 0][x := 1];
  }

  /**
   * The list field `f` of `{x: a, q: {x: b}}` exported against its own columns `_f_q_x`, `_f_x`:
   * the gathered `_f_x` is overwritten by `b`, `_f_q_x` is never set, and the line fails.
   */
  lemma GatheredColumnLineFails(f: string, a: string, b: string)
    ensures
      var m := Composite([(f, List([Composite([("x", Scalar(a)), ("q", Composite([("x", Scalar(b))]))])]))]);
      && WellFormed(m)
      && TopicLine(ColumnMapping(SortedOf(FieldNames("", m))), RowOf(ColumnMapping(SortedOf(FieldNames("", m))), m))
           == Err(TypeError)
  {
    var m := Composite([(f, List([Composite([("x", Scalar(a)), ("q", Composite([("x", Scalar(b))]))])]))]);
    var x := Child(Child("", f), "x");
    var q := Child(Child("", f), "q");
    var qx := Child(q, "x");
    NestedListColumns(f);
    var mapping := map[qx := 0, x := 1];
    assert q != x by { assert q[|q| - 1] == 'q' && x[|x| - 1] == 'x'; }
    assert q != qx by { assert |qx| > |q|; }
    GatheredColumnOverwritten(f, a, b, mapping);
    assert RowOf(mapping, m) == [(x, Scalar(b))];
    assert x != qx by { assert |qx| > |x|; }
    TwoColumnsSecondSet(mapping, qx, x, b);
  }

  lemma TwoColumnsSecondSet(mapping: map<string, nat>, k0: string, k1: string, b: string)
    requires k0 != k1 && mapping == map[k0 := 0, k1 := 1]
    ensures TopicLine(mapping, [(k1, Scalar(b))]) == Err(TypeError)
  {
    assert |mapping| == 2 by {
      assert mapping.Keys == {k0} + {k1};
      assert |{k0} + {k1}| == 2;
    }
    var none: Cells := [None, None];
    assert seq(|mapping|, _ => None) == none;
    var row := [(k1, Scalar(b))];
    assert row[..0] == [];
    assert Fill(mapping, []) == Ok(none);
    assert none[1 := Some(b)] == [None, Some(b)];
    assert SetCell(mapping, none, k1, b) == Ok([None, Some(b)]);
    assert Fill(mapping, row) == Ok([None, Some(b)]);
  }

  /** The same message walked as intended: both columns are set and the line is `b,a`. */
  lemma IntendedGatheredColumnLine(f: string, a: string, b: string)
    ensures
      var m := Composite([(f, List([Composite([("x", Scalar(a)), ("q", Composite([("x", Scalar(b))]))])]))]);
      var mapping := ColumnMapping(SortedOf(FieldNames("", m)));
      && WellFormed(m)
      && TopicLine(mapping, PutAll([], IntendedAssignments("", m, mapping))) == Ok(b + "," + a + "\n")
  {
    var x := Child(Child("", f), "x");
    var q := Child(Child("", f), "q");
    var qx := Child(q, "x");
    NestedListColumns(f);
    var mapping := map[qx := 0, x := 1];
    assert q != x by { assert q[|q| - 1] == 'q' && x[|x| - 1] == 'x'; }
    assert q != qx by { assert |qx| > |q|; }
    IntendedGatheredColumnKept(f, a, b, mapping);
    assert x != qx by { assert |qx| > |x|; }
    TwoColumnsBothSet(mapping, qx, x, a, b);
  }

  lemma TwoColumnsBothSet(mapping: map<string, nat>, k0: string, k1: string, a: string, b: string)
    requires k0 != k1 && mapping == map[k0 := 0, k1 := 1]
    ensures TopicLine(mapping, [(k1, List([Scalar(a)])), (k0, Scalar(b))]) == Ok(b + "," + a + "\n")
  {
    assert |mapping| == 2 by {
      assert mapping.Keys == {k0} + {k1};
      assert |{k0} + {k1}| == 2;
    }
    var none: Cells := [None, None];
    assert seq(|mapping|, _ => None) == none;
    var row := [(k1, List([Scalar(a)])), (k0, Scalar(b))];
    assert row[..1] == [row[0]] && row[..1][..0] == [] && row[..2] == row;
    assert ElementsText([Scalar(a)]) == a;
    assert Fill(mapping, []) == Ok(none);
    assert none[1 := Some(a)] == [None, Some(a)];
    assert SetCell(mapping, none, k1, a) == Ok([None, Some(a)]);
    assert Fill(mapping, row[..1]) == Ok([None, Some(a)]);
    var half: Cells := [None, Some(a)];
    assert half[0 := Some(b)] == [Some(b), Some(a)];
    assert SetCell(mapping, half, k0, b) == Ok([Some(b), Some(a)]);
    assert Fill(mapping, row) == Ok([Some(b), Some(a)]);
    var texts := [b, a];
    assert seq(2, j requires 0 <= j < 2 => [Some(b), Some(a)][j].value) == texts;
    assert Join(",", texts) == b + "," + a by { assert texts[1..] == [a]; }
  }

  /**
   * With the non-column slot walked into under its extended name, flattening the first message
   * against the columns taken from it records only known columns, so its line raises no KeyError.
   */
  lemma IntendedFirstMessageKeysKnown(m: Msg)
    requires WellFormed(m)
    ensures var mapping := ColumnMapping(SortedOf(FieldNames("", m)));
      forall e :: e in IntendedAssignments("", m, mapping) ==> e.0 in mapping
    ensures var mapping := ColumnMapping(SortedOf(FieldNames("", m)));
      var line := TopicLine(mapping, PutAll([], IntendedAssignments("", m, mapping)));
      line.Err? ==> !line.error.KeyError?
  {
    var fn := FieldNames("", m);
    var names := SortedOf(fn);
    var mapping := ColumnMapping(names);
    ColumnMappingPositions(names);
    SameMembers(names, fn);
    IntendedKeysAreColumns("", m, mapping);
    var a := IntendedAssignments("", m, mapping);
    var row := PutAll([], a);
    PutAllKeys([], a);
    forall i | 0 <= i < |row| ensures row[i].0 in mapping {
      assert row[i].0 == Keys(row)[i];
      assert row[i].0 in Keys(a);
      var j :| 0 <= j < |a| && Keys(a)[j] == row[i].0;
      assert a[j] in a;
    }
    KnownKeysRaiseNoKeyError(mapping, row);
  }
}
