/**
 * One CSV data line from a flattened row (write_topic_line): a slot per known column, filled
 * entry by entry, then joined with commas.  The exceptions the source can raise are results.
 */
module CsvLine {
  import opened Wrappers
  import opened Messages
  import opened Rows

  /**
   * KeyError: a key with a value is not a known column.  IndexError: a column index is not below
   * the number of slots.  TypeError: a slot was never set when the slots are joined.
   */
  datatype LineError = KeyError(key: string) | IndexError | TypeError

  type Cells = seq<Option<string>>

  /** The indices of the columns among `keys` whose name starts with `key`. */
  function Blanked(mapping: map<string, nat>, keys: set<string>, key: string): set<nat>
    requires keys <= mapping.Keys
  {
    set tk | tk in keys && StartsWith(tk, key) :: mapping[tk]
  }

  /** `columns[column_mapping[key]] = text` */
  function SetCell(mapping: map<string, nat>, cells: Cells, key: string, text: string): Result<Cells, LineError>
  {
    if key !in mapping then Err(KeyError(key))
    else if mapping[key] >= |cells| then Err(IndexError)
    else Ok(cells[mapping[key] := Some(text)])
  }

  /** An empty list: every known column whose name starts with `key` is set to ''. */
  function Blank(mapping: map<string, nat>, cells: Cells, key: string): Result<Cells, LineError>
  {
    var hit := Blanked(mapping, mapping.Keys, key);
    if exists j :: j in hit && j >= |cells| then Err(IndexError)
    else Ok(seq(|cells|, j requires 0 <= j < |cells| => if j in hit then Some("") else cells[j]))
  }

  /** `'_'.join([str(x) for x in elems])` */
  function ElementsText(elems: seq<Msg>): string {
    Join("_", seq(|elems|, i requires 0 <= i < |elems| => Str(elems[i])))
  }

  /** What one row entry does to the slots. */
  function ApplyEntry(mapping: map<string, nat>, cells: Cells, e: Entry): Result<Cells, LineError>
  {
    var (key, v) := e;
    if v.List? then
      if |v.elems| > 0 then SetCell(mapping, cells, key, ElementsText(v.elems))
      else Blank(mapping, cells, key)
    else SetCell(mapping, cells, key, Str(v))
  }

  /** The slots after the given entries, starting from one unset slot per known column. */
  function Fill(mapping: map<string, nat>, entries: seq<Entry>): Result<Cells, LineError>
  {
    if entries == [] then Ok(seq(|mapping|, _ => None))
    else
      match Fill(mapping, entries[..|entries| - 1])
      case Err(e) => Err(e)
      case Ok(cells) => ApplyEntry(mapping, cells, entries[|entries| - 1])
  }

  /** `','.join(columns) + '\n'`, which fails on an unset slot. */
  function JoinCells(cells: Cells): Result<string, LineError>
  {
    if forall j :: 0 <= j < |cells| ==> cells[j].Some? then
      Ok(Join(",", seq(|cells|, j requires 0 <= j < |cells| => cells[j].value)) + "\n")
    else Err(TypeError)
  }

  /** The line write_topic_line writes for a row, or the exception it raises. */
  function TopicLine(mapping: map<string, nat>, entries: seq<Entry>): Result<string, LineError>
  {
    match Fill(mapping, entries)
    case Err(e) => Err(e)
    case Ok(cells) => JoinCells(cells)
  }

  /** Once an entry fails, the whole line fails with that error. */
  lemma {:induction false} FillStaysFailed(mapping: map<string, nat>, entries: seq<Entry>, i: nat)
    requires i <= |entries| && Fill(mapping, entries[..i]).Err?
    ensures Fill(mapping, entries) == Fill(mapping, entries[..i])
    decreases |entries| - i
  {
    if i < |entries| {
      assert entries[..i + 1][..i] == entries[..i];
      FillStaysFailed(mapping, entries, i + 1);
    } else {
      assert entries[..i] == entries;
    }
  }

  /** The inner loop of the empty-list case, over the known columns. */
  method BlankMatching(columns: array<Option<string>>, mapping: map<string, nat>, key: string) returns (ok: bool)
    modifies columns
    ensures Blank(mapping, old(columns[..]), key) == if ok then Ok(columns[..]) else Err(IndexError)
  {
    ghost var before := columns[..];
    var remaining := mapping.Keys;
    ghost var done: set<string> := {};
    while remaining != {}
      invariant remaining + done == mapping.Keys && remaining !! done
      invariant forall j :: j in Blanked(mapping, done, key) ==> j < columns.Length
      invariant forall j :: 0 <= j < columns.Length ==>
                  columns[j] == if j in Blanked(mapping, done, key) then Some("") else before[j]
      decreases remaining
    {
      var tk :| tk in remaining;
      if StartsWith(tk, key) {
        if mapping[tk] >= columns.Length {
          assert mapping[tk] in Blanked(mapping, mapping.Keys, key);
          return false;
        }
        columns[mapping[tk]] := Some("");
      }
      assert Blanked(mapping, done + {tk}, key) ==
             Blanked(mapping, done, key) + (if StartsWith(tk, key) then {mapping[tk]} else {});
      remaining := remaining - {tk};
      done := done + {tk};
    }
    assert done == mapping.Keys;
    var hit := Blanked(mapping, mapping.Keys, key);
    assert !exists j :: j in hit && j >= |before|;
    assert columns[..] == seq(|before|, j requires 0 <= j < |before| => if j in hit then Some("") else before[j]);
    return true;
  }

  /** write_topic_line on an array of slots, one entry of the row at a time. */
  method WriteTopicLine(mapping: map<string, nat>, values: seq<Entry>) returns (r: Result<string, LineError>)
    ensures r == TopicLine(mapping, values)
  {
    var columns := new Option<string>[|mapping|](_ => None);
    assert values[..0] == [];
    assert columns[..] == seq(|mapping|, _ => None);
    for i := 0 to |values|
      invariant Fill(mapping, values[..i]) == Ok(columns[..])
    {
      assert values[..i + 1][..i] == values[..i];
      var (key, v) := values[i];
      ghost var step := ApplyEntry(mapping, columns[..], values[i]);
      assert Fill(mapping, values[..i + 1]) == step;
      if v.List? && |v.elems| == 0 {
        var ok := BlankMatching(columns, mapping, key);
        if !ok {
          FillStaysFailed(mapping, values, i + 1);
          return Err(IndexError);
        }
      } else {
        var text := if v.List? then ElementsText(v.elems) else Str(v);
        if key !in mapping {
          FillStaysFailed(mapping, values, i + 1);
          return Err(KeyError(key));
        }
        if mapping[key] >= columns.Length {
          FillStaysFailed(mapping, values, i + 1);
          return Err(IndexError);
        }
        columns[mapping[key]] := Some(text);
      }
    }
    assert values[..|values|] == values;
    r := JoinCells(columns[..]);
  }

  // ---- properties of a line ----

  /** Every line that is written has exactly one slot per known column. */
  lemma {:induction false} FillCellCount(mapping: map<string, nat>, entries: seq<Entry>)
    ensures Fill(mapping, entries).Ok? ==> |Fill(mapping, entries).value| == |mapping|
  {
    if entries != [] {
      FillCellCount(mapping, entries[..|entries| - 1]);
    }
  }

  /**
   * A scalar entry sets only its own slot, to its text; a non-empty list sets only its own slot,
   * to its elements' texts joined by `_`; an empty list sets to '' every column whose name starts
   * with the key, whatever follows, and touches no other slot.
   */
  lemma EntryEffect(mapping: map<string, nat>, cells: Cells, key: string, v: Msg)
    ensures !v.List? ==>
      ApplyEntry(mapping, cells, (key, v)) ==
        if key !in mapping then Err(KeyError(key))
        else if mapping[key] >= |cells| then Err(IndexError)
        else Ok(cells[mapping[key] := Some(Str(v))])
    ensures v.List? && |v.elems| > 0 ==>
      ApplyEntry(mapping, cells, (key, v)) ==
        if key !in mapping then Err(KeyError(key))
        else if mapping[key] >= |cells| then Err(IndexError)
        else Ok(cells[mapping[key] := Some(Join("_", seq(|v.elems|, i requires 0 <= i < |v.elems| => Str(v.elems[i]))))])
    ensures v.List? && |v.elems| == 0 ==>
      && (ApplyEntry(mapping, cells, (key, v)).Ok? <==>
            forall tk :: tk in mapping && StartsWith(tk, key) ==> mapping[tk] < |cells|)
      && (ApplyEntry(mapping, cells, (key, v)).Err? ==> ApplyEntry(mapping, cells, (key, v)) == Err(IndexError))
      && (ApplyEntry(mapping, cells, (key, v)).Ok? ==>
            var after := ApplyEntry(mapping, cells, (key, v)).value;
            && |after| == |cells|
            && forall j :: 0 <= j < |cells| ==>
                 after[j] == if exists tk :: tk in mapping && StartsWith(tk, key) && mapping[tk] == j
                             then Some("") else cells[j])
  {
    if v.List? && |v.elems| == 0 {
      var hit := Blanked(mapping, mapping.Keys, key);
      assert forall j :: j in hit <==> exists tk :: tk in mapping && StartsWith(tk, key) && mapping[tk] == j;
      forall tk | tk in mapping && StartsWith(tk, key) ensures mapping[tk] in hit { }
    }
  }

  /** An entry with a value whose key is not a known column makes the whole line fail. */
  lemma MissingKeyFails(mapping: map<string, nat>, entries: seq<Entry>, i: nat)
    requires i < |entries| && entries[i].0 !in mapping
    requires !(entries[i].1.List? && |entries[i].1.elems| == 0)
    ensures TopicLine(mapping, entries).Err?
  {
    assert entries[..i + 1][..i] == entries[..i];
    assert Fill(mapping, entries[..i + 1]).Err?;
    FillStaysFailed(mapping, entries, i + 1);
  }

  /**
   * The first unknown key in dict order is the one the KeyError names: the same two failing
   * entries in the other order report the other key.
   */
  lemma FirstMissingKeyReported(mapping: map<string, nat>, k1: string, k2: string, t1: string, t2: string)
    requires k1 !in mapping && k2 !in mapping
    ensures TopicLine(mapping, [(k1, Scalar(t1)), (k2, Scalar(t2))]) == Err(KeyError(k1))
    ensures TopicLine(mapping, [(k2, Scalar(t2)), (k1, Scalar(t1))]) == Err(KeyError(k2))
  {
    var e1, e2 := (k1, Scalar(t1)), (k2, Scalar(t2));
    assert [e1, e2][..1] == [e1] && [e1][..0] == [];
    assert [e2, e1][..1] == [e2] && [e2][..0] == [];
    assert Fill(mapping, [e1]) == Err(KeyError(k1));
    assert Fill(mapping, [e2]) == Err(KeyError(k2));
  }

  /** When every key of the row is a known column, the line never raises KeyError. */
  lemma {:induction false} KnownKeysRaiseNoKeyError(mapping: map<string, nat>, entries: seq<Entry>)
    requires forall i :: 0 <= i < |entries| ==> entries[i].0 in mapping
    ensures Fill(mapping, entries).Err? ==> !Fill(mapping, entries).error.KeyError?
    ensures TopicLine(mapping, entries).Err? ==> !TopicLine(mapping, entries).error.KeyError?
  {
    if entries != [] {
      KnownKeysRaiseNoKeyError(mapping, entries[..|entries| - 1]);
    }
  }

  /** A slot that no known column maps to is never set, so the line fails when it is joined. */
  lemma {:induction false} UnmappedSlotStaysUnset(mapping: map<string, nat>, entries: seq<Entry>, j: nat)
    requires forall k :: k in mapping ==> mapping[k] != j
    ensures Fill(mapping, entries).Ok? && j < |Fill(mapping, entries).value| ==>
              Fill(mapping, entries).value[j] == None
  {
    if entries != [] {
      UnmappedSlotStaysUnset(mapping, entries[..|entries| - 1], j);
    }
  }

  lemma UnmappedSlotFails(mapping: map<string, nat>, entries: seq<Entry>, j: nat)
    requires j < |mapping|
    requires forall k :: k in mapping ==> mapping[k] != j
    ensures TopicLine(mapping, entries).Err?
  {
    UnmappedSlotStaysUnset(mapping, entries, j);
    FillCellCount(mapping, entries);
  }

  /** The column mapping sends the known names one-to-one onto the slot positions. */
  predicate OneToOneOntoSlots(mapping: map<string, nat>) {
    && (forall k :: k in mapping ==> mapping[k] < |mapping|)
    && (forall k1, k2 :: k1 in mapping && k2 in mapping && k1 != k2 ==> mapping[k1] != mapping[k2])
    && (forall j :: 0 <= j < |mapping| ==> j in mapping.Values)
  }

  lemma {:induction false} ScalarFillPrefix(mapping: map<string, nat>, entries: seq<Entry>, n: nat)
    requires n <= |entries| && DistinctKeys(entries) && OneToOneOntoSlots(mapping)
    requires forall i :: 0 <= i < |entries| ==> !entries[i].1.List? && entries[i].0 in mapping
    ensures Fill(mapping, entries[..n]).Ok?
    ensures var c := Fill(mapping, entries[..n]).value;
      && |c| == |mapping|
      && (forall i :: 0 <= i < n ==> c[mapping[entries[i].0]] == Some(Str(entries[i].1)))
  {
    if n > 0 {
      ScalarFillPrefix(mapping, entries, n - 1);
      assert entries[..n][..n - 1] == entries[..n - 1];
      var c := Fill(mapping, entries[..n - 1]).value;
      var (key, v) := entries[n - 1];
      var c' := c[mapping[key] := Some(Str(v))];
      assert Fill(mapping, entries[..n]) == Ok(c');
      forall i | 0 <= i < n - 1 ensures c'[mapping[entries[i].0]] == Some(Str(entries[i].1)) {
        assert Keys(entries)[i] != Keys(entries)[n - 1];
      }
    } else {
      assert entries[..0] == [];
    }
  }

  /** Every slot of the filled cells is set when each slot is some entry's column. */
  lemma ScalarSlotsSet(mapping: map<string, nat>, entries: seq<Entry>, c: Cells)
    requires OneToOneOntoSlots(mapping) && |c| == |mapping|
    requires forall k :: k in mapping ==> k in Keys(entries)
    requires forall i :: 0 <= i < |entries| ==> entries[i].0 in mapping && c[mapping[entries[i].0]].Some?
    ensures forall j :: 0 <= j < |c| ==> c[j].Some?
  {
    forall j | 0 <= j < |c| ensures c[j].Some? {
      assert j in mapping.Values;
      var k :| k in mapping && mapping[k] == j;
      var i :| 0 <= i < |entries| && Keys(entries)[i] == k;
      assert entries[i].0 == k;
    }
  }

  /**
   * A row of scalar entries with distinct keys, one for each known column, under a mapping that
   * is one-to-one onto the slots: the line is written, with each entry's text in its column's slot.
   */
  lemma ScalarRowLine(mapping: map<string, nat>, entries: seq<Entry>)
    requires DistinctKeys(entries) && OneToOneOntoSlots(mapping)
    requires forall i :: 0 <= i < |entries| ==> !entries[i].1.List?
    requires forall k :: k in mapping <==> k in Keys(entries)
    ensures exists texts: seq<string> ::
      && |texts| == |mapping|
      && (forall i :: 0 <= i < |entries| ==> texts[mapping[entries[i].0]] == Str(entries[i].1))
      && TopicLine(mapping, entries) == Ok(Join(",", texts) + "\n")
  {
    assert forall i :: 0 <= i < |entries| ==> entries[i].0 in mapping by {
      forall i | 0 <= i < |entries| ensures entries[i].0 in mapping {
        assert entries[i].0 == Keys(entries)[i];
      }
    }
    ScalarFillPrefix(mapping, entries, |entries|);
    assert entries[..|entries|] == entries;
    var c := Fill(mapping, entries).value;
    ScalarSlotsSet(mapping, entries, c);
    var texts := seq(|c|, j requires 0 <= j < |c| => c[j].value);
    assert JoinCells(c) == Ok(Join(",", texts) + "\n");
    forall i | 0 <= i < |entries| ensures texts[mapping[entries[i].0]] == Str(entries[i].1) {
      assert c[mapping[entries[i].0]] == Some(Str(entries[i].1));
    }
    assert |texts| == |mapping| && TopicLine(mapping, entries) == Ok(Join(",", texts) + "\n");
  }
}
