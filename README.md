# bag2csv core, modelled in Dafny

`bag_reader.py` reads a ROS bag and does one of three things:

- **Info mode** prints, for each topic, the field tree of the topic's first message.
- **Stats mode** (`display_stats`) prints the bag's metadata; it is not part of this model (see "## Left out").
- **Export mode** writes every message of one topic to a CSV file:
  - the header line is the sorted leaf paths of the first message, with `_` joining the path segments and the leading `_` removed;
  - each data line holds a message's leaf values in header order.

This project models that logic. It covers:

- the argument check;
- the schema tree;
- the column namer, with Python's string order and `list.sort`;
- the row flattener, with its dict in insertion order (the order of Python 3.7 and later; under Python 2 the order of a dict's keys is unspecified; see "## Left out");
- the line writer, with its slot array and the exceptions it can raise;
- the export loop and its name→index map.

A message is a `Msg`:

- `Composite` for a value with `__slots__`;
- `List` for a Python list;
- `Scalar` for anything else, holding the text `str()` gives for it.

The bag is the sequence of the topic's messages. Printed and written lines are returned as sequences of strings. Exceptions are `Result` errors:

- `KeyError`: a row key that has no column;
- `IndexError`: a column index past the end of the slots;
- `TypeError`: `','.join` meets a slot that was never set.

Modules, one per part of the tool:

- `Messages` (`messages.dfy`): the message shape, `'_'.join`, `getattr`, and the homogeneity a recorded array has.
- `Args` (`args.dfy`): `validate_args`.
- `Schema` (`schema.dfy`): `print_topic_fields` and the topic loop of `display_bag_info`.
- `Columns` (`columns.dfy`): `get_field_names`, with the caller's list as class `NameList`, and `write_header_line`, with `list.sort` as `NameList.Sort` against `SortedOf`.
- `Rows` (`rows.dfy`): `find_field_value`, with the caller's dict as class `RowDict`.
- `CsvLine` (`csv_line.dfy`): `write_topic_line`, on an `array` of slots.
- `Export` (`export.dfy`): `write_topic`, its `msg_count` loop, `write_to_csv`, and the whole-export properties.
- `Example` (`example.dfy`): the worked export of two header-shaped messages.
- `Wrappers` (`wrappers.dfy`): `Option` and `Result`.

Each imperative member is proved against a function:

- `GetFieldNames` appends exactly `FieldNames`.
- `NameList.Sort` leaves `SortedOf` of the old items.
- `FindFieldValue` leaves the old row with `Assignments` applied in order.
- `WriteTopicLine` returns `TopicLine`.
- `WriteTopic` returns `ExportLines`.
- `WriteToCsv` returns `CsvOutput`.

The lemmas then state what those functions promise.

## Model

| member | source | states |
|---|---|---|
| Args.ValidateArgs | bag_reader.py:59-91 | Accepted iff a bag path is given, the file exists, and exactly one mode is chosen: info alone, stats alone, or topic and output file together with neither flag. Accepted prints nothing; rejected prints exactly one message, the one for the first check that failed. |
| Messages.Child | bag_reader.py:236 | `'_'.join([prefix, slot])` is the prefix, one `_`, then the slot, and nothing else. |
| Messages.HasTemplate | bag_reader.py:237 | `len(msg) > 0 and hasattr(msg[0], '__slots__')`, the same test as at lines 160 and 279: a non-empty list whose first element is a composite, the case in which every walk descends into the first element's slots. `Schema.FieldLinesHead` and `Columns.FieldNamesExtendPrefix` state how it decides the shape. |
| Messages.SlotNames | bag_reader.py:153 | `__slots__` lists each slot's name in declaration order. |
| Messages.Field | bag_reader.py:154 | `getattr` on a composite yields the value of a slot bearing that name. |
| Messages.NatToString | bag_reader.py:128 | `%u` renders a count as its decimal digits: a non-empty string of digits, without a leading zero, whose value (`DecValue`) is the count. |
| Messages.Join | bag_reader.py:222 | `sep.join(parts)`: the parts with `sep` between neighbours; the empty list joins to `''`. Its uses are stated in `CsvLine.ScalarRowLine`, `Columns.WriteHeaderLine` and `Example.HeaderText`. |
| Messages.StartsWith | bag_reader.py:325 | `str.startswith`: the string begins with the given prefix. `CsvLine.BlankMatching` and `CsvLine.EntryEffect` state how it selects the slots blanked. |
| Messages.Str | bag_reader.py:316-329 | `str()` of a value: a scalar's own text; lists and nested messages approximately (see Left out). `CsvLine.EntryEffect` states which text each entry writes. |
| Schema.FieldLines | bag_reader.py:148-168 | `print_topic_fields` on one field: its name line, then the lines of its slots one level deeper, or of the first element's slots for a list of composites; nothing for any other list. `Schema.FieldLinesIndented`, `Schema.FieldLinesHead` and `Schema.ListUsesFirstElement` state its properties. |
| Schema.SlotLines | bag_reader.py:153-163 | The loop over a composite's slots: each slot's lines in declaration order, stated through `Schema.FieldLinesIndented`. |
| Schema.TopicTrees | bag_reader.py:119-124 | The topic loop of info mode: for each listed topic with a message, the tree of its first message and a blank line; a topic without messages prints nothing. `Schema.DummyTopicInfo` states it for one topic. |
| Schema.Indent | bag_reader.py:152 | The indentation at depth d is exactly 2·d spaces. |
| Schema.FieldLinesIndented | bag_reader.py:148-168 | Every printed line of a field starts with the field's own indentation, and every line after the field's first line is indented at least one level deeper. |
| Schema.FieldLinesHead | bag_reader.py:148-168 | The first line is the field's name for a composite or a scalar, and `name[]` for a list whose first element is composite. A scalar prints exactly one line. Any other list prints nothing, and only such a list does. |
| Schema.ListUsesFirstElement | bag_reader.py:160-163 | Only the first element of a list is printed: `[e1, e2, …]` prints the same lines as `[e1]`. |
| Schema.InfoOutput | bag_reader.py:119-128 | The last line of info mode is `Found n topics`, with n the number of listed topics, whether or not each has a message. |
| Schema.DummyTopicInfo | bag_reader.py:119-128 | For topic `/ns/dummy` whose first message has a `header`, info mode prints the indented tree `header`, `seq`, `stamp`, `secs`, `nsecs`, then a blank line and `Found 1 topics`. |
| Columns.NameList.constructor | bag_reader.py:210 | A new list is empty. |
| Columns.NameList.Append | bag_reader.py:241 | Appending adds the name at the end and keeps the earlier names. |
| Columns.NameList.Sort | bag_reader.py:220 | `list.sort()` leaves the sorted arrangement of the old items. |
| Columns.GetFieldNames | bag_reader.py:228-241 | The list afterwards is its old contents followed by the leaf paths of the message, in slot order. Earlier names are untouched. |
| Columns.FieldNames | bag_reader.py:234-241 | `get_field_names` as a value: the names it appends. `Columns.FieldNamesAreLeafPaths` states what they are; `Columns.GetFieldNames` is proved against it. |
| Columns.SlotFieldNames | bag_reader.py:235-239 | The slot loop of `get_field_names`, slot by slot in declaration order, stated through `Columns.FieldNamesAreLeafPaths`. |
| Columns.PathName | bag_reader.py:236-239 | The name of a leaf: the prefix extended by `_` and one slot name per step of the path. |
| Columns.FieldNamesAreLeafPaths | bag_reader.py:234-241 | The collected names are exactly the names of the message's leaf paths: every collected name is `PathName` of some leaf path, and every leaf path's name is collected. A leaf path goes through a composite's slots, or a list's first element's slots, down to a value that is neither. |
| Columns.FieldNamesExtendPrefix | bag_reader.py:234-241 | Below a composite or a list of composites, every name extends the prefix with `_` and further segments. For a scalar or any other list, the only name is the prefix itself. The exact names are stated by `Columns.FieldNamesAreLeafPaths`. |
| Columns.ListUsesFirstElement | bag_reader.py:237-239 | Only the first element of a list is sampled for names: `[e1, e2, …]` names exactly what `[e1]` does. |
| Columns.LexLe | bag_reader.py:220 | Python's `<=` on strings: code-point order, a proper prefix first. Its order properties are the four lemmas below. |
| Columns.LexLeReflexive | bag_reader.py:220 | Python's string order is reflexive. |
| Columns.LexLeTotal | bag_reader.py:220 | Any two strings are comparable. |
| Columns.LexLeTransitive | bag_reader.py:220 | The order is transitive. |
| Columns.LexLeAntisymmetric | bag_reader.py:220 | Two strings that are each no later than the other are equal. |
| Columns.LexLeCommonPrefix | bag_reader.py:220 | Comparing two names that share a prefix compares what follows the prefix. |
| Columns.Insert | bag_reader.py:220 | Inserting a name adds exactly that name to the multiset, and keeps a sorted list sorted. |
| Columns.SortedOf | bag_reader.py:220 | The sorted result is in ascending code-point order and is a permutation of the input. Columns therefore come out in code-point order, not declaration order: a `header` field gives `header_seq,header_stamp_nsecs,header_stamp_secs` (`Example.HeaderCsv`). |
| Columns.SortedPermutationUnique | bag_reader.py:220 | Two sorted permutations of the same names are equal, so the result of sorting does not depend on the sorting algorithm. |
| Columns.SortedOfDistinct | bag_reader.py:220 | Sorting distinct names leaves them distinct. |
| Columns.DropFirst | bag_reader.py:221 | `col[1:]` is the name without its first character; an empty name stays empty. |
| Columns.Trimmed | bag_reader.py:221 | Trimming keeps one entry per column, in order, each without its first character. |
| Columns.FirstMessageNames | bag_reader.py:215-217 | The loop that reads the topic's first message, collects its names, and breaks: no names for a topic without messages. `Columns.WriteHeaderLine` states its result against it. |
| Columns.WriteHeaderLine | bag_reader.py:203-225 | The names returned are a sorted permutation of the first message's names, and only that message's. The header is those names, each trimmed, joined by `,`, with `\n` at the end. A topic without messages gives no names and the header `\n`. |
| Rows.RowDict.constructor | bag_reader.py:259 | Each message starts from an empty dict. |
| Rows.RowDict.Put | bag_reader.py:293-297 | `d[k] = v` on the insertion-ordered dict. |
| Rows.Assign | bag_reader.py:293-297 | `d[k] = v` on the insertion-ordered dict, as a value; `Rows.RowDict.Put` is proved against it and the lemmas below state its effect. |
| Rows.PutAll | bag_reader.py:270-297 | The dict after a run of assignments, made in order; `Rows.FindFieldValue` is proved against it. |
| Rows.PutAllKeys | bag_reader.py:293-297 | After a run of assignments, the keys are the old keys and the keys assigned, and no others. |
| Rows.AssignKeys | bag_reader.py:293-297 | Assigning keeps the key order. A new key goes last; an existing key keeps its place. |
| Rows.AssignFresh | bag_reader.py:293-297 | Assigning a key the dict lacks appends the pair. |
| Rows.AssignValues | bag_reader.py:293-297 | With distinct keys, assigning changes only the value under that key. |
| Rows.AssignDistinct | bag_reader.py:293-297 | Assigning keeps the keys distinct. |
| Rows.PutAllConcat | bag_reader.py:270-297 | Making assignments a, then b, equals making a followed by b. |
| Rows.PutAllFreshKeys | bag_reader.py:270-297 | Assignments with new, distinct keys leave exactly those pairs, appended in order. |
| Rows.Gather | bag_reader.py:290-292 | The gathered list has one value per element, each that element's slot. |
| Rows.GatherSlot | bag_reader.py:290-293 | The loop over the elements collects exactly `Gather`. |
| Rows.Assignments | bag_reader.py:270-297 | `find_field_value` as the sequence of assignments it makes, with `Rows.SlotAssignments`, `Rows.TemplateAssignments` and `Rows.TemplateSlot` for its loops. Stated through `Rows.ListFreeAlignment`, `Rows.GatheredColumn` and the findings below. |
| Rows.SlotAssignments | bag_reader.py:276-278 | The slot loop of a composite: each slot's assignments under its extended prefix, in declaration order. |
| Rows.TemplateAssignments | bag_reader.py:287-295 | The slot loop over a list's first element, slot by slot. |
| Rows.TemplateSlot | bag_reader.py:288-295 | One slot of that loop: the gathered values when the extended name is a column, otherwise the walk into the first element's slot under the list's own prefix, as written. |
| Rows.IntendedAssignments | bag_reader.py:287-295 | The corrected walk: the same as `Rows.Assignments`, except that a non-column slot is walked into under its extended name. `Rows.IntendedKeysAreColumns` and `Rows.IntendedGatheredColumnKept` state what that fixes. |
| Rows.FindFieldValue | bag_reader.py:270-297 | The dict afterwards is the old dict with the message's assignments made in order. Composites recurse with the extended prefix. A list of composites gathers each column slot and walks into other slots with the unchanged prefix. Anything else is stored whole under the prefix. |
| Rows.ListFreeAlignment | bag_reader.py:270-297 | For a message of composites and scalars, find_field_value makes one assignment per name that get_field_names produces, in the same order, each of the scalar at that path, whatever the known columns are. |
| Rows.GatheredColumn | bag_reader.py:287-293 | For a list of composites whose extended slot name is a column, an assignment is made of that column to the slot of every element, in order, as many values as elements. A later assignment may overwrite it (`Rows.GatheredColumnOverwritten`). |
| Rows.NestedTemplateKeyNotAColumn | bag_reader.py:295 | Message `poses: [{position: {x: 1}}]`: its only name is `_poses_position_x`, but the row key recorded is `_poses_x`, which is not a column. |
| Rows.GatheredColumnOverwritten | bag_reader.py:287-297 | List field `f` of `{x: a, q: {x: b}}`, with column `_f_x` known and `_f_q` not: the names are `_f_x`, `_f_q_x`. The walk assigns `_f_x` the gathered `[a]`, then `b` from the inner `x`, and the row holds only `_f_x: b`. |
| Rows.IntendedGatheredColumnKept | bag_reader.py:287-297 | The same message walked as intended assigns `_f_x` the gathered `[a]` and `_f_q_x` the value `b`, and the row keeps both. |
| Rows.IntendedKeysAreColumns | bag_reader.py:287-295 | With the walk into a non-column slot done under its extended name, every key recorded against columns that include the message's own names is a column. |
| CsvLine.SetCell | bag_reader.py:316-329 | `columns[column_mapping[key]] = text`: a KeyError for an unknown key, an IndexError past the end, otherwise that one slot set. Stated by `CsvLine.EntryEffect`. |
| CsvLine.Blank | bag_reader.py:324-326 | The empty-list case: `''` in every slot whose column name starts with the key, or IndexError. `CsvLine.BlankMatching` is proved against it. |
| CsvLine.ElementsText | bag_reader.py:316 | `'_'.join([str(x) for x in values])`: the elements' texts joined by `_`. Stated by `CsvLine.EntryEffect`. |
| CsvLine.ApplyEntry | bag_reader.py:309-329 | One row entry: a non-empty list joined with `_`, an empty list blanked, anything else its `str()`. Stated by `CsvLine.EntryEffect`. |
| CsvLine.Fill | bag_reader.py:306-329 | The slots after the entries are applied in order, from `len(column_mapping)` unset slots; the first exception stops it. `CsvLine.FillCellCount`, `CsvLine.FillStaysFailed` and `CsvLine.UnmappedSlotStaysUnset` state its properties. |
| CsvLine.JoinCells | bag_reader.py:332 | `','.join(columns) + '\n'`: a TypeError when a slot is unset. Stated by `CsvLine.UnmappedSlotFails` and `CsvLine.ScalarRowLine`. |
| CsvLine.TopicLine | bag_reader.py:306-332 | The line of one row, or its first exception; `CsvLine.WriteTopicLine` is proved against it. |
| CsvLine.FirstMissingKeyReported | bag_reader.py:308-329 | Two entries whose keys are both unknown: the KeyError names the key of the entry visited first, so visiting them in the other order reports the other key. |
| CsvLine.KnownKeysRaiseNoKeyError | bag_reader.py:316-329 | When every key of the row is a column, neither the slots nor the line fail with KeyError. |
| CsvLine.FillStaysFailed | bag_reader.py:308-329 | Once an entry raises, the line raises that same error, whatever entries follow. |
| CsvLine.BlankMatching | bag_reader.py:324-326 | The loop over the known columns sets to `''` every slot whose column name starts with the key, and changes no other slot. It reports IndexError exactly when such a slot is past the end. |
| CsvLine.WriteTopicLine | bag_reader.py:300-333 | The array filled entry by entry, then joined, gives exactly `TopicLine`: the line, or the first exception. |
| CsvLine.FillCellCount | bag_reader.py:306 | A filled line has exactly one slot per key of the mapping. |
| CsvLine.EntryEffect | bag_reader.py:308-329 | A scalar sets only its own slot, to its text. A non-empty list sets only its own slot, to its elements' texts joined by `_`. An empty list sets `''` in every column whose name starts with the key, even `_ab` for key `_a`, and touches nothing else. A missing key is a KeyError; a slot past the end is an IndexError. |
| CsvLine.MissingKeyFails | bag_reader.py:329 | An entry with a value whose key is not a column makes the whole line fail. |
| CsvLine.UnmappedSlotStaysUnset | bag_reader.py:306-329 | A slot that no column maps to is never set. |
| CsvLine.UnmappedSlotFails | bag_reader.py:332 | Such a slot makes the join fail, so the line is not written. |
| CsvLine.ScalarRowLine | bag_reader.py:327-332 | A scalar row with distinct keys, one per column, under a one-to-one mapping onto the slots: the line is written, with each entry's text in its column's slot. |
| Export.ColumnMapping | bag_reader.py:250 | `dict(zip(names, range(len(names))))`, a later name overriding an earlier equal one. Stated by the three lemmas below. |
| Export.ColumnMappingPositions | bag_reader.py:250 | `dict(zip(names, range))` maps exactly the collected names, each to the position of its last occurrence. |
| Export.ColumnMappingSize | bag_reader.py:250 | The mapping has at most one key per name, and exactly as many keys as names iff no name repeats. |
| Export.DistinctColumnMapping | bag_reader.py:250 | With distinct names, each name maps to its own position, one-to-one onto the slots. |
| Export.DuplicateNamesLeaveUnsetSlot | bag_reader.py:250-306 | When a name repeats, some slot of the line is reached by no column. |
| Export.DuplicateNamesFailEveryLine | bag_reader.py:250-332 | When a name repeats, every line of the export fails, whatever the message holds. |
| Export.RowOf | bag_reader.py:259-263 | The row of one message: the fresh dict after `find_field_value`, stated through `Export.ScalarMessageRow`. |
| Export.ExportLines | bag_reader.py:255-267 | The lines of the export loop and its outcome; `Export.WriteTopic` is proved against it and `Export.ExportLinesSpec` states it. |
| Export.ExportLinesSpec | bag_reader.py:255-267 | A completed export writes one line per message, in order, each the line of that message's row, and reports the number of messages. A failed export stops at the first failing message, with the earlier lines written. |
| Export.ExportStaysFailed | bag_reader.py:256-265 | After a message's line raises, later messages change nothing. |
| Export.WriteTopic | bag_reader.py:244-267 | The loop gives exactly `ExportLines` under the mapping of the given names. It uses a fresh dict per message and ends with `msg_count - 1` messages. |
| Export.CsvOutput | bag_reader.py:188-200 | The file of an export: the header line followed by the lines of `Export.ExportLines`; `Export.WriteToCsv` is proved against it and `Example.HeaderCsv` states it for a worked message pair. |
| Export.WriteToCsv | bag_reader.py:188-200 | The file holds the header line, then the data lines: exactly `CsvOutput`. |
| Export.SameMembers | bag_reader.py:220 | Sorting does not change which names are present. |
| Export.HeaderMatchesLine | bag_reader.py:221-306 | The header has one column per collected name. A written line has one slot per distinct name, so the two agree iff no name repeats. |
| Export.ScalarMessageRow | bag_reader.py:270-297 | For a message of composites and scalars with distinct leaf paths, the row pairs each leaf path, in header-collection order, with its scalar. |
| Export.ScalarRowAgainstColumns | bag_reader.py:308-332 | A scalar row whose keys are exactly the columns: the line is written, and the slot a key maps to is the column the header names after it and holds its text. |
| Export.SortedColumns | bag_reader.py:220-250 | For distinct names, sorted and mapped: one slot per name, each name's slot holds it, and exactly the collected names are mapped. |
| Export.ScalarMessageLine | bag_reader.py:244-333 | A message of composites and scalars with distinct leaf paths, exported against its own sorted columns: the line is written, and each row entry's text stands in the slot of the header column that bears its key. The row pairs each leaf path with its scalar (`Export.ScalarMessageRow`). |
| Export.NestedTemplateLineFails | bag_reader.py:295 | Exporting `poses: [{position: {x: 1}}]` against its own columns fails with `KeyError('_poses_x')`. |
| Export.IntendedFirstMessageKeysKnown | bag_reader.py:287-329 | With the corrected walk, every key the first message assigns is one of its own columns, and the line of the row those assignments leave never fails with KeyError. |
| Export.NestedListColumns | bag_reader.py:220-250 | The columns of a list field `f` of `{x, q: {x}}` composites: `_f_q_x` sorts before `_f_x`, so they map to slots 0 and 1. |
| Export.GatheredColumnLineFails | bag_reader.py:244-333 | That message exported against its own columns: `_f_x` is overwritten by `b`, `_f_q_x` is never set, and the line fails with TypeError. |
| Export.IntendedGatheredColumnLine | bag_reader.py:244-333 | With the corrected walk, the same message's line is `b,a`. |
| Example.HeaderLeaves | bag_reader.py:234-241 | A header-shaped field `f` yields the leaf paths `_f_seq`, `_f_stamp_secs`, `_f_stamp_nsecs`, with its scalars in that order. |
| Example.HeaderColumnOrder | bag_reader.py:220 | In code-point order, `_f_seq` precedes both stamp columns, and `_f_stamp_nsecs` precedes `_f_stamp_secs`. |
| Example.HeaderColumnsSorted | bag_reader.py:220 | Sorting the header's paths moves `nsecs` before `secs`. |
| Example.HeaderText | bag_reader.py:221-222 | The header text is `f_seq,f_stamp_nsecs,f_stamp_secs`. |
| Example.HeaderLine | bag_reader.py:300-333 | Each message's line is `seq,nsecs,secs`. |
| Example.HeaderExport | bag_reader.py:244-267 | Two such messages export as their two lines, with count 2. |
| Example.HeaderCsv | bag_reader.py:188-200 | The whole file for two such messages is `f_seq,f_stamp_nsecs,f_stamp_secs`, then `s1,nsecs1,secs1` and `s2,nsecs2,secs2`, with count 2. |

## Left out

- Opening, reading and closing the bag with `rosbag` is left out; it is a foreign library. A topic's messages are a sequence, in recorded order.
- The `rosbag info --yaml` subprocess and its YAML parsing are left out, and so is `display_stats`, which only prints that metadata. These are external processes. `Schema.InfoOutput` takes the listed topics with their messages as a parameter.
- `build_parser`, argparse, `sys.exit` and the `__main__` dispatch are left out as command-line plumbing. `Args.ValidateArgs` takes the parsed arguments as a value.
- `Args.ValidateArgs`: `os.path.isfile` is a query to the file system, so it is a boolean parameter.
- Output files, standard output, and the `Writing message n\r` / `Processed n messages` progress writes are left out. Written lines are returned as sequences. The progress count is the `Ok` count of `Export.WriteTopic`.
- Python's `str()` is exact only for scalars, which hold their rendered text. Floats and ROS message objects are not formatted. Lists and nested messages inside a row are rendered approximately by `Messages.Str`.
- A composite with two slots of the same name is outside the model: ROS message definitions do not allow it, and `Messages.Field` (the first match) and the positional walks would then disagree.
- ROS fixed-size arrays that arrive as tuples are not lists to `isinstance(msg, list)`. The model has no tuple case: such a value is a `Scalar` holding its `str()` text.
- `Rows.FindFieldValue`: the requirement `WellFormed` (every element of a list of composites has the first element's slots) excludes the AttributeError that `getattr` would raise on a malformed array. Recorded arrays satisfy it by construction.
- `Columns.NameList.Sort`: the sorting algorithm (Timsort) is not modelled. Insertion sort stands in, and `Columns.SortedPermutationUnique` shows that any sort gives the same list.
- `CsvLine.BlankMatching` visits the mapping's keys in an unspecified order, not dict order. Every matching slot is set to the same `''`, so the order only decides which slot is written first before an IndexError. The line fails then anyway.
- The row dict is iterated in insertion order, as from Python 3.7 on. Under Python 2 that order is unspecified, and the order decides two things. It decides whether an empty list's blanking runs before or after a column it shares a prefix with is set (`CsvLine.EntryEffect`). It also decides which exception a line reports when several entries fail, and which key a `KeyError` names: `_poses_x` and `_poses_y` both fail for a `PoseArray`-shaped message. `CsvLine.FillStaysFailed` and `CsvLine.FirstMissingKeyReported` state that the first failing entry in dict order decides.
- After an exception, the model returns the lines written so far. The source leaves the output file open, and does not write the rest.

## Findings

| source | as written | input that shows it | evidently intended | confidence | as-written member | corrected member |
|---|---|---|---|---|---|---|
| bag_reader.py:295 | In a list of composites, a slot that is not a column is walked into with the list's own `prefix`, not `new_prefix`. | A topic whose first message is `poses: [{position: {x: 1}}]`. The header column is `poses_position_x`, but the row key is `_poses_x`, and write_topic_line raises `KeyError('_poses_x')` on every such message. | Recurse with `new_prefix`, the same path get_field_names uses, so every row key is a header column. | not executed | Rows.NestedTemplateKeyNotAColumn | Rows.IntendedKeysAreColumns |
| bag_reader.py:295 | The same walk under the list's own prefix can reach a leaf whose name is a column the list has already gathered, and assigns it again. | A list field `f` of `{x: a, q: {x: b}}`. The columns are `_f_q_x` and `_f_x`. The row ends as `_f_x: b`, `_f_q_x` is never set, and `','.join` raises TypeError. | Recurse with `new_prefix`, so the inner `x` is stored under `_f_q_x` and the line is `b,a`. | not executed | Rows.GatheredColumnOverwritten | Rows.IntendedGatheredColumnKept |

The as-written walk is `Rows.Assignments`; `Export.NestedTemplateLineFails` and `Export.GatheredColumnLineFails` carry the two failures through to the written line. The corrected walk is `Rows.IntendedAssignments`; `Export.IntendedFirstMessageKeysKnown` shows it raises no KeyError for the first message, and `Export.IntendedGatheredColumnLine` that it writes the second example's line. `Rows.FindFieldValue` and the export keep the code's behaviour, so the model follows the code as written.
