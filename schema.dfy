/**
 * Info mode: the indented field tree printed for the first message of each topic
 * (print_topic_fields), and the topic loop of display_bag_info around it.
 * Printed lines are returned as a sequence instead of being written to standard output.
 */
module Schema {
  import opened Messages

  /** `' ' * (depth * 2)` */
  function Indent(depth: nat): (r: string)
    ensures |r| == 2 * depth
    ensures forall i :: 0 <= i < |r| ==> r[i] == ' '
  {
    if depth == 0 then "" else Indent(depth - 1) + "  "
  }

  /** The lines print_topic_fields(name, m, depth) prints. */
  function FieldLines(name: string, m: Msg, depth: nat): seq<string>
    decreases m, 1
  {
    match m
    case Composite(slots) => [Indent(depth) + name] + SlotLines(m, |slots|, depth + 1)
    case List(elems) =>
      if HasTemplate(m) then [Indent(depth) + name + "[]"] + SlotLines(elems[0], |elems[0].slots|, depth + 1)
      else []
    case Scalar(_) => [Indent(depth) + name]
  }

  /** The lines printed for the first `n` slots of composite `c`, each at `depth`. */
  function SlotLines(c: Msg, n: nat, depth: nat): seq<string>
    requires c.Composite? && n <= |c.slots|
    decreases c, 0, n
  {
    if n == 0 then []
    else SlotLines(c, n - 1, depth) + FieldLines(c.slots[n - 1].0, c.slots[n - 1].1, depth)
  }

  lemma IndentGrows(line: string, depth: nat)
    requires StartsWith(line, Indent(depth + 1))
    ensures StartsWith(line, Indent(depth))
  {
    assert Indent(depth + 1)[..2 * depth] == Indent(depth);
    assert line[..2 * depth] == line[..2 * depth + 2][..2 * depth];
  }

  lemma IndentedLine(depth: nat, text: string)
    ensures StartsWith(Indent(depth) + text, Indent(depth))
  {
    assert (Indent(depth) + text)[..2 * depth] == Indent(depth);
  }

  /**
   * Every line of a field's tree starts with the field's indentation, and every line after the
   * field's own line is indented at least one level deeper.
   */
  lemma {:induction false} FieldLinesIndented(name: string, m: Msg, depth: nat)
    ensures forall l :: l in FieldLines(name, m, depth) ==> StartsWith(l, Indent(depth))
    ensures forall i :: 1 <= i < |FieldLines(name, m, depth)| ==>
              StartsWith(FieldLines(name, m, depth)[i], Indent(depth + 1))
    decreases m, 1
  {
    var r := FieldLines(name, m, depth);
    match m
    case Scalar(_) =>
      IndentedLine(depth, name);
    case Composite(slots) =>
      IndentedLine(depth, name);
      SlotLinesIndented(m, |slots|, depth + 1);
      forall l | l in r ensures StartsWith(l, Indent(depth)) {
        if l != r[0] { IndentGrows(l, depth); }
      }
    case List(elems) =>
      if HasTemplate(m) {
        IndentedLine(depth, name + "[]");
        assert Indent(depth) + name + "[]" == Indent(depth) + (name + "[]");
        SlotLinesIndented(elems[0], |elems[0].slots|, depth + 1);
        forall l | l in r ensures StartsWith(l, Indent(depth)) {
          if l != r[0] { IndentGrows(l, depth); }
        }
      }
  }

  lemma {:induction false} SlotLinesIndented(c: Msg, n: nat, depth: nat)
    requires c.Composite? && n <= |c.slots|
    ensures forall l :: l in SlotLines(c, n, depth) ==> StartsWith(l, Indent(depth))
    decreases c, 0, n
  {
    if n > 0 {
      SlotLinesIndented(c, n - 1, depth);
      FieldLinesIndented(c.slots[n - 1].0, c.slots[n - 1].1, depth);
    }
  }

  /**
   * What a field contributes: a composite prints its name, a list with a composite first element
   * prints `name[]`, a scalar prints its name; any other list (empty, or of scalars) prints nothing.
   */
  lemma FieldLinesHead(name: string, m: Msg, depth: nat)
    ensures FieldLines(name, m, depth) == [] <==> m.List? && !HasTemplate(m)
    ensures m.Composite? || m.Scalar? ==> FieldLines(name, m, depth)[0] == Indent(depth) + name
    ensures HasTemplate(m) ==> FieldLines(name, m, depth)[0] == Indent(depth) + name + "[]"
    ensures m.Scalar? ==> |FieldLines(name, m, depth)| == 1
  {
  }

  /** Only the first element of a list is consulted: the elements after it never show. */
  lemma ListUsesFirstElement(name: string, first: Msg, rest: seq<Msg>, depth: nat)
    ensures FieldLines(name, List([first] + rest), depth) == FieldLines(name, List([first]), depth)
  {
  }

  /**
   * The output of info mode for topics listed with their messages: for each topic that has a
   * message, the tree of its first message and a blank line; then the count of listed topics.
   */
  function InfoOutput(topics: seq<(string, seq<Msg>)>): (r: seq<string>)
    ensures |r| > 0 && r[|r| - 1] == "Found " + NatToString(|topics|) + " topics"
  {
    TopicTrees(topics, |topics|) + ["Found " + NatToString(|topics|) + " topics"]
  }

  /** The trees printed for the first `n` listed topics: a topic without messages prints nothing. */
  function TopicTrees(topics: seq<(string, seq<Msg>)>, n: nat): seq<string>
    requires n <= |topics|
  {
    if n == 0 then []
    else
      var (topic, msgs) := topics[n - 1];
      TopicTrees(topics, n - 1) + (if |msgs| > 0 then FieldLines(topic, msgs[0], 0) + [""] else [])
  }

  /** The tree printed for a header's `stamp` at depth 2. */
  lemma StampLines(secs: string, nsecs: string)
    ensures FieldLines("stamp", Composite([("secs", Scalar(secs)), ("nsecs", Scalar(nsecs))]), 2)
         == ["    stamp", "      secs", "      nsecs"]
  {
    var stamp := Composite([("secs", Scalar(secs)), ("nsecs", Scalar(nsecs))]);
    assert Indent(2) == "    " && Indent(3) == "      ";
    assert "    " + "stamp" == "    stamp";
    assert "      " + "secs" == "      secs" && "      " + "nsecs" == "      nsecs";
    assert SlotLines(stamp, 0, 3) == [];
    assert SlotLines(stamp, 1, 3) == ["      secs"];
    assert SlotLines(stamp, 2, 3) == ["      secs"] + ["      nsecs"];
  }

  /** The tree printed for a header field at depth 1. */
  lemma HeaderFieldLines(s: string, secs: string, nsecs: string)
    ensures FieldLines("header", HeaderMsg("header", s, secs, nsecs).slots[0].1, 1)
         == ["  header", "    seq", "    stamp", "      secs", "      nsecs"]
  {
    var stamp := Composite([("secs", Scalar(secs)), ("nsecs", Scalar(nsecs))]);
    var header := Composite([("seq", Scalar(s)), ("stamp", stamp)]);
    assert HeaderMsg("header", s, secs, nsecs).slots[0].1 == header;
    StampLines(secs, nsecs);
    assert Indent(1) == "  " && Indent(2) == "    ";
    assert "  " + "header" == "  header" && "    " + "seq" == "    seq";
    assert SlotLines(header, 0, 2) == [];
    assert SlotLines(header, 1, 2) == ["    seq"];
    assert SlotLines(header, 2, 2) == ["    seq"] + ["    stamp", "      secs", "      nsecs"];
  }

  /** The info-mode output for one topic whose first message is a header. */
  lemma DummyTopicInfo(s: string, secs: string, nsecs: string)
    ensures InfoOutput([("/ns/dummy", [HeaderMsg("header", s, secs, nsecs)])])
         == ["/ns/dummy", "  header", "    seq", "    stamp", "      secs", "      nsecs", "", "Found 1 topics"]
  {
    var msg := HeaderMsg("header", s, secs, nsecs);
    HeaderFieldLines(s, secs, nsecs);
    assert Indent(0) == "" && "" + "/ns/dummy" == "/ns/dummy";
    assert SlotLines(msg, 0, 1) == [];
    assert SlotLines(msg, 1, 1) == FieldLines("header", msg.slots[0].1, 1);
    assert FieldLines("/ns/dummy", msg, 0) ==
      ["/ns/dummy", "  header", "    seq", "    stamp", "      secs", "      nsecs"];
    var topics := [("/ns/dummy", [msg])];
    assert TopicTrees(topics, 0) == [];
    assert TopicTrees(topics, 1) == FieldLines("/ns/dummy", msg, 0) + [""];
    assert NatToString(1) == "1";
    assert "Found " + "1" + " topics" == "Found 1 topics";
  }
}
