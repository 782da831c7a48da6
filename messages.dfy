/**
 * The shape of a recorded message as the exporter sees it through Python's duck typing:
 * a value with `__slots__` is a Composite, a Python list is a List, anything else is a
 * Scalar whose `str()` rendering is kept as text.
 */
module Messages {

  datatype Msg =
    | Composite(slots: seq<(string, Msg)>)
    | List(elems: seq<Msg>)
    | Scalar(text: string)

  /** A non-empty list whose first element is a composite: the walkers use that element as a template. */
  predicate HasTemplate(m: Msg) {
    m.List? && |m.elems| > 0 && m.elems[0].Composite?
  }

  predicate Distinct(s: seq<string>) {
    forall i, j :: 0 <= i < j < |s| ==> s[i] != s[j]
  }

  /** `'_'.join([prefix, slot])` */
  function Child(prefix: string, slot: string): (r: string)
    ensures |r| == |prefix| + 1 + |slot|
    ensures r[..|prefix|] == prefix && r[|prefix|] == '_' && r[|prefix| + 1..] == slot
  {
    prefix + "_" + slot
  }

  /** `str.startswith` */
  predicate StartsWith(s: string, p: string) {
    |p| <= |s| && s[..|p|] == p
  }

  /** `sep.join(parts)` */
  function Join(sep: string, parts: seq<string>): string
  {
    if |parts| == 0 then ""
    else if |parts| == 1 then parts[0]
    else parts[0] + sep + Join(sep, parts[1..])
  }

  /** The names of a composite's slots, in declaration order (`msg.__slots__`). */
  function SlotNames(slots: seq<(string, Msg)>): (r: seq<string>)
    ensures |r| == |slots|
    ensures forall i :: 0 <= i < |slots| ==> r[i] == slots[i].0
  {
    if slots == [] then [] else [slots[0].0] + SlotNames(slots[1..])
  }

  /** `getattr(x, name)` on a composite: the value of the first slot with that name. */
  function Field(slots: seq<(string, Msg)>, name: string): (r: Msg)
    requires name in SlotNames(slots)
    ensures exists i :: 0 <= i < |slots| && slots[i] == (name, r)
  {
    if slots[0].0 == name then slots[0].1 else Field(slots[1..], name)
  }

  /**
   * The homogeneity a recorded array has by construction: when the first element of a list is a
   * composite, every element is a composite with the same slot names, so `getattr(x, slot)`
   * succeeds on each of them.  Holds throughout the message.
   */
  predicate WellFormed(m: Msg) {
    match m
    case Scalar(_) => true
    case Composite(slots) => forall i :: 0 <= i < |slots| ==> WellFormed(slots[i].1)
    case List(elems) =>
      && (forall i :: 0 <= i < |elems| ==> WellFormed(elems[i]))
      && (HasTemplate(m) ==>
            forall i :: 0 <= i < |elems| ==>
              elems[i].Composite? && SlotNames(elems[i].slots) == SlotNames(elems[0].slots))
  }

  /** A message built only of composites and scalars. */
  predicate ListFree(m: Msg) {
    match m
    case Scalar(_) => true
    case Composite(slots) => forall i :: 0 <= i < |slots| ==> ListFree(slots[i].1)
    case List(_) => false
  }

  lemma ListFreeIsWellFormed(m: Msg)
    requires ListFree(m)
    ensures WellFormed(m)
  {
  }

  /**
   * Python's `str()` of a value.  Scalars carry their rendering; a list renders as
   * `[a, b]`; a nested message as `slot: value` lines.  Only the scalar case is exact.
   */
  function Str(m: Msg): string
  {
    match m
    case Scalar(t) => t
    case List(elems) => "[" + Join(", ", seq(|elems|, i requires 0 <= i < |elems| => Str(elems[i]))) + "]"
    case Composite(slots) =>
      Join("\n", seq(|slots|, i requires 0 <= i < |slots| => slots[i].0 + ": " + Str(slots[i].1)))
  }

  /** The number a string of decimal digits spells, most significant digit first. */
  function DecValue(s: string): int
  {
    if |s| == 0 then 0 else 10 * DecValue(s[..|s| - 1]) + (s[|s| - 1] as int - '0' as int)
  }

  /** `"%u" % n`: the decimal digits of `n`, without leading zeros. */
  function NatToString(n: nat): (r: string)
    ensures |r| > 0
    ensures forall i :: 0 <= i < |r| ==> '0' <= r[i] <= '9'
    ensures DecValue(r) == n
    ensures |r| > 1 ==> r[0] != '0'
  {
    var d := ['0' + (n % 10) as char];
    if n < 10 then d
    else
      var r := NatToString(n / 10) + d;
      assert r[..|r| - 1] == NatToString(n / 10);
      r
  }

  /** A message whose one field `f` is shaped like a ROS `Header`: `seq`, then a `stamp` of `secs` and `nsecs`. */
  function HeaderMsg(f: string, s: string, secs: string, nsecs: string): (m: Msg)
    ensures ListFree(m) && WellFormed(m)
  {
    var stamp := Composite([("secs", Scalar(secs)), ("nsecs", Scalar(nsecs))]);
    assert ListFree(stamp) by { assert stamp.slots[0].1.Scalar? && stamp.slots[1].1.Scalar?; }
    var hdr := Composite([("seq", Scalar(s)), ("stamp", stamp)]);
    assert ListFree(hdr) by { assert hdr.slots[1].1 == stamp; }
    assert ListFree(Composite([(f, hdr)]));
    ListFreeIsWellFormed(Composite([(f, hdr)]));
    Composite([(f, hdr)])
  }
}
