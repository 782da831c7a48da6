/**
 * The command-line check made before any work (validate_args).  Whether the bag path names
 * an existing file is a question to the file system; it is passed in as `bagIsFile`.
 */
module Args {
  import opened Wrappers

  datatype CmdArgs = CmdArgs(
    bag: Option<string>,
    info: bool,
    stats: bool,
    topic: Option<string>,
    outFile: Option<string>)

  /** Whether the arguments are accepted, and the lines printed while deciding. */
  datatype Verdict = Verdict(valid: bool, printed: seq<string>)

  const NoBag := "Must specify a bag file"
  const BadBag := "Invalid bag file"
  const BadMode := "Must specify either bag info, a topic and output file, or statistics"

  /** The three accepted mode shapes, as the source writes its disjunction. */
  predicate ModeShape(a: CmdArgs) {
    || (a.info && (a.topic.None? && a.outFile.None?) && !a.stats)
    || (!a.info && (a.topic.Some? && a.outFile.Some?) && !a.stats)
    || (!a.info && (a.topic.None? && a.outFile.None?) && a.stats)
  }

  /** Independent reading: exactly one mode is selected, and topic and output file come together. */
  predicate ExactlyOneMode(a: CmdArgs) {
    var exporting := a.topic.Some? && a.outFile.Some?;
    && (a.topic.Some? <==> a.outFile.Some?)
    && (if a.info then 1 else 0) + (if a.stats then 1 else 0) + (if exporting then 1 else 0) == 1
  }

  function ValidateArgs(a: CmdArgs, bagIsFile: bool): (r: Verdict)
    ensures r.valid <==> a.bag.Some? && bagIsFile && ExactlyOneMode(a)
    ensures r.valid <==> r.printed == []
    ensures !r.valid ==> |r.printed| == 1
    ensures a.bag.None? ==> r.printed == [NoBag]
    ensures a.bag.Some? && !bagIsFile ==> r.printed == [BadBag]
    ensures a.bag.Some? && bagIsFile && !ExactlyOneMode(a) ==> r.printed == [BadMode]
  {
    if a.bag.None? then Verdict(false, [NoBag])
    else if !bagIsFile then Verdict(false, [BadBag])
    else if ModeShape(a) then Verdict(true, [])
    else Verdict(false, [BadMode])
  }
}
