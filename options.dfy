/** The create-jvm-options admin command as functions: the hard check that
    rejects a bad option, the soft checks on heap sizes that only warn, the
    append that prunes options already present, and the whole command (Run).
    A JVM option bag's list is a `seq<string>`. */
module JvmOptions {
  import SizePattern

  datatype Option<T> = None | Some(value: T)

  /** The localized messages the command writes into its report, one
      constructor per message key; the arguments are the key's parameters. */
  datatype Message =
    | Blank                                              // a message part whose text was never set
    | CreateProfilerFirst                                // create.profiler.first
    | InvalidStart(opt: string)                          // joe.invalid.start
    | AlreadyExists(opt: string)                         // joe.exists
    | InvalidXmx(opt: string)                            // soft.invalid.xmx
    | XmxExists(existing: string)                        // soft.xmx.exists
    | XmxSmallerThanXms(xmxGiven: int, xmsInConfig: int) // soft.xmx.smaller.than.xms
    | InvalidXms(opt: string)                            // soft.invalid.xms
    | XmsExists(existing: string)                        // soft.xms.exists
    | XmsLargerThanXmx(xmsGiven: int, xmxInConfig: int)  // soft.xms.larger.than.xmx
    | Created(count: int)                                // created.message
    | NoOptionCreated                                    // no.option.created

  const XmxPrefix: string := "-Xmx"
  const XmsPrefix: string := "-Xms"

  /** JvmOptionBag.getStartingWith: an option of the bag with the given
      prefix, or none when no option has it. The first such option stands in
      for the bag's own choice. */
  function StartingWith(options: seq<string>, prefix: string): (r: Option<string>)
    ensures r.Some? ==> r.value in options && prefix <= r.value
    ensures r.None? <==> forall o :: o in options ==> !(prefix <= o)
  {
    if options == [] then None
    else if prefix <= options[0] then Some(options[0])
    else
      assert options == [options[0]] + options[1..];
      StartingWith(options[1..], prefix)
  }

  // ---------------------------------------------------------------------
  // Hard validation (validate): every option starts with a dash and is not
  // yet in the bag; the first one that is not aborts the command.
  // ---------------------------------------------------------------------

  predicate Acceptable(current: seq<string>, opt: string) {
    "-" <= opt && opt !in current
  }

  /** The message validate throws for the first unacceptable option, or
      None when every option is acceptable. */
  function FirstInvalid(current: seq<string>, opts: seq<string>): (r: Option<Message>)
    ensures r.None? <==> forall o :: o in opts ==> Acceptable(current, o)
  {
    if opts == [] then None
    else if !("-" <= opts[0]) then assert opts[0] in opts; Some(InvalidStart(opts[0]))
    else if opts[0] in current then assert opts[0] in opts; Some(AlreadyExists(opts[0]))
    else
      assert opts == [opts[0]] + opts[1..];
      FirstInvalid(current, opts[1..])
  }

  // ---------------------------------------------------------------------
  // Append (addX): prune the given options already in the bag, then append
  // the rest in order and report how many were added.
  // ---------------------------------------------------------------------

  /** newOpts.removeAll(current): drops every given option equal to one in
      the bag and keeps the others, repeats included, in order. */
  function Pruned(given: seq<string>, current: seq<string>): (r: seq<string>)
    ensures forall o :: o in r <==> o in given && o !in current
    ensures |r| <= |given|
  {
    if given == [] then []
    else (if given[0] in current then [] else [given[0]]) + Pruned(given[1..], current)
  }

  datatype AddResult = AddResult(options: seq<string>, summary: Message)

  /** The new option list of the bag and the message set on the command's
      message part. */
  function AddOptions(current: seq<string>, given: seq<string>): (r: AddResult)
    ensures current <= r.options
    ensures forall o :: o in r.options <==> o in current || o in given
    ensures r.summary == if |r.options| > |current| then Created(|r.options| - |current|) else NoOptionCreated
  {
    var pruned := Pruned(given, current);
    AddResult(current + pruned, if pruned != [] then Created(|pruned|) else NoOptionCreated)
  }

  // ---------------------------------------------------------------------
  // Soft validation (validateSoftXmx, validateSoftXms, validateSoft).
  // ---------------------------------------------------------------------

  /** validateSoftXmx's warnings for one given option, in report order: the
      size does not match the pattern; the bag already holds an -Xmx; the
      bag's -Xms is larger than the given -Xmx, both in megabytes. */
  function XmxWarnings(current: seq<string>, opt: string, toMeg: (string, string) -> int): seq<Message> {
    if !(XmxPrefix <= opt) then []
    else
      (if SizePattern.Matches(XmxPrefix, opt) then [] else [InvalidXmx(opt)])
      + (match StartingWith(current, XmxPrefix)
         case Some(existingXmx) => [XmxExists(existingXmx)]
         case None => [])
      + (match StartingWith(current, XmsPrefix)
         case Some(existingXms) =>
           var xmsInConfig := toMeg(existingXms, XmsPrefix);
           var xmxGiven := toMeg(opt, XmxPrefix);
           if xmsInConfig > xmxGiven then [XmxSmallerThanXms(xmxGiven, xmsInConfig)] else []
         case None => [])
  }

  /** validateSoftXms's warnings for one given option, the mirror image of
      XmxWarnings. */
  function XmsWarnings(current: seq<string>, opt: string, toMeg: (string, string) -> int): seq<Message> {
    if !(XmsPrefix <= opt) then []
    else
      (if SizePattern.Matches(XmsPrefix, opt) then [] else [InvalidXms(opt)])
      + (match StartingWith(current, XmsPrefix)
         case Some(existingXms) => [XmsExists(existingXms)]
         case None => [])
      + (match StartingWith(current, XmxPrefix)
         case Some(existingXmx) =>
           var xmxInConfig := toMeg(existingXmx, XmxPrefix);
           var xmsGiven := toMeg(opt, XmsPrefix);
           if xmsGiven > xmxInConfig then [XmsLargerThanXmx(xmsGiven, xmxInConfig)] else []
         case None => [])
  }

  /** The warnings of one pass of validateSoft's loop. */
  function OptionWarnings(current: seq<string>, opt: string, toMeg: (string, string) -> int): seq<Message> {
    XmxWarnings(current, opt, toMeg) + XmsWarnings(current, opt, toMeg)
  }

  /** All of validateSoft's warnings, in the order it adds them: option by
      option. */
  function SoftWarnings(current: seq<string>, opts: seq<string>, toMeg: (string, string) -> int): seq<Message>
    decreases |opts|
  {
    if opts == [] then []
    else SoftWarnings(current, opts[..|opts| - 1], toMeg) + OptionWarnings(current, opts[|opts| - 1], toMeg)
  }

  // ---------------------------------------------------------------------
  // The whole command (execute).
  // ---------------------------------------------------------------------

  /** What the command does to its bag and its report: it finds no profiler
      to add to, rejects an option, or appends and reports. */
  datatype Outcome =
    | NoProfiler
    | Invalid(reason: Message)
    | Applied(options: seq<string>, summary: Message, warnings: seq<Message>)

  /** target is the option list of the chosen bag, or None when the profiler
      was asked for and the configuration has none. */
  function Run(target: Option<seq<string>>, given: seq<string>, toMeg: (string, string) -> int): Outcome {
    match target
    case None => NoProfiler
    case Some(current) =>
      match FirstInvalid(current, given)
      case Some(reason) => Invalid(reason)
      case None =>
        var warnings := SoftWarnings(current, given, toMeg);
        var added := AddOptions(current, given);
        Applied(added.options, added.summary, warnings)
  }
}
