/** The create-jvm-options command as it runs: it reads and updates a JVM
    option bag of the configuration in place and fills in an action report
    step by step. Each method is proved against the functions of JvmOptions. */
module CreateJvmOptionsCommand {
  import opened JvmOptions
  import JvmOptionsProperties

  /** A JVM option bag of the configuration (the java-config element or its
      profiler element): the ordered list of its JVM options. */
  class JvmOptionBag {
    var options: seq<string>

    /** setJvmOptions: replaces the list. */
    method SetJvmOptions(options: seq<string>)
      modifies this
      ensures this.options == options
    {
      this.options := options;
    }
  }

  datatype ExitCode = Success | Warning | Failure

  /** The action report: its exit code, its top-level message, and the
      messages of the children of its top message part, in order (a child
      whose text was never set holds Blank). */
  class ActionReport {
    var exitCode: ExitCode
    var message: Option<Message>
    var parts: seq<Message>

    method SetMessage(m: Message)
      modifies this
      ensures message == Some(m)
      ensures exitCode == old(exitCode) && parts == old(parts)
    {
      message := Some(m);
    }

    method SetActionExitCode(code: ExitCode)
      modifies this
      ensures exitCode == code
      ensures message == old(message) && parts == old(parts)
    {
      exitCode := code;
    }

    /** getTopMessagePart().addChild(): a new child without text, at the end;
        the result designates it. */
    method AddChild() returns (part: nat)
      modifies this
      ensures part == |old(parts)| && parts == old(parts) + [Blank]
      ensures exitCode == old(exitCode) && message == old(message)
    {
      part := |parts|;
      parts := parts + [Blank];
    }

    /** setMessage on the child designated by part. */
    method SetPartMessage(part: nat, m: Message)
      requires part < |parts|
      modifies this
      ensures parts == old(parts)[part := m]
      ensures exitCode == old(exitCode) && message == old(message)
    {
      parts := parts[part := m];
    }

    /** getTopMessagePart().addChild().setMessage(m) */
    method AddPartMessage(m: Message)
      modifies this
      ensures parts == old(parts) + [m]
      ensures exitCode == old(exitCode) && message == old(message)
    {
      var part := AddChild();
      SetPartMessage(part, m);
    }
  }

  /** validate: the message of the first option that does not start with a
      dash or is already in the bag, or None when every option passes. It
      reads the list and the bag and changes neither. */
  method Validate(bag: JvmOptionBag, opts: seq<string>) returns (error: Option<Message>)
    ensures error == FirstInvalid(bag.options, opts)
  {
    var i := 0;
    while i < |opts|
      invariant 0 <= i <= |opts|
      invariant FirstInvalid(bag.options, opts) == FirstInvalid(bag.options, opts[i..])
    {
      var opt := opts[i];
      assert opts[i..][1..] == opts[i + 1..];
      if !("-" <= opt) {
        return Some(InvalidStart(opt));
      }
      if opt in bag.options {
        return Some(AlreadyExists(opt));
      }
      i := i + 1;
    }
    return None;
  }

  /** validateSoftXmx: appends the -Xmx warnings for one given option. */
  method ValidateSoftXmx(bag: JvmOptionBag, opt: string, toMeg: (string, string) -> int, report: ActionReport)
    modifies report
    ensures report.parts == old(report.parts) + XmxWarnings(bag.options, opt, toMeg)
    ensures report.exitCode == old(report.exitCode) && report.message == old(report.message)
  {
    if !(XmxPrefix <= opt) {
      return;
    }
    if !SizePattern.Matches(XmxPrefix, opt) {
      report.AddPartMessage(InvalidXmx(opt));
    }
    ghost var sized := report.parts;
    var existingXmx := StartingWith(bag.options, XmxPrefix);
    if existingXmx.Some? {
      report.AddPartMessage(XmxExists(existingXmx.value));
    }
    ghost var flagged := report.parts;
    assert flagged == sized + (match existingXmx case Some(e) => [XmxExists(e)] case None => []);
    var existingXms := StartingWith(bag.options, XmsPrefix);
    if existingXms.Some? {
      var xmsInConfig := toMeg(existingXms.value, XmsPrefix);
      var xmxGiven := toMeg(opt, XmxPrefix);
      if xmsInConfig > xmxGiven {
        report.AddPartMessage(XmxSmallerThanXms(xmxGiven, xmsInConfig));
      }
    }
  }

  /** validateSoftXms: appends the -Xms warnings for one given option. */
  method ValidateSoftXms(bag: JvmOptionBag, opt: string, toMeg: (string, string) -> int, report: ActionReport)
    modifies report
    ensures report.parts == old(report.parts) + XmsWarnings(bag.options, opt, toMeg)
    ensures report.exitCode == old(report.exitCode) && report.message == old(report.message)
  {
    if !(XmsPrefix <= opt) {
      return;
    }
    if !SizePattern.Matches(XmsPrefix, opt) {
      report.AddPartMessage(InvalidXms(opt));
    }
    ghost var sized := report.parts;
    var existingXms := StartingWith(bag.options, XmsPrefix);
    if existingXms.Some? {
      report.AddPartMessage(XmsExists(existingXms.value));
    }
    ghost var flagged := report.parts;
    assert flagged == sized + (match existingXms case Some(e) => [XmsExists(e)] case None => []);
    var existingXmx := StartingWith(bag.options, XmxPrefix);
    if existingXmx.Some? {
      var xmxInConfig := toMeg(existingXmx.value, XmxPrefix);
      var xmsGiven := toMeg(opt, XmsPrefix);
      if xmsGiven > xmxInConfig {
        report.AddPartMessage(XmsLargerThanXmx(xmsGiven, xmxInConfig));
      }
    }
  }

  /** validateSoft: only recommendations. It appends warnings to the report
      and changes neither the bag, the list, the exit code nor the message. */
  method ValidateSoft(bag: JvmOptionBag, opts: seq<string>, toMeg: (string, string) -> int, report: ActionReport)
    modifies report
    ensures report.parts == old(report.parts) + SoftWarnings(bag.options, opts, toMeg)
    ensures report.exitCode == old(report.exitCode) && report.message == old(report.message)
  {
    var i := 0;
    while i < |opts|
      invariant 0 <= i <= |opts|
      invariant report.parts == old(report.parts) + SoftWarnings(bag.options, opts[..i], toMeg)
      invariant report.exitCode == old(report.exitCode) && report.message == old(report.message)
    {
      var opt := opts[i];
      ghost var done := SoftWarnings(bag.options, opts[..i], toMeg);
      ghost var xmx := XmxWarnings(bag.options, opt, toMeg);
      ValidateSoftXmx(bag, opt, toMeg, report);
      ValidateSoftXms(bag, opt, toMeg, report);
      JvmOptionsProperties.SoftWarningsPrefixStep(bag.options, opts, toMeg, i);
      JvmOptionsProperties.AppendAssoc(old(report.parts), done, xmx);
      JvmOptionsProperties.AppendAssoc(old(report.parts), done + xmx, XmsWarnings(bag.options, opt, toMeg));
      i := i + 1;
    }
    assert opts[..i] == opts;
  }

  /** addX (the body of the configuration transaction): prunes the given
      list of the options already in the bag, appends the rest, and sets the
      message of the command's part to the number added or to "no option
      created". */
  method AddX(bag: JvmOptionBag, newOpts: seq<string>, part: nat, report: ActionReport)
    requires part < |report.parts|
    modifies bag, report
    ensures var added := AddOptions(old(bag.options), newOpts);
      && bag.options == added.options
      && report.parts == old(report.parts)[part := added.summary]
    ensures report.exitCode == old(report.exitCode) && report.message == old(report.message)
  {
    var pruned := Pruned(newOpts, bag.options);
    var jvmopts := bag.options;
    var orig := |jvmopts|;
    var added := pruned != [];
    jvmopts := jvmopts + pruned;
    bag.SetJvmOptions(jvmopts);
    var now := |jvmopts|;
    if added {
      report.SetPartMessage(part, Created(now - orig));
    } else {
      report.SetPartMessage(part, NoOptionCreated);
    }
  }

  /** execute: picks the bag (the profiler's when asked for), validates the
      options, warns about heap sizes, appends, and sets the exit code. The
      profiler element is a child of the java-config element, never the
      java-config element itself. */
  method Execute(jc: JvmOptionBag, profiler: JvmOptionBag?, addToProfiler: bool, jvmOptions: seq<string>,
                 toMeg: (string, string) -> int, report: ActionReport)
    requires profiler != jc
    modifies jc, profiler, report
    ensures var bag := if addToProfiler then profiler else jc;
      var outcome := Run(if bag == null then None else Some(old(bag.options)), jvmOptions, toMeg);
      && (outcome.NoProfiler? ==>
            && report.exitCode == Failure
            && report.message == Some(CreateProfilerFirst)
            && report.parts == old(report.parts))
      && (outcome.Invalid? ==>
            && report.exitCode == Failure
            && report.message == Some(outcome.reason)
            && report.parts == old(report.parts) + [Blank])
      && (outcome.Applied? ==>
            && bag != null
            && bag.options == outcome.options
            && report.exitCode == Success
            && report.message == old(report.message)
            && report.parts == old(report.parts) + [outcome.summary] + outcome.warnings)
      && (!outcome.Applied? ==> jc.options == old(jc.options))
      && (!outcome.Applied? && profiler != null ==> profiler.options == old(profiler.options))
    ensures addToProfiler ==> jc.options == old(jc.options)
    ensures !addToProfiler && profiler != null ==> profiler.options == old(profiler.options)
  {
    var bag: JvmOptionBag;
    if addToProfiler {
      if profiler == null {
        report.SetMessage(CreateProfilerFirst);
        report.SetActionExitCode(Failure);
        return;
      }
      bag := profiler;
    } else {
      bag := jc;
    }
    var part := report.AddChild();
    var validOptions := jvmOptions;
    var error := Validate(bag, validOptions);
    if error.Some? {
      report.SetMessage(error.value);
      report.SetActionExitCode(Failure);
      return;
    }
    ghost var warnings := SoftWarnings(bag.options, validOptions, toMeg);
    ghost var added := AddOptions(bag.options, validOptions);
    ValidateSoft(bag, validOptions, toMeg, report);
    AddX(bag, validOptions, part, report);
    JvmOptionsProperties.SetAfterPrefix(old(report.parts), Blank, added.summary, warnings);
    report.SetActionExitCode(Success);
  }
}
