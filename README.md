# create-jvm-options, modelled in Dafny

This project models the `create-jvm-options` admin command of the
application server kernel. The command adds JVM options to a JVM option bag
of a configuration. That bag is the `java-config` element, or its `profiler`
element when `--profiler` is given. The command works in three steps:

1. **Hard validation** (`validate`). Every given option must start with `-`
   and must not be in the bag yet. The first option that fails aborts the
   command with exit code FAILURE, and the bag is left as it was.
2. **Soft validation** (`validateSoft`, `validateSoftXmx`, `validateSoftXms`).
   These only add warnings to the report. A warning is added when:
   - a given `-Xmx`/`-Xms` does not match the size pattern;
   - the bag already holds an `-Xmx`/`-Xms`;
   - the bag's opposite heap bound conflicts with the given one, once both
     are converted to megabytes.
3. **Append** (`addX`). The given list is pruned of every option already in
   the bag. The rest is appended in order, and the command's message part
   says how many options were created, or that none were.

Files:

- `size_pattern.dfy` (module `SizePattern`) matches the size pattern
  `((\d)+[m|g|k|M|G|K]?)+` exactly, with both of its quirks:
  - `|` is a member of the character class;
  - whole groups may repeat.

  A lemma proves the scanner equal to the expression's own meaning, a split
  into groups.
- `options.dfy` (module `JvmOptions`) holds the command as functions on
  values:
  - the messages, one constructor per message key;
  - `getStartingWith`;
  - the hard check (`FirstInvalid`);
  - the pruning append (`Pruned`, `AddOptions`);
  - the warnings of each soft check;
  - `Run`, the whole command, which gives what it does to the bag and the
    report.
- `properties.dfy` (module `JvmOptionsProperties`) proves what the command
  promises, stated about those functions.
- `command.dfy` (module `CreateJvmOptionsCommand`) is the command as it runs.
  - A `JvmOptionBag` class and an `ActionReport` class are updated in place.
  - The methods `Validate`, `ValidateSoftXmx`, `ValidateSoftXms`,
    `ValidateSoft`, `AddX` and `Execute` follow the Java step by step.
  - Each method is proved against the functions of `JvmOptions`.

The two bag operations whose code is not shown are modelled as follows:

- `contains` is sequence membership.
- `toMeg` is an uninterpreted function `(string, string) -> int`, passed
  as a parameter.

The comment at `CreateJvmOptions.java:109` says that `validate` mutates the
given list. The loop at :204-216 only reads it and throws. The model follows
the code: `Validate` changes nothing, and pruning in `addX` is therefore a
no-op whenever the command gets that far (`RunAppendsGiven`).

## Model

All source paths are under
`nucleus/core/kernel/src/main/java/com/sun/enterprise/v3/admin/commands/`;
the table writes them in full.

| member | source | states |
|---|---|---|
| SizePattern.GroupsIsRegex | nucleus/core/kernel/src/main/java/com/sun/enterprise/v3/admin/commands/CreateJvmOptions.java:143-144 | The scanner accepts a string exactly when it splits into one or more groups, each made of digits and then at most one of `m g k M G K \|`. This holds in both directions. |
| SizePattern.RepeatedGroupsMatch | nucleus/core/kernel/src/main/java/com/sun/enterprise/v3/admin/commands/CreateJvmOptions.java:143-144 | `-Xmx512m256k` matches, because the outer `+` repeats whole groups. |
| SizePattern.BarIsAUnit | nucleus/core/kernel/src/main/java/com/sun/enterprise/v3/admin/commands/CreateJvmOptions.java:175-176 | `-Xms2\|` matches, because `\|` inside the brackets is a unit character. |
| SizePattern.Mismatches | nucleus/core/kernel/src/main/java/com/sun/enterprise/v3/admin/commands/CreateJvmOptions.java:141-147 | `-Xmx`, `-Xmx=12`, `-Xmx512mb` and `-Xmsm` do not match. |
| JvmOptions.StartingWith | nucleus/core/kernel/src/main/java/com/sun/enterprise/v3/admin/commands/CreateJvmOptions.java:153-159 | It yields an option of the bag that carries the prefix. It yields none exactly when no option of the bag carries the prefix. |
| JvmOptions.FirstInvalid | nucleus/core/kernel/src/main/java/com/sun/enterprise/v3/admin/commands/CreateJvmOptions.java:202-217 | validate throws nothing exactly when every given option starts with `-` and is not in the bag. |
| JvmOptions.Pruned | nucleus/core/kernel/src/main/java/com/sun/enterprise/v3/admin/commands/CreateJvmOptions.java:239 | After `removeAll`, an option is in the list exactly when it was given and is not in the bag. The list never grows. |
| JvmOptions.AddOptions | nucleus/core/kernel/src/main/java/com/sun/enterprise/v3/admin/commands/CreateJvmOptions.java:239-249 | The new list extends the old one, and its members are exactly the old options and the given ones. The message is `Created(new size - old size)` when the list grew, and "no option created" otherwise. |
| JvmOptionsProperties.PrunedMultiplicity | nucleus/core/kernel/src/main/java/com/sun/enterprise/v3/admin/commands/CreateJvmOptions.java:239 | `removeAll` drops every copy of an option in the bag. It keeps every copy of any other option, so repeats within the given list survive. |
| JvmOptionsProperties.PrunedConcat | nucleus/core/kernel/src/main/java/com/sun/enterprise/v3/admin/commands/CreateJvmOptions.java:239 | Pruning keeps the given order: pruning a concatenation is the concatenation of the pruned parts. |
| JvmOptionsProperties.PrunedNothingPresent | nucleus/core/kernel/src/main/java/com/sun/enterprise/v3/admin/commands/CreateJvmOptions.java:239 | When no given option is in the bag, pruning leaves the list as it is. |
| JvmOptionsProperties.PrunedAllPresent | nucleus/core/kernel/src/main/java/com/sun/enterprise/v3/admin/commands/CreateJvmOptions.java:239 | When every given option is in the bag, pruning leaves nothing. |
| JvmOptionsProperties.AddOptionsAppendsPruned | nucleus/core/kernel/src/main/java/com/sun/enterprise/v3/admin/commands/CreateJvmOptions.java:239-249 | The new list is the old list unchanged, followed by the pruned given list. "No option created" is reported exactly when every given option was already present. |
| JvmOptionsProperties.AddOptionsIdempotent | nucleus/core/kernel/src/main/java/com/sun/enterprise/v3/admin/commands/CreateJvmOptions.java:239-249 | Appending the same options a second time leaves the list unchanged and reports "no option created". |
| JvmOptionsProperties.RunRejectsIff | nucleus/core/kernel/src/main/java/com/sun/enterprise/v3/admin/commands/CreateJvmOptions.java:104-115 | Once a bag is found, the command either rejects or appends. It rejects exactly when some given option lacks the dash or is already in the bag. |
| JvmOptionsProperties.FirstInvalidAt | nucleus/core/kernel/src/main/java/com/sun/enterprise/v3/admin/commands/CreateJvmOptions.java:204-215 | validate throws for the first unacceptable option in the given order. Its message is "invalid start" when the dash is missing, even if the option is also a duplicate, and "exists" otherwise. |
| JvmOptionsProperties.RunRejectsFirst | nucleus/core/kernel/src/main/java/com/sun/enterprise/v3/admin/commands/CreateJvmOptions.java:109-115 | The command fails with the message of that first unacceptable option. |
| JvmOptionsProperties.RunAppendsGiven | nucleus/core/kernel/src/main/java/com/sun/enterprise/v3/admin/commands/CreateJvmOptions.java:108-111 | When nothing is rejected, the bag becomes the old list followed by exactly the given options, repeats included. The count is the number of given options, and the warnings are those of soft validation. |
| JvmOptionsProperties.RerunRejected | nucleus/core/kernel/src/main/java/com/sun/enterprise/v3/admin/commands/CreateJvmOptions.java:211-215 | Running the command again with the same non-empty list fails: its first option is now a duplicate. |
| JvmOptionsProperties.SoftWarningsOfOptions | nucleus/core/kernel/src/main/java/com/sun/enterprise/v3/admin/commands/CreateJvmOptions.java:128-136 | validateSoft gives a warning exactly when the pass for some given option gives it. |
| JvmOptionsProperties.XmxWarningsSpec | nucleus/core/kernel/src/main/java/com/sun/enterprise/v3/admin/commands/CreateJvmOptions.java:138-168 | For one given option, the -Xmx check gives no warning when the option is not an -Xmx. It warns about a bad size exactly when the option does not match, about the bag's -Xmx exactly when there is one, and about a bound conflict exactly when the bag's -Xms converts to more megabytes than the given -Xmx. |
| JvmOptionsProperties.XmsWarningsSpec | nucleus/core/kernel/src/main/java/com/sun/enterprise/v3/admin/commands/CreateJvmOptions.java:170-200 | The mirror image for -Xms: a bound conflict is warned about exactly when the given -Xms converts to more megabytes than the bag's -Xmx. |
| JvmOptionsProperties.NoHeapOptionNoWarning | nucleus/core/kernel/src/main/java/com/sun/enterprise/v3/admin/commands/CreateJvmOptions.java:139-140 | Options that are neither -Xmx nor -Xms draw no warning at all. |
| JvmOptionsProperties.InvalidSizeOfOption | nucleus/core/kernel/src/main/java/com/sun/enterprise/v3/admin/commands/CreateJvmOptions.java:139-147 | One pass gives an "invalid size" warning for an option exactly when that option is the one being checked, carries the prefix, and does not match. |
| JvmOptionsProperties.InvalidSizeWarnedIff | nucleus/core/kernel/src/main/java/com/sun/enterprise/v3/admin/commands/CreateJvmOptions.java:171-180 | An "invalid size" warning is given for an option exactly when that option is given, starts with -Xmx (-Xms), and does not match the size pattern. |
| JvmOptionsProperties.ExistsWarnedIff | nucleus/core/kernel/src/main/java/com/sun/enterprise/v3/admin/commands/CreateJvmOptions.java:153-158 | An "exists" warning names option e exactly when the bag's -Xmx (-Xms) is e and some given option starts with -Xmx (-Xms). |
| JvmOptionsProperties.XmxBelowXmsWarnedIff | nucleus/core/kernel/src/main/java/com/sun/enterprise/v3/admin/commands/CreateJvmOptions.java:159-167 | "-Xmx smaller than -Xms" is warned with the given values exactly when the bag has an -Xms whose size in megabytes exceeds that of some given -Xmx. |
| JvmOptionsProperties.XmsAboveXmxWarnedIff | nucleus/core/kernel/src/main/java/com/sun/enterprise/v3/admin/commands/CreateJvmOptions.java:191-199 | "-Xms larger than -Xmx" is warned with the given values exactly when some given -Xms exceeds, in megabytes, the bag's -Xmx. |
| JvmOptionsProperties.SecondXmxWarnedButAdded | nucleus/core/kernel/src/main/java/com/sun/enterprise/v3/admin/commands/CreateJvmOptions.java:153-158 | A second -Xmx draws an "exists" warning but is still appended: afterwards the bag holds both. |
| CreateJvmOptionsCommand.JvmOptionBag.SetJvmOptions | nucleus/core/kernel/src/main/java/com/sun/enterprise/v3/admin/commands/CreateJvmOptions.java:243 | The bag's list becomes the given list. |
| CreateJvmOptionsCommand.ActionReport.AddPartMessage | nucleus/core/kernel/src/main/java/com/sun/enterprise/v3/admin/commands/CreateJvmOptions.java:147 | `addChild().setMessage(m)` appends m to the children and changes nothing else in the report. |
| CreateJvmOptionsCommand.Validate | nucleus/core/kernel/src/main/java/com/sun/enterprise/v3/admin/commands/CreateJvmOptions.java:202-217 | The loop returns exactly `FirstInvalid`, and it changes neither the list nor the bag. |
| CreateJvmOptionsCommand.ValidateSoftXmx | nucleus/core/kernel/src/main/java/com/sun/enterprise/v3/admin/commands/CreateJvmOptions.java:138-168 | It appends exactly `XmxWarnings` to the report's children and changes nothing else. |
| CreateJvmOptionsCommand.ValidateSoftXms | nucleus/core/kernel/src/main/java/com/sun/enterprise/v3/admin/commands/CreateJvmOptions.java:170-200 | It appends exactly `XmsWarnings` to the report's children and changes nothing else. |
| CreateJvmOptionsCommand.ValidateSoft | nucleus/core/kernel/src/main/java/com/sun/enterprise/v3/admin/commands/CreateJvmOptions.java:128-136 | It appends exactly `SoftWarnings`, option by option. It leaves the bag, the exit code and the report message unchanged, and never aborts. |
| CreateJvmOptionsCommand.AddX | nucleus/core/kernel/src/main/java/com/sun/enterprise/v3/admin/commands/CreateJvmOptions.java:236-254 | The bag becomes `AddOptions(old, given).options`, and the command's part receives its summary. |
| CreateJvmOptionsCommand.Execute | nucleus/core/kernel/src/main/java/com/sun/enterprise/v3/admin/commands/CreateJvmOptions.java:94-126 | The running command does what `Run` says. With no profiler it reports FAILURE with "create profiler first" and adds no part. On a rejected option it reports FAILURE with that message and one blank part. Otherwise it reports SUCCESS with the summary part followed by the warnings. Every failure leaves both bags unchanged, and the bag not chosen is never changed. |

## Left out

- HK2 injection, `preAuthorization` and `CLIUtil.updateConfigIfNeeded` are
  framework calls. The model receives the `java-config` bag and the
  optional profiler bag as parameters.
- `ConfigSupport.apply` and its transaction, and any concurrent change to
  the configuration: the transaction body is a plain method on the bag.
- `StringManager` localisation: each message is a `Message` constructor
  that carries the key's arguments. The " MB" suffix of the heap-bound
  messages is not modelled.
- The Java regular-expression engine: a hand-written scanner stands in for
  it, and it is proved equal to the expression's meaning. The `catch` at
  :149-152 and :181-184 is not modelled, because the constant pattern
  always compiles.
- `JvmOptionBag.toMeg`: its code is not part of this model, so it is a
  parameter. Any exception it throws is not modelled. Such an exception
  would end the command with FAILURE after the earlier warnings were
  already added.
- StartingWith: `getStartingWith` is not part of this model. The first
  option with the prefix stands in for whichever option it returns, and
  the contract promises only "some option with the prefix, or none when
  there is none".
- The generic `catch (Exception e)` path (:116-123): it only covers
  failures of the framework, and `setFailureCause` is not modelled.
- The initial state of the report, and the top message part's own
  message: the model keeps only the list of the top part's children.
- The Java `int` width of the sizes: they are unbounded integers. Both
  sides of a comparison come from `toMeg`, and no arithmetic is done on
  them.
- `AlternativesServlet.java`, a CDI injection test with no logic of its
  own.
