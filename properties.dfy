/** What create-jvm-options promises, stated about the functions of
    JvmOptions: how pruning treats order and repeats, when the command
    rejects, what it appends, and which warnings it gives. */
module JvmOptionsProperties {
  import opened JvmOptions

  // ---------------------------------------------------------------------
  // Pruning (removeAll) and appending (addAll)
  // ---------------------------------------------------------------------

  /** removeAll drops every copy of an option already in the bag and keeps
      every copy of the others: repeats within the given list survive. */
  lemma {:induction false} PrunedMultiplicity(given: seq<string>, current: seq<string>, o: string)
    ensures multiset(Pruned(given, current))[o] == if o in current then 0 else multiset(given)[o]
  {
    if given != [] {
      PrunedMultiplicity(given[1..], current, o);
      assert given == [given[0]] + given[1..];
    }
  }

  /** removeAll keeps the order of what it keeps: pruning a concatenation
      prunes each part. */
  lemma {:induction false} PrunedConcat(a: seq<string>, b: seq<string>, current: seq<string>)
    ensures Pruned(a + b, current) == Pruned(a, current) + Pruned(b, current)
  {
    if a != [] {
      var head := if a[0] in current then [] else [a[0]];
      assert (a + b)[1..] == a[1..] + b;
      assert Pruned(a + b, current) == head + Pruned(a[1..] + b, current);
      PrunedConcat(a[1..], b, current);
      AppendAssoc(head, Pruned(a[1..], current), Pruned(b, current));
    } else {
      assert a + b == b;
    }
  }

  /** Pruning removes nothing from a list none of whose options is present. */
  lemma {:induction false} PrunedNothingPresent(given: seq<string>, current: seq<string>)
    requires forall o :: o in given ==> o !in current
    ensures Pruned(given, current) == given
  {
    if given != [] {
      assert given[0] in given;
      assert forall o :: o in given[1..] ==> o in given;
      PrunedNothingPresent(given[1..], current);
      assert given == [given[0]] + given[1..];
    }
  }

  /** Pruning a list all of whose options are present leaves nothing. */
  lemma {:induction false} PrunedAllPresent(given: seq<string>, current: seq<string>)
    requires forall o :: o in given ==> o in current
    ensures Pruned(given, current) == []
  {
    if given != [] {
      assert given[0] in given;
      assert forall o :: o in given[1..] ==> o in given;
      PrunedAllPresent(given[1..], current);
    }
  }

  /** The bag after the append is the old list, unchanged in place, followed
      by the given options it did not hold, in given order. */
  lemma AddOptionsAppendsPruned(current: seq<string>, given: seq<string>)
    ensures var r := AddOptions(current, given);
      && r.options[..|current|] == current
      && r.options[|current|..] == Pruned(given, current)
      && (r.summary == NoOptionCreated <==> forall o :: o in given ==> o in current)
  {
    var r := AddOptions(current, given);
    var pruned := Pruned(given, current);
    if forall o :: o in given ==> o in current {
      PrunedAllPresent(given, current);
    } else {
      var o :| o in given && o !in current;
      assert o in pruned;
    }
  }

  /** Adding the same options a second time adds nothing and reports
      "no option created". */
  lemma AddOptionsIdempotent(current: seq<string>, given: seq<string>)
    ensures var once := AddOptions(current, given).options;
      AddOptions(once, given) == AddResult(once, NoOptionCreated)
  {
    var once := AddOptions(current, given).options;
    PrunedAllPresent(given, once);
    assert once + [] == once;
  }

  // ---------------------------------------------------------------------
  // The whole command
  // ---------------------------------------------------------------------

  /** Once a bag is found the command either rejects an option or appends;
      it rejects exactly when some given option lacks the leading dash or is
      already in the bag. */
  lemma RunRejectsIff(current: seq<string>, given: seq<string>, toMeg: (string, string) -> int)
    ensures var r := Run(Some(current), given, toMeg);
      && (r.Invalid? || r.Applied?)
      && (r.Invalid? <==> exists k :: 0 <= k < |given| && (!("-" <= given[k]) || given[k] in current))
  {
    var r := Run(Some(current), given, toMeg);
    if exists k :: 0 <= k < |given| && (!("-" <= given[k]) || given[k] in current) {
      var k :| 0 <= k < |given| && (!("-" <= given[k]) || given[k] in current);
      assert !Acceptable(current, given[k]);
    }
  }

  /** validate reports the first unacceptable option in the given order,
      as an invalid start when it lacks the dash (even if it is also a
      duplicate) and as a duplicate otherwise. */
  lemma {:induction false} FirstInvalidAt(current: seq<string>, opts: seq<string>, k: nat)
    requires k < |opts|
    requires forall j :: 0 <= j < k ==> Acceptable(current, opts[j])
    requires !Acceptable(current, opts[k])
    ensures FirstInvalid(current, opts) ==
      Some(if !("-" <= opts[k]) then InvalidStart(opts[k]) else AlreadyExists(opts[k]))
    decreases k
  {
    if k > 0 {
      assert Acceptable(current, opts[0]);
      FirstInvalidAt(current, opts[1..], k - 1);
    }
  }

  /** The same, for the whole command. */
  lemma RunRejectsFirst(current: seq<string>, given: seq<string>, toMeg: (string, string) -> int, k: nat)
    requires k < |given|
    requires forall j :: 0 <= j < k ==> "-" <= given[j] && given[j] !in current
    requires !("-" <= given[k]) || given[k] in current
    ensures Run(Some(current), given, toMeg) ==
      Invalid(if !("-" <= given[k]) then InvalidStart(given[k]) else AlreadyExists(given[k]))
  {
    FirstInvalidAt(current, given, k);
  }

  /** When no option is rejected, pruning is a no-op: the bag becomes the old
      list followed by exactly the given options, and the report counts them. */
  lemma RunAppendsGiven(current: seq<string>, given: seq<string>, toMeg: (string, string) -> int)
    requires Run(Some(current), given, toMeg).Applied?
    ensures var r := Run(Some(current), given, toMeg);
      && r.options == current + given
      && r.summary == (if given == [] then NoOptionCreated else Created(|given|))
      && r.warnings == SoftWarnings(current, given, toMeg)
  {
    assert forall o :: o in given ==> Acceptable(current, o);
    PrunedNothingPresent(given, current);
  }

  /** Running the command again with the same non-empty list fails on the
      first option, which is now a duplicate, and leaves the bag as it is. */
  lemma RerunRejected(current: seq<string>, given: seq<string>, toMeg: (string, string) -> int)
    requires given != []
    requires Run(Some(current), given, toMeg).Applied?
    ensures Run(Some(Run(Some(current), given, toMeg).options), given, toMeg) == Invalid(AlreadyExists(given[0]))
  {
    RunAppendsGiven(current, given, toMeg);
    var after := current + given;
    assert given[0] in given && Acceptable(current, given[0]);
    assert given[0] in after;
    RunRejectsFirst(after, given, toMeg, 0);
  }

  // ---------------------------------------------------------------------
  // Soft validation
  // ---------------------------------------------------------------------

  /** validateSoft's warnings are exactly those of the single options, each
      in the pass for that option. */
  lemma SoftWarningsOfOptions(current: seq<string>, opts: seq<string>, toMeg: (string, string) -> int, m: Message)
    ensures m in SoftWarnings(current, opts, toMeg) <==>
      exists k :: 0 <= k < |opts| && m in OptionWarnings(current, opts[k], toMeg)
  {
    if m in SoftWarnings(current, opts, toMeg) {
      var k := SoftWarningFromSomeOption(current, opts, toMeg, m);
    }
    if exists k :: 0 <= k < |opts| && m in OptionWarnings(current, opts[k], toMeg) {
      var k :| 0 <= k < |opts| && m in OptionWarnings(current, opts[k], toMeg);
      OptionWarningInSoftWarnings(current, opts, toMeg, m, k);
    }
  }

  lemma SoftWarningsStep(current: seq<string>, opts: seq<string>, toMeg: (string, string) -> int)
    requires opts != []
    ensures SoftWarnings(current, opts, toMeg) ==
      SoftWarnings(current, opts[..|opts| - 1], toMeg) + OptionWarnings(current, opts[|opts| - 1], toMeg)
  {
  }

  /** Concatenation is associative; stated once so that proofs about long
      warning lists need not compare them element by element. */
  lemma AppendAssoc<T>(a: seq<T>, b: seq<T>, c: seq<T>)
    ensures (a + b) + c == a + (b + c)
  {
  }

  /** Setting the message of the part added after a prefix. */
  lemma SetAfterPrefix<T>(a: seq<T>, x: T, y: T, rest: seq<T>)
    ensures (a + [x] + rest)[|a| := y] == a + [y] + rest
  {
  }

  /** One more pass of validateSoft's loop appends that option's warnings. */
  lemma SoftWarningsPrefixStep(current: seq<string>, opts: seq<string>, toMeg: (string, string) -> int, i: nat)
    requires i < |opts|
    ensures SoftWarnings(current, opts[..i + 1], toMeg) ==
      SoftWarnings(current, opts[..i], toMeg) + XmxWarnings(current, opts[i], toMeg) + XmsWarnings(current, opts[i], toMeg)
  {
    SoftWarningsStep(current, opts[..i + 1], toMeg);
    assert opts[..i + 1][..i] == opts[..i];
  }

  lemma {:induction false} SoftWarningFromSomeOption(current: seq<string>, opts: seq<string>, toMeg: (string, string) -> int, m: Message)
    returns (k: nat)
    requires m in SoftWarnings(current, opts, toMeg)
    ensures k < |opts| && m in OptionWarnings(current, opts[k], toMeg)
    decreases |opts|
  {
    var n := |opts| - 1;
    var front := opts[..n];
    SoftWarningsStep(current, opts, toMeg);
    if m in OptionWarnings(current, opts[n], toMeg) {
      k := n;
    } else {
      k := SoftWarningFromSomeOption(current, front, toMeg, m);
      assert opts[k] == front[k];
    }
  }

  lemma {:induction false} OptionWarningInSoftWarnings(current: seq<string>, opts: seq<string>, toMeg: (string, string) -> int, m: Message, k: nat)
    requires k < |opts| && m in OptionWarnings(current, opts[k], toMeg)
    ensures m in SoftWarnings(current, opts, toMeg)
    decreases |opts|
  {
    var n := |opts| - 1;
    var front := opts[..n];
    SoftWarningsStep(current, opts, toMeg);
    if k < n {
      assert front[k] == opts[k];
      OptionWarningInSoftWarnings(current, front, toMeg, m, k);
      assert m in SoftWarnings(current, front, toMeg);
    } else {
      assert k == n;
      assert m in OptionWarnings(current, opts[n], toMeg);
    }
  }

  /** What validateSoftXmx warns about, for one given option. */
  lemma XmxWarningsSpec(current: seq<string>, opt: string, toMeg: (string, string) -> int)
    ensures var w := XmxWarnings(current, opt, toMeg);
      && (!(XmxPrefix <= opt) ==> w == [])
      && (forall m :: m in w ==> m == InvalidXmx(opt) || m.XmxExists? || m.XmxSmallerThanXms?)
      && (InvalidXmx(opt) in w <==> XmxPrefix <= opt && !SizePattern.Matches(XmxPrefix, opt))
      && (forall e :: XmxExists(e) in w <==> XmxPrefix <= opt && StartingWith(current, XmxPrefix) == Some(e))
      && (forall given, config :: XmxSmallerThanXms(given, config) in w <==>
            && XmxPrefix <= opt
            && StartingWith(current, XmsPrefix).Some?
            && given == toMeg(opt, XmxPrefix)
            && config == toMeg(StartingWith(current, XmsPrefix).value, XmsPrefix)
            && config > given)
  {
  }

  /** What validateSoftXms warns about, for one given option. */
  lemma XmsWarningsSpec(current: seq<string>, opt: string, toMeg: (string, string) -> int)
    ensures var w := XmsWarnings(current, opt, toMeg);
      && (!(XmsPrefix <= opt) ==> w == [])
      && (forall m :: m in w ==> m == InvalidXms(opt) || m.XmsExists? || m.XmsLargerThanXmx?)
      && (InvalidXms(opt) in w <==> XmsPrefix <= opt && !SizePattern.Matches(XmsPrefix, opt))
      && (forall e :: XmsExists(e) in w <==> XmsPrefix <= opt && StartingWith(current, XmsPrefix) == Some(e))
      && (forall given, config :: XmsLargerThanXmx(given, config) in w <==>
            && XmsPrefix <= opt
            && StartingWith(current, XmxPrefix).Some?
            && given == toMeg(opt, XmsPrefix)
            && config == toMeg(StartingWith(current, XmxPrefix).value, XmxPrefix)
            && given > config)
  {
  }

  /** An option that is neither -Xmx nor -Xms draws no warning. */
  lemma {:induction false} NoHeapOptionNoWarning(current: seq<string>, opts: seq<string>, toMeg: (string, string) -> int)
    requires forall o :: o in opts ==> !(XmxPrefix <= o) && !(XmsPrefix <= o)
    ensures SoftWarnings(current, opts, toMeg) == []
    decreases |opts|
  {
    if opts != [] {
      var n := |opts| - 1;
      assert opts[n] in opts;
      assert forall o :: o in opts[..n] ==> o in opts;
      NoHeapOptionNoWarning(current, opts[..n], toMeg);
    }
  }

  lemma InvalidSizeOfOption(current: seq<string>, opt: string, toMeg: (string, string) -> int, o: string)
    ensures InvalidXmx(o) in OptionWarnings(current, opt, toMeg) <==>
      o == opt && XmxPrefix <= o && !SizePattern.Matches(XmxPrefix, o)
    ensures InvalidXms(o) in OptionWarnings(current, opt, toMeg) <==>
      o == opt && XmsPrefix <= o && !SizePattern.Matches(XmsPrefix, o)
  {
    var x, s := XmxWarnings(current, opt, toMeg), XmsWarnings(current, opt, toMeg);
    XmxWarningsSpec(current, opt, toMeg);
    XmsWarningsSpec(current, opt, toMeg);
    assert InvalidXmx(o) in x + s <==> InvalidXmx(o) in x;
    assert InvalidXms(o) in x + s <==> InvalidXms(o) in s;
  }

  /** An "invalid size" warning names exactly the given -Xmx and -Xms
      options whose size does not match the pattern. */
  lemma InvalidSizeWarnedIff(current: seq<string>, opts: seq<string>, toMeg: (string, string) -> int, o: string)
    ensures InvalidXmx(o) in SoftWarnings(current, opts, toMeg) <==>
      o in opts && XmxPrefix <= o && !SizePattern.Matches(XmxPrefix, o)
    ensures InvalidXms(o) in SoftWarnings(current, opts, toMeg) <==>
      o in opts && XmsPrefix <= o && !SizePattern.Matches(XmsPrefix, o)
  {
    SoftWarningsOfOptions(current, opts, toMeg, InvalidXmx(o));
    SoftWarningsOfOptions(current, opts, toMeg, InvalidXms(o));
    forall k | 0 <= k < |opts| {
      InvalidSizeOfOption(current, opts[k], toMeg, o);
    }
    if o in opts {
      var k :| 0 <= k < |opts| && opts[k] == o;
    }
  }

  /** An "exists" warning names the bag's -Xmx (-Xms) exactly when the bag
      holds one and some given option is an -Xmx (-Xms). */
  lemma ExistsWarnedIff(current: seq<string>, opts: seq<string>, toMeg: (string, string) -> int, e: string)
    ensures XmxExists(e) in SoftWarnings(current, opts, toMeg) <==>
      StartingWith(current, XmxPrefix) == Some(e) && exists k :: 0 <= k < |opts| && XmxPrefix <= opts[k]
    ensures XmsExists(e) in SoftWarnings(current, opts, toMeg) <==>
      StartingWith(current, XmsPrefix) == Some(e) && exists k :: 0 <= k < |opts| && XmsPrefix <= opts[k]
  {
    SoftWarningsOfOptions(current, opts, toMeg, XmxExists(e));
    SoftWarningsOfOptions(current, opts, toMeg, XmsExists(e));
    forall k | 0 <= k < |opts|
      ensures XmxExists(e) in OptionWarnings(current, opts[k], toMeg) <==>
        XmxPrefix <= opts[k] && StartingWith(current, XmxPrefix) == Some(e)
      ensures XmsExists(e) in OptionWarnings(current, opts[k], toMeg) <==>
        XmsPrefix <= opts[k] && StartingWith(current, XmsPrefix) == Some(e)
    {
      var x, s := XmxWarnings(current, opts[k], toMeg), XmsWarnings(current, opts[k], toMeg);
      XmxWarningsSpec(current, opts[k], toMeg);
      XmsWarningsSpec(current, opts[k], toMeg);
      assert XmxExists(e) in x + s <==> XmxExists(e) in x;
      assert XmsExists(e) in x + s <==> XmsExists(e) in s;
    }
  }

  /** A heap-bound conflict is warned about exactly when some given -Xmx
      converts to fewer megabytes than the bag's -Xms. */
  lemma XmxBelowXmsWarnedIff(current: seq<string>, given: seq<string>, toMeg: (string, string) -> int, xmx: int, xms: int)
    ensures XmxSmallerThanXms(xmx, xms) in SoftWarnings(current, given, toMeg) <==>
      && StartingWith(current, XmsPrefix).Some?
      && xms == toMeg(StartingWith(current, XmsPrefix).value, XmsPrefix)
      && xms > xmx
      && exists k :: 0 <= k < |given| && XmxPrefix <= given[k] && toMeg(given[k], XmxPrefix) == xmx
  {
    var m := XmxSmallerThanXms(xmx, xms);
    SoftWarningsOfOptions(current, given, toMeg, m);
    forall k | 0 <= k < |given|
      ensures m in OptionWarnings(current, given[k], toMeg) <==>
        && XmxPrefix <= given[k]
        && StartingWith(current, XmsPrefix).Some?
        && xmx == toMeg(given[k], XmxPrefix)
        && xms == toMeg(StartingWith(current, XmsPrefix).value, XmsPrefix)
        && xms > xmx
    {
      var x, s := XmxWarnings(current, given[k], toMeg), XmsWarnings(current, given[k], toMeg);
      XmxWarningsSpec(current, given[k], toMeg);
      XmsWarningsSpec(current, given[k], toMeg);
      assert m in x + s <==> m in x;
    }
  }

  /** The mirror image: some given -Xms converts to more megabytes than the
      bag's -Xmx. */
  lemma XmsAboveXmxWarnedIff(current: seq<string>, given: seq<string>, toMeg: (string, string) -> int, xms: int, xmx: int)
    ensures XmsLargerThanXmx(xms, xmx) in SoftWarnings(current, given, toMeg) <==>
      && StartingWith(current, XmxPrefix).Some?
      && xmx == toMeg(StartingWith(current, XmxPrefix).value, XmxPrefix)
      && xms > xmx
      && exists k :: 0 <= k < |given| && XmsPrefix <= given[k] && toMeg(given[k], XmsPrefix) == xms
  {
    var m := XmsLargerThanXmx(xms, xmx);
    SoftWarningsOfOptions(current, given, toMeg, m);
    forall k | 0 <= k < |given|
      ensures m in OptionWarnings(current, given[k], toMeg) <==>
        && XmsPrefix <= given[k]
        && StartingWith(current, XmxPrefix).Some?
        && xms == toMeg(given[k], XmsPrefix)
        && xmx == toMeg(StartingWith(current, XmxPrefix).value, XmxPrefix)
        && xms > xmx
    {
      var x, s := XmxWarnings(current, given[k], toMeg), XmsWarnings(current, given[k], toMeg);
      XmxWarningsSpec(current, given[k], toMeg);
      XmsWarningsSpec(current, given[k], toMeg);
      assert m in x + s <==> m in s;
    }
  }

  /** A given -Xmx draws an "exists" warning naming the bag's -Xmx whenever
      the bag holds one, and the soft check still lets the command append it:
      the bag then holds both. */
  lemma SecondXmxWarnedButAdded(current: seq<string>, given: seq<string>, toMeg: (string, string) -> int, k: nat, existing: string)
    requires k < |given| && XmxPrefix <= given[k]
    requires forall o :: o in given ==> Acceptable(current, o)
    requires StartingWith(current, XmxPrefix) == Some(existing)
    ensures var r := Run(Some(current), given, toMeg);
      && r.Applied?
      && XmxExists(existing) in r.warnings
      && existing in r.options && given[k] in r.options
  {
    ExistsWarnedIff(current, given, toMeg, existing);
    assert given[k] in given;
  }
}
