/** The heap-size shape that create-jvm-options checks a given -Xmx or -Xms
    option against: the Java regular expression
        <prefix>((\d)+[m|g|k|M|G|K]?)+
    applied with a whole-string match. Two quirks of that expression are kept:
    the bar is a member of the character class (so `-Xmx512|` matches), and the
    outer `+` repeats whole groups (so `-Xmx512m256k` matches). */
module SizePattern {

  /** `\d` without the UNICODE_CHARACTER_CLASS flag: ASCII digits only. */
  predicate IsDigit(c: char) {
    '0' <= c <= '9'
  }

  /** The character class `[m|g|k|M|G|K]`; inside brackets `|` is a literal. */
  predicate IsUnit(c: char) {
    c in "mgkMGK|"
  }

  /** s matches `((\d)+[m|g|k|M|G|K]?)+`: it opens a group with a digit. */
  predicate Groups(s: string)
    decreases |s|
  {
    |s| > 0 && IsDigit(s[0]) && AfterDigit(s[1..])
  }

  /** s may follow a digit inside `((\d)+[m|g|k|M|G|K]?)+`: nothing, more
      digits, or a unit that closes the group, followed by nothing or by
      another group. */
  predicate AfterDigit(s: string)
    decreases |s|
  {
    if s == [] then true
    else if IsDigit(s[0]) then AfterDigit(s[1..])
    else IsUnit(s[0]) && (|s| == 1 || Groups(s[1..]))
  }

  /** Pattern.compile(prefix + "((\\d)+[m|g|k|M|G|K]?)+").matcher(opt).matches() */
  predicate Matches(prefix: string, opt: string) {
    prefix <= opt && Groups(opt[|prefix|..])
  }

  // ---------------------------------------------------------------------
  // Reference semantics of the regular expression: one or more groups,
  // each `(\d)+` followed by at most one unit character.
  // ---------------------------------------------------------------------

  ghost predicate IsGroup(g: string) {
    && |g| > 0
    && IsDigit(g[0])
    && (forall i :: 0 <= i < |g| - 1 ==> IsDigit(g[i]))
    && (IsDigit(g[|g| - 1]) || IsUnit(g[|g| - 1]))
  }

  function Concat(gs: seq<string>): string {
    if gs == [] then [] else gs[0] + Concat(gs[1..])
  }

  ghost predicate SplitsInto(gs: seq<string>, s: string) {
    && |gs| > 0
    && (forall i :: 0 <= i < |gs| ==> IsGroup(gs[i]))
    && Concat(gs) == s
  }

  /** The scanner accepts exactly the strings the regular expression denotes. */
  lemma GroupsIsRegex(s: string)
    ensures Groups(s) <==> exists gs :: SplitsInto(gs, s)
  {
    if Groups(s) {
      var gs := GroupsSplit(s);
    }
    if exists gs :: SplitsInto(gs, s) {
      var gs :| SplitsInto(gs, s);
      SplitGroups(gs, s);
    }
  }

  /** Soundness of the scanner: an accepted string splits into groups. */
  lemma {:induction false} GroupsSplit(s: string) returns (gs: seq<string>)
    requires Groups(s)
    ensures SplitsInto(gs, s)
  {
    gs := AfterDigitSplit([s[0]], s[1..]);
    assert [s[0]] + s[1..] == s;
  }

  /** d is the run of digits of the group being scanned; s is what follows it. */
  lemma {:induction false} AfterDigitSplit(d: string, s: string) returns (gs: seq<string>)
    requires |d| > 0 && forall i :: 0 <= i < |d| ==> IsDigit(d[i])
    requires AfterDigit(s)
    ensures SplitsInto(gs, d + s)
    decreases |s|
  {
    if s == [] {
      gs := [d];
      assert d + s == d;
      assert Concat(gs) == d + Concat([]);
    } else if IsDigit(s[0]) {
      gs := AfterDigitSplit(d + [s[0]], s[1..]);
      assert (d + [s[0]]) + s[1..] == d + s;
    } else if |s| == 1 {
      gs := [d + s];
      assert Concat(gs) == (d + s) + Concat([]);
    } else {
      var rest := s[1..];
      var tail := AfterDigitSplit([rest[0]], rest[1..]);
      assert [rest[0]] + rest[1..] == rest;
      var g := d + [s[0]];
      gs := [g] + tail;
      assert gs[1..] == tail;
      assert g + rest == d + s;
    }
  }

  /** Completeness of the scanner: every split into groups is accepted. */
  lemma {:induction false} SplitGroups(gs: seq<string>, s: string)
    requires SplitsInto(gs, s)
    ensures Groups(s)
    decreases |gs|
  {
    var rest := Concat(gs[1..]);
    if |gs| > 1 {
      assert forall i :: 0 <= i < |gs[1..]| ==> gs[1..][i] == gs[i + 1];
      SplitGroups(gs[1..], rest);
    } else {
      assert gs[1..] == [];
    }
    GroupThen(gs[0], rest);
  }

  lemma GroupThen(g: string, rest: string)
    requires IsGroup(g)
    requires rest == [] || Groups(rest)
    ensures Groups(g + rest)
  {
    TailThen(g[1..], rest);
    assert (g + rest)[1..] == g[1..] + rest;
  }

  /** t is a group with its first digit removed. */
  lemma {:induction false} TailThen(t: string, rest: string)
    requires forall i :: 0 <= i < |t| - 1 ==> IsDigit(t[i])
    requires t != [] ==> IsDigit(t[|t| - 1]) || IsUnit(t[|t| - 1])
    requires rest == [] || Groups(rest)
    ensures AfterDigit(t + rest)
    decreases |t|
  {
    if t == [] {
      assert t + rest == rest;
    } else if IsDigit(t[0]) {
      TailThen(t[1..], rest);
      assert (t + rest)[1..] == t[1..] + rest;
    } else {
      assert |t| == 1;
      assert (t + rest)[1..] == rest;
    }
  }

  // ---------------------------------------------------------------------
  // The quirks, on concrete options.
  // ---------------------------------------------------------------------

  /** The outer `+` lets several sized groups follow one another. */
  lemma RepeatedGroupsMatch()
    ensures Matches("-Xmx", "-Xmx512m256k")
  {
    assert IsGroup("256k") && IsGroup("512m");
    GroupThen("256k", []);
    assert "256k" + [] == "256k";
    GroupThen("512m", "256k");
    assert "512m" + "256k" == "512m256k";
    assert "-Xmx512m256k"[4..] == "512m256k";
  }

  /** `|` inside the brackets is a unit like `m` or `g`. */
  lemma BarIsAUnit()
    ensures Matches("-Xms", "-Xms2|")
  {
    var gs := ["2|"];
    assert Concat(gs) == "2|" + Concat([]);
    SplitGroups(gs, "2|");
    assert "-Xms2|"[4..] == "2|";
  }

  /** No digits, an `=` sign, or a two-letter unit all fail the match. */
  lemma Mismatches()
    ensures !Matches("-Xmx", "-Xmx")
    ensures !Matches("-Xmx", "-Xmx=12")
    ensures !Matches("-Xmx", "-Xmx512mb")
    ensures !Matches("-Xms", "-Xmsm")
  {
    assert "-Xmx=12"[4..] == "=12";
    assert "-Xmx512mb"[4..] == "512mb";
    assert "512mb"[1..] == "12mb" && "12mb"[1..] == "2mb" && "2mb"[1..] == "mb";
    assert "mb"[1..] == "b";
    assert "-Xmsm"[4..] == "m";
  }
}
