/** What `vxCommand.parse` computes, stated option by option instead of as a loop: a line is
    accepted exactly when every option in it is acceptable on its own and no flag is given
    twice, and then the result holds each flag's value and the switches named. */
module ParseProperties {
  import opened Outcomes
  import opened JavaText
  import opened CommandExceptions
  import opened CommandArgs
  import opened OptionScanner
  import opened Commands

  // ---------------------------------------------------------------------------------------
  // One group

  /** A character that can only name a switch: alphanumeric, a switch's short name, and no
      flag's. */
  ghost predicate IsSwitchChar(flags: map<string, Flag>, switches: map<string, Switch>, c: char) {
    IsAlphanumeric(c) && !FlagHasChar(flags, c) && SwitchHasChar(switches, c)
  }

  /** A group that names one flag: a single alphanumeric character that is a flag's short
      name. */
  ghost predicate IsFlagGroup(flags: map<string, Flag>, g: string) {
    |g| == 1 && IsAlphanumeric(g[0]) && FlagHasChar(flags, g[0])
  }

  /** The switches named by the characters of `g` from `i` on. */
  ghost function GroupSwitches(flags: map<string, Flag>, switches: map<string, Switch>, g: string, i: nat)
    : set<string>
    requires i <= |g|
    decreases |g| - i
  {
    if i == |g| then {}
    else (if IsSwitchChar(flags, switches, g[i]) then {SwitchNameOf(switches, g[i])} else {})
         + GroupSwitches(flags, switches, g, i + 1)
  }

  /** The members of `GroupSwitches` are the switches of its switch characters. */
  lemma {:induction false} GroupSwitchesMembers(flags: map<string, Flag>, switches: map<string, Switch>,
                                                g: string, i: nat, n: string)
    requires i <= |g|
    ensures n in GroupSwitches(flags, switches, g, i) <==>
      exists j | i <= j < |g| :: IsSwitchChar(flags, switches, g[j]) && SwitchNameOf(switches, g[j]) == n
    decreases |g| - i
  {
    if i < |g| {
      GroupSwitchesMembers(flags, switches, g, i + 1, n);
    }
  }

  /** A switch character adds its switch and the scan moves on. */
  lemma ParseCharsSwitchStep(flags: map<string, Flag>, switches: map<string, Switch>,
                             s: string, end: nat, g: string, i: nat, acc: Found)
    requires end <= |s| && i < |g| && IsSwitchChar(flags, switches, g[i])
    ensures ParseChars(flags, switches, s, end, g, i, acc)
         == ParseChars(flags, switches, s, end, g, i + 1, Found(acc.flags, acc.switches + {SwitchNameOf(switches, g[i])}))
  {
  }

  /** In a group that does not name a flag, any other character stops the scan with its
      error. */
  lemma ParseCharsStops(flags: map<string, Flag>, switches: map<string, Switch>,
                        s: string, end: nat, g: string, i: nat, acc: Found)
    requires end <= |s| && i < |g| && !IsSwitchChar(flags, switches, g[i]) && !IsFlagGroup(flags, g)
    ensures ParseChars(flags, switches, s, end, g, i, acc)
         == Err(if CharInUse(flags, switches, g[i]) then FlagUsedAsSwitch(g[i]) else UnknownOption(g[i]))
  {
  }

  /** A group that does not name a flag is accepted exactly when every character is a switch
      character; the first character that is not is reported (`Flag used as switch` when it
      is a flag's, `Unknown flag or switch` otherwise), and an accepted group adds its
      switches and nothing else. */
  lemma SwitchGroup(flags: map<string, Flag>, switches: map<string, Switch>,
                    s: string, end: nat, g: string, i: nat, acc: Found)
    requires end <= |s| && i <= |g| && !IsFlagGroup(flags, g)
    ensures var r := ParseChars(flags, switches, s, end, g, i, acc);
      && (r.Ok? <==> forall j | i <= j < |g| :: IsSwitchChar(flags, switches, g[j]))
      && (r.Ok? ==> r.value == Found(acc.flags, acc.switches + GroupSwitches(flags, switches, g, i)))
      && (r.Err? ==> exists j | i <= j < |g| ::
            && (forall k | i <= k < j :: IsSwitchChar(flags, switches, g[k]))
            && !IsSwitchChar(flags, switches, g[j])
            && r.error == (if CharInUse(flags, switches, g[j]) then FlagUsedAsSwitch(g[j]) else UnknownOption(g[j])))
  {
    if ParseChars(flags, switches, s, end, g, i, acc).Ok? {
      SwitchGroupAccepted(flags, switches, s, end, g, i, acc);
    } else {
      var j := SwitchGroupRejected(flags, switches, s, end, g, i, acc);
    }
  }

  /** The accepted half of `SwitchGroup`: a group of switch characters is accepted, adding
      its switches; an accepted group is made of switch characters only. */
  lemma {:induction false} SwitchGroupAccepted(flags: map<string, Flag>, switches: map<string, Switch>,
                                               s: string, end: nat, g: string, i: nat, acc: Found)
    requires end <= |s| && i <= |g| && !IsFlagGroup(flags, g)
    ensures var r := ParseChars(flags, switches, s, end, g, i, acc);
      && (r.Ok? ==> forall j | i <= j < |g| :: IsSwitchChar(flags, switches, g[j]))
      && (r.Ok? ==> r.value == Found(acc.flags, acc.switches + GroupSwitches(flags, switches, g, i)))
    decreases |g| - i
  {
    if i < |g| {
      var c := g[i];
      if IsSwitchChar(flags, switches, c) {
        var next := Found(acc.flags, acc.switches + {SwitchNameOf(switches, c)});
        ParseCharsSwitchStep(flags, switches, s, end, g, i, acc);
        SwitchGroupAccepted(flags, switches, s, end, g, i + 1, next);
        assert next.switches + GroupSwitches(flags, switches, g, i + 1)
            == acc.switches + GroupSwitches(flags, switches, g, i);
      } else {
        ParseCharsStops(flags, switches, s, end, g, i, acc);
      }
    }
  }

  /** The rejected half of `SwitchGroup`: a rejected group has a first character `j` that
      is not a switch character, and the error names it. */
  lemma {:induction false} SwitchGroupRejected(flags: map<string, Flag>, switches: map<string, Switch>,
                                               s: string, end: nat, g: string, i: nat, acc: Found)
    returns (j: nat)
    requires end <= |s| && i <= |g| && !IsFlagGroup(flags, g)
    requires ParseChars(flags, switches, s, end, g, i, acc).Err?
    ensures i <= j < |g|
    ensures forall k | i <= k < j :: IsSwitchChar(flags, switches, g[k])
    ensures !IsSwitchChar(flags, switches, g[j])
    ensures ParseChars(flags, switches, s, end, g, i, acc).error
      == (if CharInUse(flags, switches, g[j]) then FlagUsedAsSwitch(g[j]) else UnknownOption(g[j]))
    decreases |g| - i
  {
    if i == |g| {
      assert false;
    }
    var c := g[i];
    if IsSwitchChar(flags, switches, c) {
      var next := Found(acc.flags, acc.switches + {SwitchNameOf(switches, c)});
      ParseCharsSwitchStep(flags, switches, s, end, g, i, acc);
      j := SwitchGroupRejected(flags, switches, s, end, g, i + 1, next);
    } else {
      ParseCharsStops(flags, switches, s, end, g, i, acc);
      j := i;
    }
  }

  /** A group naming one flag is accepted exactly when a value can be read after it, the
      flag has no value yet, and the validator accepts the value, which is then stored; the
      checks are made in that order. */
  lemma FlagGroup(flags: map<string, Flag>, switches: map<string, Switch>,
                  s: string, end: nat, g: string, acc: Found)
    requires end <= |s| && IsFlagGroup(flags, g)
    ensures var r := ParseChars(flags, switches, s, end, g, 0, acc);
      var n := FlagNameOf(flags, g[0]);
      var v := FlagValue(s, end);
      && (r.Ok? <==> v.Ok? && n !in acc.flags && flags[n].validator(v.value))
      && (r.Ok? ==> r.value == Found(acc.flags[n := v.value], acc.switches))
      && (v.Err? ==> r == Err(FlagRequiresArgument(g[0])))
      && (v.Ok? && n in acc.flags ==> r == Err(DuplicateFlag(flags[n].name)))
      && (v.Ok? && n !in acc.flags && !flags[n].validator(v.value) ==> r == Err(ValidationFailed(flags[n])))
  {
  }

  // ---------------------------------------------------------------------------------------
  // One option

  /** The pattern matches at `p` and its group names one flag. */
  ghost predicate FlagOptionAt(flags: map<string, Flag>, s: string, p: nat) {
    IntroducerAt(s, p) && IsFlagGroup(flags, Group(s, p))
  }

  /** The flag named at `p`. */
  ghost function FlagAt(flags: map<string, Flag>, s: string, p: nat): string
    requires FlagOptionAt(flags, s, p)
  {
    FlagNameOf(flags, Group(s, p)[0])
  }

  /** The value read after the option at `p`. */
  function ValueAt(s: string, p: nat): Result<string, CommandException>
    requires IntroducerAt(s, p)
  {
    FlagValue(s, MatchEnd(s, p))
  }

  /** The option at `p` is acceptable on its own: a long name always is; a flag needs a
      value that its validator accepts; any other group must consist of switch characters. */
  ghost predicate OptionAccepted(flags: map<string, Flag>, switches: map<string, Switch>, s: string, p: nat)
    requires IntroducerAt(s, p)
  {
    var g := Group(s, p);
    if g[0] == '-' then true
    else if IsFlagGroup(flags, g) then
      ValueAt(s, p).Ok? && flags[FlagAt(flags, s, p)].validator(ValueAt(s, p).value)
    else forall j | 0 <= j < |g| :: IsSwitchChar(flags, switches, g[j])
  }

  /** The switches the option at `p` sets. */
  ghost function SwitchesAt(flags: map<string, Flag>, switches: map<string, Switch>, s: string, p: nat)
    : set<string>
    requires IntroducerAt(s, p)
  {
    var g := Group(s, p);
    if g[0] == '-' then {} else GroupSwitches(flags, switches, g, 0)
  }

  // ---------------------------------------------------------------------------------------
  // A sequence of options

  ghost predicate AllIntroducers(s: string, ms: seq<nat>) {
    forall k | 0 <= k < |ms| :: IntroducerAt(s, ms[k])
  }

  /** Every option of `ms` is acceptable on its own. */
  ghost predicate AllAccepted(flags: map<string, Flag>, switches: map<string, Switch>, s: string, ms: seq<nat>)
    requires AllIntroducers(s, ms)
    decreases |ms|
  {
    |ms| == 0 || (OptionAccepted(flags, switches, s, ms[0]) && AllAccepted(flags, switches, s, ms[1..]))
  }

  /** No flag of `ms` is in `used`, and no flag is named twice in `ms`. */
  ghost predicate FlagsUnique(flags: map<string, Flag>, s: string, ms: seq<nat>, used: set<string>)
    decreases |ms|
  {
    if |ms| == 0 then true
    else if FlagOptionAt(flags, s, ms[0]) then
      FlagAt(flags, s, ms[0]) !in used && FlagsUnique(flags, s, ms[1..], used + {FlagAt(flags, s, ms[0])})
    else FlagsUnique(flags, s, ms[1..], used)
  }

  /** The flag values the options of `ms` give. */
  ghost function FlagsOf(flags: map<string, Flag>, s: string, ms: seq<nat>): map<string, string>
    decreases |ms|
  {
    if |ms| == 0 then map[]
    else
      var rest := FlagsOf(flags, s, ms[1..]);
      if FlagOptionAt(flags, s, ms[0]) && ValueAt(s, ms[0]).Ok? then rest[FlagAt(flags, s, ms[0]) := ValueAt(s, ms[0]).value]
      else rest
  }

  /** The switches the options of `ms` set. */
  ghost function SwitchesOf(flags: map<string, Flag>, switches: map<string, Switch>, s: string, ms: seq<nat>)
    : set<string>
    requires AllIntroducers(s, ms)
    decreases |ms|
  {
    if |ms| == 0 then {} else SwitchesAt(flags, switches, s, ms[0]) + SwitchesOf(flags, switches, s, ms[1..])
  }

  /** Every key of `FlagsOf` is the flag of one of the options. */
  lemma {:induction false} FlagsOfKeys(flags: map<string, Flag>, s: string, ms: seq<nat>, n: string)
    returns (p: nat)
    requires n in FlagsOf(flags, s, ms)
    ensures p in ms && FlagOptionAt(flags, s, p) && FlagAt(flags, s, p) == n
    decreases |ms|
  {
    if FlagOptionAt(flags, s, ms[0]) && FlagAt(flags, s, ms[0]) == n {
      p := ms[0];
    } else {
      var rest := ms[1..];
      assert n in FlagsOf(flags, s, rest);
      p := FlagsOfKeys(flags, s, rest, n);
      assert p in ms by {
        var j :| 0 <= j < |rest| && rest[j] == p;
        assert ms[j + 1] == p;
      }
    }
  }

  /** What the loop over the matches `ms`, starting from `acc`, computes: it succeeds exactly
      when every option is acceptable and no flag is given twice or was already given, and
      then adds the flag values and switches of `ms` to `acc`. */
  ghost predicate LoopComputes(flags: map<string, Flag>, switches: map<string, Switch>,
                               s: string, ms: seq<nat>, acc: Found)
    requires AllIntroducers(s, ms)
  {
    var r := ParseMatches(flags, switches, s, ms, acc);
    && (r.Ok? <==> AllAccepted(flags, switches, s, ms) && FlagsUnique(flags, s, ms, acc.flags.Keys))
    && (r.Ok? ==> r.value == Found(acc.flags + FlagsOf(flags, s, ms), acc.switches + SwitchesOf(flags, switches, s, ms)))
  }

  /** The match loop computes the option-by-option result. */
  lemma {:induction false} ParseMatchesSpec(flags: map<string, Flag>, switches: map<string, Switch>,
                                            s: string, ms: seq<nat>, acc: Found)
    requires AllIntroducers(s, ms)
    ensures var r := ParseMatches(flags, switches, s, ms, acc);
      && (r.Ok? <==> AllAccepted(flags, switches, s, ms) && FlagsUnique(flags, s, ms, acc.flags.Keys))
      && (r.Ok? ==> r.value == Found(acc.flags + FlagsOf(flags, s, ms), acc.switches + SwitchesOf(flags, switches, s, ms)))
    decreases |ms|
  {
    if |ms| > 0 {
      var p := ms[0];
      var rest := ms[1..];
      var g := Group(s, p);
      var end := MatchEnd(s, p);
      if g[0] == '-' {
        ParseMatchesSpec(flags, switches, s, rest, acc);
        LongOptionStep(flags, switches, s, ms, acc);
      } else {
        var head := ParseChars(flags, switches, s, end, g, 0, acc);
        if head.Ok? {
          ParseMatchesSpec(flags, switches, s, rest, head.value);
        }
        if IsFlagGroup(flags, g) {
          FlagOptionStep(flags, switches, s, ms, acc);
        } else {
          SwitchOptionStep(flags, switches, s, ms, acc);
        }
      }
    }
  }

  /** A long-named option changes nothing. */
  lemma LongOptionStep(flags: map<string, Flag>, switches: map<string, Switch>,
                       s: string, ms: seq<nat>, acc: Found)
    requires AllIntroducers(s, ms) && |ms| > 0 && Group(s, ms[0])[0] == '-'
    requires LoopComputes(flags, switches, s, ms[1..], acc)
    ensures LoopComputes(flags, switches, s, ms, acc)
  {
    var rest := ms[1..];
    assert ParseMatches(flags, switches, s, ms, acc) == ParseMatches(flags, switches, s, rest, acc);
    assert !FlagOptionAt(flags, s, ms[0]);
    assert FlagsOf(flags, s, ms) == FlagsOf(flags, s, rest);
    assert SwitchesOf(flags, switches, s, ms) == SwitchesOf(flags, switches, s, rest);
  }

  /** A flag option stores its value, unless it fails. */
  lemma FlagOptionStep(flags: map<string, Flag>, switches: map<string, Switch>,
                       s: string, ms: seq<nat>, acc: Found)
    requires AllIntroducers(s, ms) && |ms| > 0 && IsFlagGroup(flags, Group(s, ms[0]))
    requires var head := ParseChars(flags, switches, s, MatchEnd(s, ms[0]), Group(s, ms[0]), 0, acc);
      head.Ok? ==> LoopComputes(flags, switches, s, ms[1..], head.value)
    ensures LoopComputes(flags, switches, s, ms, acc)
  {
    var p := ms[0];
    var g := Group(s, p);
    FlagGroup(flags, switches, s, MatchEnd(s, p), g, acc);
    var head := ParseChars(flags, switches, s, MatchEnd(s, p), g, 0, acc);
    if head.Ok? {
      FlagOptionStored(flags, switches, s, ms, acc);
    } else {
      assert ParseMatches(flags, switches, s, ms, acc) == Err(head.error);
    }
  }

  /** A flag option whose group succeeds adds exactly its value. */
  lemma FlagOptionStored(flags: map<string, Flag>, switches: map<string, Switch>,
                         s: string, ms: seq<nat>, acc: Found)
    requires AllIntroducers(s, ms) && |ms| > 0 && IsFlagGroup(flags, Group(s, ms[0]))
    requires var head := ParseChars(flags, switches, s, MatchEnd(s, ms[0]), Group(s, ms[0]), 0, acc);
      head.Ok? && LoopComputes(flags, switches, s, ms[1..], head.value)
    ensures LoopComputes(flags, switches, s, ms, acc)
  {
    var p := ms[0];
    var rest := ms[1..];
    var g := Group(s, p);
    FlagGroup(flags, switches, s, MatchEnd(s, p), g, acc);
    var n := FlagAt(flags, s, p);
    var v := ValueAt(s, p).value;
    var next := Found(acc.flags[n := v], acc.switches);
    assert ParseChars(flags, switches, s, MatchEnd(s, p), g, 0, acc) == Ok(next);
    ParseMatchesShortStep(flags, switches, s, ms, acc);
    FlagOptionSetsNoSwitch(flags, switches, s, ms);
    FlagOptionFacts(flags, switches, s, ms, acc.flags.Keys);
    assert next.flags.Keys == acc.flags.Keys + {n};
    var r := ParseMatches(flags, switches, s, rest, next);
    assert ParseMatches(flags, switches, s, ms, acc) == r;
    if r.Ok? {
      FlagNotGivenLater(flags, s, ms, acc.flags.Keys);
      UpdateThenUnion(acc.flags, FlagsOf(flags, s, rest), n, v);
    }
  }

  /** An accepted flag option adds its value to `FlagsOf`, is accepted, and leaves the rest
      to be unique after its own flag. */
  lemma FlagOptionFacts(flags: map<string, Flag>, switches: map<string, Switch>, s: string, ms: seq<nat>,
                        used: set<string>)
    requires AllIntroducers(s, ms) && |ms| > 0 && FlagOptionAt(flags, s, ms[0]) && ValueAt(s, ms[0]).Ok?
    requires flags[FlagAt(flags, s, ms[0])].validator(ValueAt(s, ms[0]).value)
    ensures AllIntroducers(s, ms[1..])
    ensures FlagsOf(flags, s, ms) == FlagsOf(flags, s, ms[1..])[FlagAt(flags, s, ms[0]) := ValueAt(s, ms[0]).value]
    ensures AllAccepted(flags, switches, s, ms) == AllAccepted(flags, switches, s, ms[1..])
    ensures FlagsUnique(flags, s, ms, used)
         == (FlagAt(flags, s, ms[0]) !in used && FlagsUnique(flags, s, ms[1..], used + {FlagAt(flags, s, ms[0])}))
  {
    RestAreIntroducers(s, ms);
    assert OptionAccepted(flags, switches, s, ms[0]);
  }

  /** A flag option sets no switch. */
  lemma FlagOptionSetsNoSwitch(flags: map<string, Flag>, switches: map<string, Switch>, s: string, ms: seq<nat>)
    requires AllIntroducers(s, ms) && |ms| > 0 && IsFlagGroup(flags, Group(s, ms[0]))
    ensures SwitchesOf(flags, switches, s, ms) == SwitchesOf(flags, switches, s, ms[1..])
  {
    var g := Group(s, ms[0]);
    assert SwitchesAt(flags, switches, s, ms[0]) == {} by {
      assert !IsSwitchChar(flags, switches, g[0]);
      assert GroupSwitches(flags, switches, g, 1) == {};
    }
  }

  /** When the flags are unique, the flag of the first option is not among the later ones. */
  lemma FlagNotGivenLater(flags: map<string, Flag>, s: string, ms: seq<nat>, used: set<string>)
    requires |ms| > 0 && FlagOptionAt(flags, s, ms[0])
    requires FlagsUnique(flags, s, ms, used)
    ensures FlagAt(flags, s, ms[0]) !in FlagsOf(flags, s, ms[1..])
  {
    var n := FlagAt(flags, s, ms[0]);
    var rest := ms[1..];
    if n in FlagsOf(flags, s, rest) {
      var p := FlagsOfKeys(flags, s, rest, n);
      FlagNotUsed(flags, s, rest, used + {n}, p);
    }
  }

  /** Updating a key that the right operand lacks commutes with map union.
      Stated on its own so that the proofs that use it stay small for the solver. */
  lemma UpdateThenUnion(m: map<string, string>, r: map<string, string>, n: string, v: string)
    requires n !in r
    ensures m[n := v] + r == m + r[n := v]
  {
  }

  /** The loop reads a short-named group and, when it succeeds, goes on from its result. */
  lemma ParseMatchesShortStep(flags: map<string, Flag>, switches: map<string, Switch>,
                              s: string, ms: seq<nat>, acc: Found)
    requires AllIntroducers(s, ms) && |ms| > 0 && Group(s, ms[0])[0] != '-'
    ensures AllIntroducers(s, ms[1..])
    ensures var head := ParseChars(flags, switches, s, MatchEnd(s, ms[0]), Group(s, ms[0]), 0, acc);
      ParseMatches(flags, switches, s, ms, acc)
        == if head.Ok? then ParseMatches(flags, switches, s, ms[1..], head.value) else Err(head.error)
  {
    assert forall k | 0 <= k < |ms[1..]| :: ms[1..][k] == ms[k + 1];
  }

  /** Any other short-named option sets its switches, unless it fails. */
  lemma SwitchOptionStep(flags: map<string, Flag>, switches: map<string, Switch>,
                         s: string, ms: seq<nat>, acc: Found)
    requires AllIntroducers(s, ms) && |ms| > 0
    requires Group(s, ms[0])[0] != '-' && !IsFlagGroup(flags, Group(s, ms[0]))
    requires var head := ParseChars(flags, switches, s, MatchEnd(s, ms[0]), Group(s, ms[0]), 0, acc);
      head.Ok? ==> LoopComputes(flags, switches, s, ms[1..], head.value)
    ensures LoopComputes(flags, switches, s, ms, acc)
  {
    var p := ms[0];
    var rest := ms[1..];
    var g := Group(s, p);
    var head := ParseChars(flags, switches, s, MatchEnd(s, p), g, 0, acc);
    ParseMatchesShortStep(flags, switches, s, ms, acc);
    SwitchGroup(flags, switches, s, MatchEnd(s, p), g, 0, acc);
    assert OptionAccepted(flags, switches, s, p) <==> head.Ok?;
    assert AllAccepted(flags, switches, s, ms) <==> head.Ok? && AllAccepted(flags, switches, s, rest);
    SwitchOptionUnfolds(flags, switches, s, ms, acc.flags.Keys);
  }

  /** An option that names no flag leaves the flags alone and adds the switches of its
      group. */
  lemma SwitchOptionUnfolds(flags: map<string, Flag>, switches: map<string, Switch>,
                            s: string, ms: seq<nat>, used: set<string>)
    requires AllIntroducers(s, ms) && |ms| > 0
    requires Group(s, ms[0])[0] != '-' && !IsFlagGroup(flags, Group(s, ms[0]))
    ensures FlagsUnique(flags, s, ms, used) == FlagsUnique(flags, s, ms[1..], used)
    ensures FlagsOf(flags, s, ms) == FlagsOf(flags, s, ms[1..])
    ensures SwitchesOf(flags, switches, s, ms)
         == GroupSwitches(flags, switches, Group(s, ms[0]), 0) + SwitchesOf(flags, switches, s, ms[1..])
  {
    assert !FlagOptionAt(flags, s, ms[0]);
    assert SwitchesAt(flags, switches, s, ms[0]) == GroupSwitches(flags, switches, Group(s, ms[0]), 0);
  }

  /** The recursive `AllAccepted` says that every option is acceptable. */
  lemma {:induction false} AllAcceptedMeans(flags: map<string, Flag>, switches: map<string, Switch>,
                                            s: string, ms: seq<nat>)
    requires AllIntroducers(s, ms)
    ensures AllAccepted(flags, switches, s, ms) <==>
      forall k | 0 <= k < |ms| :: OptionAccepted(flags, switches, s, ms[k])
    decreases |ms|
  {
    if |ms| > 0 {
      var rest := ms[1..];
      assert forall k | 0 <= k < |rest| :: rest[k] == ms[k + 1];
      AllAcceptedMeans(flags, switches, s, rest);
      if forall k | 0 <= k < |rest| :: OptionAccepted(flags, switches, s, rest[k]) {
        if OptionAccepted(flags, switches, s, ms[0]) {
          forall k | 0 <= k < |ms| ensures OptionAccepted(flags, switches, s, ms[k]) {
            if k > 0 {
              assert ms[k] == rest[k - 1];
            }
          }
        }
      }
    }
  }

  /** The recursive `FlagsUnique` says that no flag of `ms` is in `used` and that the flags of
      different options of `ms` differ. */
  lemma FlagsUniqueMeans(flags: map<string, Flag>, s: string, ms: seq<nat>, used: set<string>)
    ensures FlagsUnique(flags, s, ms, used) <==>
      && (forall k | 0 <= k < |ms| && FlagOptionAt(flags, s, ms[k]) :: FlagAt(flags, s, ms[k]) !in used)
      && (forall j, k | 0 <= j < k < |ms| && FlagOptionAt(flags, s, ms[j]) && FlagOptionAt(flags, s, ms[k]) ::
            FlagAt(flags, s, ms[j]) != FlagAt(flags, s, ms[k]))
  {
    if FlagsUnique(flags, s, ms, used) {
      FlagsUniqueSound(flags, s, ms, used);
    } else if && (forall k | 0 <= k < |ms| && FlagOptionAt(flags, s, ms[k]) :: FlagAt(flags, s, ms[k]) !in used)
              && (forall j, k | 0 <= j < k < |ms| && FlagOptionAt(flags, s, ms[j]) && FlagOptionAt(flags, s, ms[k]) ::
                    FlagAt(flags, s, ms[j]) != FlagAt(flags, s, ms[k])) {
      FlagsUniqueComplete(flags, s, ms, used);
    }
  }

  /** `FlagsUnique` rules out a flag in `used` and a flag named twice. */
  lemma {:induction false} FlagsUniqueSound(flags: map<string, Flag>, s: string, ms: seq<nat>, used: set<string>)
    requires FlagsUnique(flags, s, ms, used)
    ensures forall k | 0 <= k < |ms| && FlagOptionAt(flags, s, ms[k]) :: FlagAt(flags, s, ms[k]) !in used
    ensures forall j, k | 0 <= j < k < |ms| && FlagOptionAt(flags, s, ms[j]) && FlagOptionAt(flags, s, ms[k]) ::
              FlagAt(flags, s, ms[j]) != FlagAt(flags, s, ms[k])
    decreases |ms|
  {
    if |ms| > 0 {
      var rest := ms[1..];
      var used' := if FlagOptionAt(flags, s, ms[0]) then used + {FlagAt(flags, s, ms[0])} else used;
      FlagsUniqueSound(flags, s, rest, used');
      forall k | 0 < k < |ms| && FlagOptionAt(flags, s, ms[k])
        ensures FlagAt(flags, s, ms[k]) !in used'
      {
        assert rest[k - 1] == ms[k];
      }
      assert used <= used';
      assert FlagOptionAt(flags, s, ms[0]) ==> FlagAt(flags, s, ms[0]) in used' && FlagAt(flags, s, ms[0]) !in used;
      forall j, k | 0 < j < k < |ms| && FlagOptionAt(flags, s, ms[j]) && FlagOptionAt(flags, s, ms[k])
        ensures FlagAt(flags, s, ms[j]) != FlagAt(flags, s, ms[k])
      {
        assert rest[j - 1] == ms[j] && rest[k - 1] == ms[k];
      }
    }
  }

  /** With no flag in `used` and none named twice, `FlagsUnique` holds. */
  lemma {:induction false} FlagsUniqueComplete(flags: map<string, Flag>, s: string, ms: seq<nat>, used: set<string>)
    requires forall k | 0 <= k < |ms| && FlagOptionAt(flags, s, ms[k]) :: FlagAt(flags, s, ms[k]) !in used
    requires forall j, k | 0 <= j < k < |ms| && FlagOptionAt(flags, s, ms[j]) && FlagOptionAt(flags, s, ms[k]) ::
               FlagAt(flags, s, ms[j]) != FlagAt(flags, s, ms[k])
    ensures FlagsUnique(flags, s, ms, used)
    decreases |ms|
  {
    if |ms| > 0 {
      var rest := ms[1..];
      var used' := if FlagOptionAt(flags, s, ms[0]) then used + {FlagAt(flags, s, ms[0])} else used;
      forall k | 0 <= k < |rest| && FlagOptionAt(flags, s, rest[k])
        ensures FlagAt(flags, s, rest[k]) !in used'
      {
        assert rest[k] == ms[k + 1];
      }
      forall j, k | 0 <= j < k < |rest| && FlagOptionAt(flags, s, rest[j]) && FlagOptionAt(flags, s, rest[k])
        ensures FlagAt(flags, s, rest[j]) != FlagAt(flags, s, rest[k])
      {
        assert rest[j] == ms[j + 1] && rest[k] == ms[k + 1];
      }
      FlagsUniqueComplete(flags, s, rest, used');
    }
  }

  /** The value of every flag option of `ms` is in `FlagsOf`. */
  lemma FlagsOfValues(flags: map<string, Flag>, switches: map<string, Switch>,
                      s: string, ms: seq<nat>, used: set<string>)
    requires AllIntroducers(s, ms) && AllAccepted(flags, switches, s, ms) && FlagsUnique(flags, s, ms, used)
    ensures forall p | p in ms && FlagOptionAt(flags, s, p) ::
      && ValueAt(s, p).Ok?
      && FlagAt(flags, s, p) in FlagsOf(flags, s, ms)
      && FlagsOf(flags, s, ms)[FlagAt(flags, s, p)] == ValueAt(s, p).value
  {
    forall p | p in ms && FlagOptionAt(flags, s, p)
      ensures && ValueAt(s, p).Ok?
              && FlagAt(flags, s, p) in FlagsOf(flags, s, ms)
              && FlagsOf(flags, s, ms)[FlagAt(flags, s, p)] == ValueAt(s, p).value
    {
      FlagValueStored(flags, switches, s, ms, used, p);
    }
  }

  /** The value of one flag option of `ms` is in `FlagsOf`. */
  lemma {:induction false} FlagValueStored(flags: map<string, Flag>, switches: map<string, Switch>,
                                           s: string, ms: seq<nat>, used: set<string>, p: nat)
    requires AllIntroducers(s, ms) && AllAccepted(flags, switches, s, ms) && FlagsUnique(flags, s, ms, used)
    requires p in ms && FlagOptionAt(flags, s, p)
    ensures && ValueAt(s, p).Ok?
            && FlagAt(flags, s, p) in FlagsOf(flags, s, ms)
            && FlagsOf(flags, s, ms)[FlagAt(flags, s, p)] == ValueAt(s, p).value
    decreases |ms|
  {
    var rest := ms[1..];
    var first := FlagOptionAt(flags, s, ms[0]);
    var used' := if first then used + {FlagAt(flags, s, ms[0])} else used;
    assert OptionAccepted(flags, switches, s, ms[0]);
    if ms[0] != p {
      RestAreIntroducers(s, ms);
      assert p in rest by {
        var k :| 0 <= k < |ms| && ms[k] == p;
        assert rest[k - 1] == p;
      }
      FlagValueStored(flags, switches, s, rest, used', p);
      FlagNotUsed(flags, s, rest, used', p);
    }
  }

  /** A flag option of `ms` does not name a flag of `used` when `FlagsUnique` holds. */
  lemma {:induction false} FlagNotUsed(flags: map<string, Flag>, s: string, ms: seq<nat>, used: set<string>, p: nat)
    requires FlagsUnique(flags, s, ms, used) && p in ms && FlagOptionAt(flags, s, p)
    ensures FlagAt(flags, s, p) !in used
    decreases |ms|
  {
    if ms[0] != p {
      var rest := ms[1..];
      var used' := if FlagOptionAt(flags, s, ms[0]) then used + {FlagAt(flags, s, ms[0])} else used;
      assert p in rest by {
        var k :| 0 <= k < |ms| && ms[k] == p;
        assert rest[k - 1] == p;
      }
      FlagNotUsed(flags, s, rest, used', p);
    }
  }

  /** The switches of `SwitchesOf` are those of its options. */
  lemma SwitchesOfMembers(flags: map<string, Flag>, switches: map<string, Switch>,
                          s: string, ms: seq<nat>, n: string)
    requires AllIntroducers(s, ms)
    ensures n in SwitchesOf(flags, switches, s, ms) <==>
      exists p | p in ms :: IntroducerAt(s, p) && n in SwitchesAt(flags, switches, s, p)
  {
    if n in SwitchesOf(flags, switches, s, ms) {
      var p := SwitchOfSome(flags, switches, s, ms, n);
    }
    forall p | p in ms && IntroducerAt(s, p) && n in SwitchesAt(flags, switches, s, p)
      ensures n in SwitchesOf(flags, switches, s, ms)
    {
      SwitchOfEach(flags, switches, s, ms, n, p);
    }
  }

  /** A switch in `SwitchesOf` is set by one of the options. */
  lemma {:induction false} SwitchOfSome(flags: map<string, Flag>, switches: map<string, Switch>,
                                        s: string, ms: seq<nat>, n: string) returns (p: nat)
    requires AllIntroducers(s, ms) && n in SwitchesOf(flags, switches, s, ms)
    ensures p in ms && IntroducerAt(s, p) && n in SwitchesAt(flags, switches, s, p)
    decreases |ms|
  {
    if n in SwitchesAt(flags, switches, s, ms[0]) {
      p := ms[0];
    } else {
      var rest := ms[1..];
      RestAreIntroducers(s, ms);
      assert SwitchesOf(flags, switches, s, ms)
          == SwitchesAt(flags, switches, s, ms[0]) + SwitchesOf(flags, switches, s, rest);
      p := SwitchOfSome(flags, switches, s, rest, n);
      assert p in ms by {
        var j :| 0 <= j < |rest| && rest[j] == p;
        assert ms[j + 1] == p;
      }
    }
  }

  /** A switch set by one of the options is in `SwitchesOf`. */
  lemma {:induction false} SwitchOfEach(flags: map<string, Flag>, switches: map<string, Switch>,
                                        s: string, ms: seq<nat>, n: string, p: nat)
    requires AllIntroducers(s, ms) && p in ms && IntroducerAt(s, p) && n in SwitchesAt(flags, switches, s, p)
    ensures n in SwitchesOf(flags, switches, s, ms)
    decreases |ms|
  {
    if ms[0] != p {
      var rest := ms[1..];
      RestAreIntroducers(s, ms);
      assert p in rest by {
        var k :| 0 <= k < |ms| && ms[k] == p;
        assert rest[k - 1] == p;
      }
      SwitchOfEach(flags, switches, s, rest, n, p);
    }
  }

  /** The options after the first of `ms` are options too. */
  lemma RestAreIntroducers(s: string, ms: seq<nat>)
    requires AllIntroducers(s, ms) && |ms| > 0
    ensures AllIntroducers(s, ms[1..])
  {
    assert forall k | 0 <= k < |ms[1..]| :: ms[1..][k] == ms[k + 1];
  }

  // ---------------------------------------------------------------------------------------
  // The whole line

  /** A line is acceptable when every option in it is acceptable on its own and no flag is
      given by two options. */
  ghost predicate Acceptable(flags: map<string, Flag>, switches: map<string, Switch>, s: string) {
    && (forall p | IntroducerAt(s, p) :: OptionAccepted(flags, switches, s, p))
    && (forall p, q | FlagOptionAt(flags, s, p) && FlagOptionAt(flags, s, q) && FlagAt(flags, s, p) == FlagAt(flags, s, q) ::
          p == q)
  }

  /** The matches of a line are exactly its option positions. */
  lemma MatchesArePositions(s: string)
    ensures AllIntroducers(s, Matches(s, 0))
    ensures forall p :: p in Matches(s, 0) <==> IntroducerAt(s, p)
  {
    forall p ensures p in Matches(s, 0) <==> IntroducerAt(s, p) {
      MatchesAreAllIntroducers(s, 0, p);
    }
  }

  /** `parse` on the whole line, option by option over its matches. */
  lemma ParseSpecMeans(flags: map<string, Flag>, switches: map<string, Switch>, s: string)
    ensures AllIntroducers(s, Matches(s, 0))
    ensures var ms := Matches(s, 0);
      ParseSpec(flags, switches, s).Ok? <==> AllAccepted(flags, switches, s, ms) && FlagsUnique(flags, s, ms, {})
    ensures var ms := Matches(s, 0);
      ParseSpec(flags, switches, s).Ok? ==>
        && ParseSpec(flags, switches, s).value.flags == FlagsOf(flags, s, ms)
        && ParseSpec(flags, switches, s).value.switches == SwitchesOf(flags, switches, s, ms)
  {
    var ms := Matches(s, 0);
    var start := Found(map[], {});
    assert start.flags.Keys == {};
    ParseMatchesSpec(flags, switches, s, ms, start);
    var r := ParseMatches(flags, switches, s, ms, start);
    assert ParseSpec(flags, switches, s).Ok? <==> r.Ok?;
    if r.Ok? {
      assert ParseSpec(flags, switches, s).value.flags == r.value.flags;
      assert ParseSpec(flags, switches, s).value.switches == r.value.switches;
      EmptyUnion(FlagsOf(flags, s, ms));
    }
  }

  /** The empty table adds nothing to a union.
      Stated on its own so that the proofs that use it stay small for the solver. */
  lemma EmptyUnion(m: map<string, string>)
    ensures map[] + m == m
  {
  }

  /** Every option of the line is acceptable exactly when every match is. */
  lemma EveryOptionAccepted(flags: map<string, Flag>, switches: map<string, Switch>, s: string)
    ensures AllIntroducers(s, Matches(s, 0))
    ensures AllAccepted(flags, switches, s, Matches(s, 0)) <==>
      forall p | IntroducerAt(s, p) :: OptionAccepted(flags, switches, s, p)
  {
    var ms := Matches(s, 0);
    MatchesArePositions(s);
    AllAcceptedMeans(flags, switches, s, ms);
    if forall p | IntroducerAt(s, p) :: OptionAccepted(flags, switches, s, p) {
      forall k | 0 <= k < |ms| ensures OptionAccepted(flags, switches, s, ms[k]) {
        assert IntroducerAt(s, ms[k]);
      }
    }
    if AllAccepted(flags, switches, s, ms) {
      forall p | IntroducerAt(s, p) ensures OptionAccepted(flags, switches, s, p) {
        assert p in ms;
      }
    }
  }

  /** No flag is given twice in the line exactly when no two matches give the same flag. */
  lemma NoFlagTwice(flags: map<string, Flag>, s: string)
    ensures FlagsUnique(flags, s, Matches(s, 0), {}) <==>
      forall p, q | FlagOptionAt(flags, s, p) && FlagOptionAt(flags, s, q) && FlagAt(flags, s, p) == FlagAt(flags, s, q) ::
        p == q
  {
    var ms := Matches(s, 0);
    MatchesArePositions(s);
    FlagsUniqueMeans(flags, s, ms, {});
    if FlagsUnique(flags, s, ms, {}) {
      forall p, q | FlagOptionAt(flags, s, p) && FlagOptionAt(flags, s, q) && FlagAt(flags, s, p) == FlagAt(flags, s, q)
        ensures p == q
      {
        assert p in ms && q in ms;
        var j :| 0 <= j < |ms| && ms[j] == p;
        var k :| 0 <= k < |ms| && ms[k] == q;
        assert j == k;
      }
    }
  }

  /** `parse` succeeds exactly on acceptable lines. */
  lemma ParseSucceedsIff(flags: map<string, Flag>, switches: map<string, Switch>, s: string)
    ensures ParseSpec(flags, switches, s).Ok? <==> Acceptable(flags, switches, s)
  {
    var ms := Matches(s, 0);
    EveryOptionAccepted(flags, switches, s);
    NoFlagTwice(flags, s);
    ParseSpecMeans(flags, switches, s);
  }

  /** Every flag option of a parsed line gives its value. */
  lemma ParsedFlagValues(flags: map<string, Flag>, switches: map<string, Switch>, s: string)
    requires ParseSpec(flags, switches, s).Ok?
    ensures var r := ParseSpec(flags, switches, s).value;
      forall p | FlagOptionAt(flags, s, p) ::
        ValueAt(s, p).Ok? && FlagAt(flags, s, p) in r.flags && r.flags[FlagAt(flags, s, p)] == ValueAt(s, p).value
  {
    var ms := Matches(s, 0);
    MatchesArePositions(s);
    ParseSpecMeans(flags, switches, s);
    FlagsOfValues(flags, switches, s, ms, {});
    forall p | FlagOptionAt(flags, s, p)
      ensures ValueAt(s, p).Ok? && FlagAt(flags, s, p) in FlagsOf(flags, s, ms)
      ensures FlagsOf(flags, s, ms)[FlagAt(flags, s, p)] == ValueAt(s, p).value
    {
      assert p in ms;
    }
  }

  /** Every flag of a parsed line was given by some flag option, and its value passed the
      flag's validator. */
  lemma ParsedFlagsGiven(flags: map<string, Flag>, switches: map<string, Switch>, s: string)
    requires ParseSpec(flags, switches, s).Ok?
    ensures var r := ParseSpec(flags, switches, s).value;
      && (forall n | n in r.flags :: exists p :: FlagOptionAt(flags, s, p) && FlagAt(flags, s, p) == n)
      && (forall n | n in r.flags :: n in flags && flags[n].validator(r.flags[n]))
  {
    forall n | n in ParseSpec(flags, switches, s).value.flags
      ensures exists p :: FlagOptionAt(flags, s, p) && FlagAt(flags, s, p) == n
      ensures n in flags && flags[n].validator(ParseSpec(flags, switches, s).value.flags[n])
    {
      ParsedFlagGiven(flags, switches, s, n);
    }
  }

  /** One flag of a parsed line: given by a flag option, and accepted by its validator. */
  lemma ParsedFlagGiven(flags: map<string, Flag>, switches: map<string, Switch>, s: string, n: string)
    requires ParseSpec(flags, switches, s).Ok? && n in ParseSpec(flags, switches, s).value.flags
    ensures exists p :: FlagOptionAt(flags, s, p) && FlagAt(flags, s, p) == n
    ensures n in flags && flags[n].validator(ParseSpec(flags, switches, s).value.flags[n])
  {
    ParseSpecMeans(flags, switches, s);
    var p := FlagOfMatches(flags, switches, s, Matches(s, 0), n);
  }

  /** A flag in `FlagsOf` comes from a flag option of `ms`, and its value passed its
      validator. */
  lemma FlagOfMatches(flags: map<string, Flag>, switches: map<string, Switch>, s: string, ms: seq<nat>, n: string)
    returns (p: nat)
    requires AllIntroducers(s, ms) && AllAccepted(flags, switches, s, ms) && FlagsUnique(flags, s, ms, {})
    requires n in FlagsOf(flags, s, ms)
    ensures p in ms && FlagOptionAt(flags, s, p) && FlagAt(flags, s, p) == n
    ensures n in flags && flags[n].validator(FlagsOf(flags, s, ms)[n])
  {
    AllAcceptedMeans(flags, switches, s, ms);
    FlagsOfValues(flags, switches, s, ms, {});
    p := FlagsOfKeys(flags, s, ms, n);
    var k :| 0 <= k < |ms| && ms[k] == p;
    assert OptionAccepted(flags, switches, s, ms[k]);
  }

  /** The switches of a parsed line are exactly those its options set, all registered. */
  lemma ParsedSwitches(flags: map<string, Flag>, switches: map<string, Switch>, s: string)
    requires ParseSpec(flags, switches, s).Ok?
    ensures var r := ParseSpec(flags, switches, s).value;
      && (forall n :: n in r.switches <==> exists p :: IntroducerAt(s, p) && n in SwitchesAt(flags, switches, s, p))
      && r.switches <= switches.Keys
  {
    forall n
      ensures n in ParseSpec(flags, switches, s).value.switches <==>
        exists p :: IntroducerAt(s, p) && n in SwitchesAt(flags, switches, s, p)
      ensures n in ParseSpec(flags, switches, s).value.switches ==> n in switches
    {
      ParsedSwitch(flags, switches, s, n);
    }
  }

  /** One switch name: set by the parse exactly when some option sets it; then registered. */
  lemma ParsedSwitch(flags: map<string, Flag>, switches: map<string, Switch>, s: string, n: string)
    requires ParseSpec(flags, switches, s).Ok?
    ensures n in ParseSpec(flags, switches, s).value.switches <==>
      exists p :: IntroducerAt(s, p) && n in SwitchesAt(flags, switches, s, p)
    ensures n in ParseSpec(flags, switches, s).value.switches ==> n in switches
  {
    ParseSpecMeans(flags, switches, s);
    SwitchOfLine(flags, switches, s, n);
  }

  /** A switch is set by the matches of a line exactly when some option of the line sets it;
      then it is registered. */
  lemma SwitchOfLine(flags: map<string, Flag>, switches: map<string, Switch>, s: string, n: string)
    ensures AllIntroducers(s, Matches(s, 0))
    ensures n in SwitchesOf(flags, switches, s, Matches(s, 0)) <==>
      exists p :: IntroducerAt(s, p) && n in SwitchesAt(flags, switches, s, p)
    ensures n in SwitchesOf(flags, switches, s, Matches(s, 0)) ==> n in switches
  {
    var ms := Matches(s, 0);
    MatchesArePositions(s);
    SwitchesOfMembers(flags, switches, s, ms, n);
    if n in SwitchesOf(flags, switches, s, ms) {
      var p :| p in ms && IntroducerAt(s, p) && n in SwitchesAt(flags, switches, s, p);
      SwitchesAtRegistered(flags, switches, s, p, n);
    }
    if exists p :: IntroducerAt(s, p) && n in SwitchesAt(flags, switches, s, p) {
      var p :| IntroducerAt(s, p) && n in SwitchesAt(flags, switches, s, p);
      assert p in ms;
    }
  }

  /** An option sets only registered switches. */
  lemma SwitchesAtRegistered(flags: map<string, Flag>, switches: map<string, Switch>, s: string, p: nat, n: string)
    requires IntroducerAt(s, p) && n in SwitchesAt(flags, switches, s, p)
    ensures n in switches
  {
    GroupSwitchesMembers(flags, switches, Group(s, p), 0, n);
  }

  /** The switches an option sets are the switches of its switch characters. */
  lemma SwitchesAtMembers(flags: map<string, Flag>, switches: map<string, Switch>, s: string, p: nat, n: string)
    requires IntroducerAt(s, p)
    ensures var g := Group(s, p);
      n in SwitchesAt(flags, switches, s, p) <==>
        g[0] != '-' && exists j | 0 <= j < |g| :: IsSwitchChar(flags, switches, g[j]) && SwitchNameOf(switches, g[j]) == n
  {
    GroupSwitchesMembers(flags, switches, Group(s, p), 0, n);
  }

  /** The positional arguments are the text before the first option, split at spaces; text
      after it never is. A long-named first option marks the boundary too. */
  lemma ArgsBeforeFirstOption(flags: map<string, Flag>, switches: map<string, Switch>, s: string, p: nat)
    requires ParseSpec(flags, switches, s).Ok?
    requires IntroducerAt(s, p) && forall q | 0 <= q < p :: !IntroducerAt(s, q)
    ensures ParseSpec(flags, switches, s).value.args == Split(s[..p])
  {
    var ms := Matches(s, 0);
    MatchesArePositions(s);
    assert p in ms;
    var k :| 0 <= k < |ms| && ms[k] == p;
    assert ms[0] <= p;
    assert ms[0] == p;
  }

  /** Without any option the whole line is positional, and nothing else is found. */
  lemma LineWithoutOptions(flags: map<string, Flag>, switches: map<string, Switch>, s: string)
    requires forall q | 0 <= q < |s| :: !IntroducerAt(s, q)
    ensures ParseSpec(flags, switches, s) == Ok(CommandOptions(Split(s), map[], {}))
  {
  }

  /** A line without spaces is one positional argument, so an option at the very start of
      the line, such as `-t 5`'s `-t` alone, is taken as an argument. */
  lemma LineWithoutSpaceIsPositional(flags: map<string, Flag>, switches: map<string, Switch>, s: string)
    requires ' ' !in s
    ensures ParseSpec(flags, switches, s) == Ok(CommandOptions([s], map[], {}))
  {
    NoSpaceNoMatches(s);
  }

  /** The errors `parse` raises: an unknown character, a flag character in a bundle, a flag
      without value, a flag given twice, or a flag's own validation message. */
  ghost predicate IsParseError(flags: map<string, Flag>, switches: map<string, Switch>, e: CommandException) {
    || (exists c :: !CharInUse(flags, switches, c) && e == UnknownOption(c))
    || (exists c :: CharInUse(flags, switches, c) && FlagHasChar(flags, c) && e == FlagUsedAsSwitch(c))
    || (exists c :: CharInUse(flags, switches, c) && FlagHasChar(flags, c) && e == FlagRequiresArgument(c))
    || (exists n | n in flags :: e == DuplicateFlag(flags[n].name))
    || (exists n | n in flags :: e == ValidationFailed(flags[n]))
  }

  /** A `--name` option is skipped by the match loop. */
  lemma ParseMatchesLongStep(flags: map<string, Flag>, switches: map<string, Switch>,
                             s: string, ms: seq<nat>, acc: Found)
    requires AllIntroducers(s, ms) && |ms| > 0 && Group(s, ms[0])[0] == '-'
    ensures AllIntroducers(s, ms[1..])
    ensures ParseMatches(flags, switches, s, ms, acc) == ParseMatches(flags, switches, s, ms[1..], acc)
  {
    assert forall k | 0 <= k < |ms[1..]| :: ms[1..][k] == ms[k + 1];
  }

  /** The options before the `k`-th match are options too. */
  lemma PrefixIntroducers(s: string, ms: seq<nat>, k: nat)
    requires AllIntroducers(s, ms) && k <= |ms|
    ensures AllIntroducers(s, ms[..k])
  {
    assert forall j | 0 <= j < k :: ms[..k][j] == ms[j];
  }

  /** The match loop over `ms` fails at its `k`-th match and at no earlier one: that match is
      a short-named group, the matches before it go through, and the loop's error is the one
      the group raises given what the matches before it collected. */
  ghost predicate FailsFirstAt(flags: map<string, Flag>, switches: map<string, Switch>,
                               s: string, ms: seq<nat>, acc: Found, k: nat)
    requires AllIntroducers(s, ms)
  {
    && k < |ms| && AllIntroducers(s, ms[..k]) && Group(s, ms[k])[0] != '-'
    && ParseMatches(flags, switches, s, ms[..k], acc).Ok?
    && var before := ParseMatches(flags, switches, s, ms[..k], acc).value;
       var head := ParseChars(flags, switches, s, MatchEnd(s, ms[k]), Group(s, ms[k]), 0, before);
       && head.Err?
       && ParseMatches(flags, switches, s, ms, acc) == Err(head.error)
  }

  /** A short-named first option that fails is the first failure. */
  lemma FailsFirstHere(flags: map<string, Flag>, switches: map<string, Switch>,
                       s: string, ms: seq<nat>, acc: Found)
    requires AllIntroducers(s, ms) && |ms| > 0 && Group(s, ms[0])[0] != '-'
    requires ParseChars(flags, switches, s, MatchEnd(s, ms[0]), Group(s, ms[0]), 0, acc).Err?
    ensures FailsFirstAt(flags, switches, s, ms, acc, 0)
  {
    ParseMatchesShortStep(flags, switches, s, ms, acc);
    PrefixIntroducers(s, ms, 0);
    assert ms[..0] == [];
  }

  /** A skipped `--name` option moves the first failure one match on. */
  lemma FailsFirstAfterLong(flags: map<string, Flag>, switches: map<string, Switch>,
                            s: string, ms: seq<nat>, acc: Found, j: nat)
    requires AllIntroducers(s, ms) && |ms| > 0 && Group(s, ms[0])[0] == '-'
    requires AllIntroducers(s, ms[1..]) && FailsFirstAt(flags, switches, s, ms[1..], acc, j)
    ensures FailsFirstAt(flags, switches, s, ms, acc, j + 1)
  {
    ParseMatchesLongStep(flags, switches, s, ms, acc);
    PrefixIntroducers(s, ms, j + 1);
    PrefixTail(ms, j);
    ParseMatchesLongStep(flags, switches, s, ms[..j + 1], acc);
  }

  /** A short-named option that goes through moves the first failure one match on. */
  lemma FailsFirstAfterShort(flags: map<string, Flag>, switches: map<string, Switch>,
                             s: string, ms: seq<nat>, acc: Found, next: Found, j: nat)
    requires AllIntroducers(s, ms) && |ms| > 0 && Group(s, ms[0])[0] != '-'
    requires ParseChars(flags, switches, s, MatchEnd(s, ms[0]), Group(s, ms[0]), 0, acc) == Ok(next)
    requires AllIntroducers(s, ms[1..]) && FailsFirstAt(flags, switches, s, ms[1..], next, j)
    ensures FailsFirstAt(flags, switches, s, ms, acc, j + 1)
  {
    ParseMatchesShortStep(flags, switches, s, ms, acc);
    PrefixIntroducers(s, ms, j + 1);
    PrefixTail(ms, j);
    ParseMatchesShortStep(flags, switches, s, ms[..j + 1], acc);
  }

  /** The first `j + 1` matches without the first one are the first `j` of the rest.
      Stated on its own so that the proofs that use it stay small for the solver. */
  lemma PrefixTail(ms: seq<nat>, j: nat)
    requires j < |ms|
    ensures ms[..j + 1][1..] == ms[1..][..j]
  {
  }

  /** A failing match loop fails at a first failing option, whose index is returned. */
  lemma {:induction false} FirstFailure(flags: map<string, Flag>, switches: map<string, Switch>,
                                        s: string, ms: seq<nat>, acc: Found) returns (k: nat)
    requires AllIntroducers(s, ms) && ParseMatches(flags, switches, s, ms, acc).Err?
    ensures FailsFirstAt(flags, switches, s, ms, acc, k)
    decreases |ms|
  {
    var rest := ms[1..];
    RestAreIntroducers(s, ms);
    if Group(s, ms[0])[0] == '-' {
      ParseMatchesLongStep(flags, switches, s, ms, acc);
      var j := FirstFailure(flags, switches, s, rest, acc);
      FailsFirstAfterLong(flags, switches, s, ms, acc, j);
      k := j + 1;
    } else {
      ParseMatchesShortStep(flags, switches, s, ms, acc);
      var head := ParseChars(flags, switches, s, MatchEnd(s, ms[0]), Group(s, ms[0]), 0, acc);
      if head.Err? {
        FailsFirstHere(flags, switches, s, ms, acc);
        k := 0;
      } else {
        var j := FirstFailure(flags, switches, s, rest, head.value);
        FailsFirstAfterShort(flags, switches, s, ms, acc, head.value, j);
        k := j + 1;
      }
    }
  }

  /** Matches that go through from the empty start collect exactly their own flags and
      switches, and are each acceptable, naming no flag twice. */
  lemma FromStart(flags: map<string, Flag>, switches: map<string, Switch>, s: string, pre: seq<nat>)
    requires AllIntroducers(s, pre) && ParseMatches(flags, switches, s, pre, Found(map[], {})).Ok?
    ensures AllAccepted(flags, switches, s, pre) && FlagsUnique(flags, s, pre, {})
    ensures ParseMatches(flags, switches, s, pre, Found(map[], {})).value
         == Found(FlagsOf(flags, s, pre), SwitchesOf(flags, switches, s, pre))
  {
    var start := Found(map[], {});
    ParseMatchesSpec(flags, switches, s, pre, start);
    assert start.flags.Keys == {};
    EmptyUnion(FlagsOf(flags, s, pre));
    assert start.switches + SwitchesOf(flags, switches, s, pre) == SwitchesOf(flags, switches, s, pre);
  }

  /** Which error `parse` throws: the one of the first option, in the order the pattern
      finds them, whose group fails. The options before it are each acceptable and name no
      flag twice, and the group fails given exactly their flags and switches. */
  lemma ParseFirstFailure(flags: map<string, Flag>, switches: map<string, Switch>, s: string)
    returns (k: nat)
    requires ParseSpec(flags, switches, s).Err?
    ensures AllIntroducers(s, Matches(s, 0)) && k < |Matches(s, 0)|
    ensures var ms := Matches(s, 0);
      AllIntroducers(s, ms[..k]) && Group(s, ms[k])[0] != '-'
    ensures var ms := Matches(s, 0);
      AllAccepted(flags, switches, s, ms[..k]) && FlagsUnique(flags, s, ms[..k], {})
    ensures var ms := Matches(s, 0);
      var before := Found(FlagsOf(flags, s, ms[..k]), SwitchesOf(flags, switches, s, ms[..k]));
      var head := ParseChars(flags, switches, s, MatchEnd(s, ms[k]), Group(s, ms[k]), 0, before);
      head.Err? && ParseSpec(flags, switches, s).error == head.error
  {
    var ms := Matches(s, 0);
    MatchesArePositions(s);
    k := FirstFailure(flags, switches, s, ms, Found(map[], {}));
    FromStart(flags, switches, s, ms[..k]);
  }

  /** Every error of the match loop is one of the parse errors. */
  lemma {:induction false} ParseMatchesErrors(flags: map<string, Flag>, switches: map<string, Switch>,
                                              s: string, ms: seq<nat>, acc: Found)
    requires AllIntroducers(s, ms)
    ensures var r := ParseMatches(flags, switches, s, ms, acc);
      r.Err? ==> IsParseError(flags, switches, r.error)
    decreases |ms|
  {
    if |ms| > 0 {
      var p := ms[0];
      var rest := ms[1..];
      var g := Group(s, p);
      var end := MatchEnd(s, p);
      if g[0] == '-' {
        ParseMatchesErrors(flags, switches, s, rest, acc);
      } else {
        var head := ParseChars(flags, switches, s, end, g, 0, acc);
        if head.Ok? {
          ParseMatchesErrors(flags, switches, s, rest, head.value);
        } else if IsFlagGroup(flags, g) {
          FlagGroup(flags, switches, s, end, g, acc);
        } else {
          SwitchGroup(flags, switches, s, end, g, 0, acc);
        }
      }
    }
  }

  /** Every error `parse` raises is one of the parse errors. */
  lemma ParseErrors(flags: map<string, Flag>, switches: map<string, Switch>, s: string)
    ensures ParseSpec(flags, switches, s).Err? ==> IsParseError(flags, switches, ParseSpec(flags, switches, s).error)
  {
    ParseMatchesErrors(flags, switches, s, Matches(s, 0), Found(map[], {}));
  }
}
