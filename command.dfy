/** `vxCommand`: a command's registry of flags and switches, and the parser that turns an
    argument line into a `CommandOptions`. */
module Commands {
  import opened Outcomes
  import opened JavaText
  import opened CommandExceptions
  import opened CommandArgs
  import opened OptionScanner

  /** `CommandOptions`: the positional arguments, the value given to each flag (keyed by the
      flag's name, which is what flag equality compares) and the switches that were set. */
  datatype CommandOptions = CommandOptions(args: seq<string>, flags: map<string, string>, switches: set<string>)

  // ---------------------------------------------------------------------------------------
  // The registry, as values

  /** Some registered flag has short name `c`. */
  ghost predicate FlagHasChar(flags: map<string, Flag>, c: char) {
    exists n | n in flags :: flags[n].shortName == c
  }

  /** Some registered switch has short name `c`. */
  ghost predicate SwitchHasChar(switches: map<string, Switch>, c: char) {
    exists n | n in switches :: switches[n].shortName == c
  }

  /** `hasName`: a flag or a switch is registered under `name`. */
  ghost predicate NameInUse(flags: map<string, Flag>, switches: map<string, Switch>, name: string) {
    name in flags || name in switches
  }

  /** `hasChar`: `c` is alphanumeric and the short name of a registered flag or switch. */
  ghost predicate CharInUse(flags: map<string, Flag>, switches: map<string, Switch>, c: char) {
    IsAlphanumeric(c) && (FlagHasChar(flags, c) || SwitchHasChar(switches, c))
  }

  /** What registration keeps true: every option is stored under its own name, no name is
      both a flag and a switch, and no alphanumeric short name belongs to two options. */
  ghost predicate RegistryInvariant(flags: map<string, Flag>, switches: map<string, Switch>) {
    && (forall n | n in flags :: flags[n].name == n)
    && (forall n | n in switches :: switches[n].name == n)
    && flags.Keys !! switches.Keys
    && (forall n, m | n in flags && m in flags && n != m ::
          IsAlphanumeric(flags[n].shortName) ==> flags[n].shortName != flags[m].shortName)
    && (forall n, m | n in switches && m in switches && n != m ::
          IsAlphanumeric(switches[n].shortName) ==> switches[n].shortName != switches[m].shortName)
    && (forall n, m | n in flags && m in switches ::
          IsAlphanumeric(flags[n].shortName) ==> flags[n].shortName != switches[m].shortName)
  }

  /** The name of the flag with short name `c`. */
  ghost function FlagNameOf(flags: map<string, Flag>, c: char): (n: string)
    requires FlagHasChar(flags, c)
    ensures n in flags && flags[n].shortName == c
  {
    var n :| n in flags && flags[n].shortName == c; n
  }

  /** The name of the switch with short name `c`. */
  ghost function SwitchNameOf(switches: map<string, Switch>, c: char): (n: string)
    requires SwitchHasChar(switches, c)
    ensures n in switches && switches[n].shortName == c
  {
    var n :| n in switches && switches[n].shortName == c; n
  }

  /** Under the invariant an alphanumeric short name identifies its flag. */
  lemma FlagCharIsUnique(flags: map<string, Flag>, switches: map<string, Switch>, c: char, n: string)
    requires RegistryInvariant(flags, switches) && IsAlphanumeric(c)
    requires n in flags && flags[n].shortName == c
    ensures FlagNameOf(flags, c) == n
    ensures !SwitchHasChar(switches, c)
  {
  }

  /** Under the invariant an alphanumeric short name identifies its switch. */
  lemma SwitchCharIsUnique(flags: map<string, Flag>, switches: map<string, Switch>, c: char, n: string)
    requires RegistryInvariant(flags, switches) && IsAlphanumeric(c)
    requires n in switches && switches[n].shortName == c
    ensures SwitchNameOf(switches, c) == n
    ensures !FlagHasChar(flags, c)
  {
  }

  // ---------------------------------------------------------------------------------------
  // The parser, as a function

  /** The flag values and switches collected so far (the local `flags` and `switches` of
      `parse`). */
  datatype Found = Found(flags: map<string, string>, switches: set<string>)

  function UnknownOption(c: char): CommandException {
    Generic("Unknown flag or switch: " + [c])
  }

  function FlagUsedAsSwitch(c: char): CommandException {
    Generic("Flag used as switch: " + [c])
  }

  function FlagRequiresArgument(c: char): CommandException {
    Generic("Flag " + [c] + " requires argument")
  }

  function DuplicateFlag(name: string): CommandException {
    Generic("Duplicate flag " + name)
  }

  function ValidationFailed(f: Flag): CommandException {
    Generic(f.validationMessage)
  }

  /** The character loop for a short-named group `g` from index `i` on, where `end` is where
      the match ended (a flag's value is read from there). */
  ghost function ParseChars(flags: map<string, Flag>, switches: map<string, Switch>,
                            s: string, end: nat, g: string, i: nat, acc: Found)
    : Result<Found, CommandException>
    requires end <= |s| && i <= |g|
    decreases |g| - i
  {
    if i == |g| then Ok(acc)
    else
      var c := g[i];
      if !CharInUse(flags, switches, c) then Err(UnknownOption(c))
      else if FlagHasChar(flags, c) then
        if |g| > 1 then Err(FlagUsedAsSwitch(c))
        else
          var n := FlagNameOf(flags, c);
          match FlagValue(s, end)
          case Err(_) => Err(FlagRequiresArgument(c))
          case Ok(v) =>
            if n in acc.flags then Err(DuplicateFlag(flags[n].name))
            else if !flags[n].validator(v) then Err(ValidationFailed(flags[n]))
            else ParseChars(flags, switches, s, end, g, i + 1, Found(acc.flags[n := v], acc.switches))
      else
        ParseChars(flags, switches, s, end, g, i + 1,
                   Found(acc.flags, acc.switches + {SwitchNameOf(switches, c)}))
  }

  /** The match loop over the match starts `ms`: a group starting with a dash (a long name)
      is skipped, any other group is read character by character. */
  ghost function ParseMatches(flags: map<string, Flag>, switches: map<string, Switch>,
                              s: string, ms: seq<nat>, acc: Found): Result<Found, CommandException>
    requires forall k | 0 <= k < |ms| :: IntroducerAt(s, ms[k])
    decreases |ms|
  {
    if |ms| == 0 then Ok(acc)
    else
      var p := ms[0];
      var g := Group(s, p);
      if g[0] == '-' then ParseMatches(flags, switches, s, ms[1..], acc)
      else
        match ParseChars(flags, switches, s, MatchEnd(s, p), g, 0, acc)
        case Err(e) => Err(e)
        case Ok(next) => ParseMatches(flags, switches, s, ms[1..], next)
  }

  /** `parse(args)`: the options found by the pattern, and the text before the first one
      (all of it when there is none) split at spaces. */
  ghost function ParseSpec(flags: map<string, Flag>, switches: map<string, Switch>, s: string)
    : Result<CommandOptions, CommandException>
  {
    var ms := Matches(s, 0);
    match ParseMatches(flags, switches, s, ms, Found(map[], {}))
    case Err(e) => Err(e)
    case Ok(found) => Ok(CommandOptions(Split(if |ms| == 0 then s else s[..ms[0]]), found.flags, found.switches))
  }

  // ---------------------------------------------------------------------------------------
  // The command object

  class Command {
    /** The registered flags and switches, each under its name. */
    var flags: map<string, Flag>
    var switches: map<string, Switch>

    ghost predicate Valid()
      reads this
    {
      RegistryInvariant(flags, switches)
    }

    /** `new vxCommand(plugin, cmd)`: nothing registered yet. */
    constructor ()
      ensures Valid() && flags == map[] && switches == map[]
    {
      flags := map[];
      switches := map[];
    }

    /** `getFlag(String)`. */
    method GetFlag(name: string) returns (r: Option<Flag>)
      requires Valid()
      ensures r.Some? <==> name in flags
      ensures r.Some? ==> r.value == flags[name] && r.value.name == name
    {
      if name in flags {
        return Some(flags[name]);
      }
      return None;
    }

    /** `getSwitch(String)`. */
    method GetSwitch(name: string) returns (r: Option<Switch>)
      requires Valid()
      ensures r.Some? <==> name in switches
      ensures r.Some? ==> r.value == switches[name] && r.value.name == name
    {
      if name in switches {
        return Some(switches[name]);
      }
      return None;
    }

    /** `getFlag(char)`: some registered flag with short name `c`, if any. */
    method GetFlagByChar(c: char) returns (r: Option<Flag>)
      requires Valid()
      ensures r.None? <==> !FlagHasChar(flags, c)
      ensures r.Some? ==> r.value.name in flags && flags[r.value.name] == r.value && r.value.shortName == c
    {
      var unseen := flags.Keys;
      while unseen != {}
        invariant unseen <= flags.Keys
        invariant forall n | n in flags && n !in unseen :: flags[n].shortName != c
        decreases |unseen|
      {
        var n :| n in unseen;
        if flags[n].shortName == c {
          return Some(flags[n]);
        }
        unseen := unseen - {n};
      }
      return None;
    }

    /** `getSwitch(char)`: some registered switch with short name `c`, if any. */
    method GetSwitchByChar(c: char) returns (r: Option<Switch>)
      requires Valid()
      ensures r.None? <==> !SwitchHasChar(switches, c)
      ensures r.Some? ==> r.value.name in switches && switches[r.value.name] == r.value && r.value.shortName == c
    {
      var unseen := switches.Keys;
      while unseen != {}
        invariant unseen <= switches.Keys
        invariant forall n | n in switches && n !in unseen :: switches[n].shortName != c
        decreases |unseen|
      {
        var n :| n in unseen;
        if switches[n].shortName == c {
          return Some(switches[n]);
        }
        unseen := unseen - {n};
      }
      return None;
    }

    /** `hasName`. */
    method HasName(name: string) returns (b: bool)
      requires Valid()
      ensures b == NameInUse(flags, switches, name)
    {
      var f := GetFlag(name);
      if f.Some? {
        return true;
      }
      var s := GetSwitch(name);
      return s.Some?;
    }

    /** `hasChar`. */
    method HasChar(c: char) returns (b: bool)
      requires Valid()
      ensures b == CharInUse(flags, switches, c)
    {
      if !IsAlphanumeric(c) {
        return false;
      }
      var f := GetFlagByChar(c);
      if f.Some? {
        return true;
      }
      var s := GetSwitchByChar(c);
      return s.Some?;
    }

    /** `register(CommandFlag)`: refused when the name or the alphanumeric short name is
      already taken; otherwise the flag is added. Returns the command itself. */
    method RegisterFlag(flag: Flag) returns (r: Result<Command, IllegalArgument>)
      requires Valid()
      modifies this
      ensures Valid()
      ensures r.Ok? <==> !old(NameInUse(flags, switches, flag.name)) && !old(CharInUse(flags, switches, flag.shortName))
      ensures r.Ok? ==> r.value == this && flags == old(flags)[flag.name := flag]
      ensures r.Err? ==> r.error == IllegalArgument("Flag name or short name already in use.") && flags == old(flags)
      ensures switches == old(switches)
    {
      var named := HasName(flag.name);
      var charred := HasChar(flag.shortName);
      if named || charred {
        return Err(IllegalArgument("Flag name or short name already in use."));
      }
      if flag.name !in flags {
        flags := flags[flag.name := flag];
      }
      return Ok(this);
    }

    /** `register(CommandSwitch)`: the same for switches. */
    method RegisterSwitch(s: Switch) returns (r: Result<Command, IllegalArgument>)
      requires Valid()
      modifies this
      ensures Valid()
      ensures r.Ok? <==> !old(NameInUse(flags, switches, s.name)) && !old(CharInUse(flags, switches, s.shortName))
      ensures r.Ok? ==> r.value == this && switches == old(switches)[s.name := s]
      ensures r.Err? ==> r.error == IllegalArgument("Switch name or short name already in use.") && switches == old(switches)
      ensures flags == old(flags)
    {
      var named := HasName(s.name);
      var charred := HasChar(s.shortName);
      if named || charred {
        return Err(IllegalArgument("Switch name or short name already in use."));
      }
      if s.name !in switches {
        switches := switches[s.name := s];
      }
      return Ok(this);
    }

    /** `getStringFrom(args, index)`. */
    static method GetStringFrom(args: string, index: nat) returns (r: Result<string, CommandException>)
      requires index <= |args|
      ensures r == FlagValue(args, index)
    {
      var str := args[index..];
      ghost var k := index;
      while |str| > 0 && str[0] == ' '
        invariant index <= k <= |args| && str == args[k..]
        invariant forall j | index <= j < k :: args[j] == ' '
        decreases |str|
      {
        str := str[1..];
        k := k + 1;
      }
      assert k == SkipSpaces(args, index);
      if |str| == 0 || str[0] == '-' {
        return Err(MissingArgument(0));
      }
      if str[0] == '"' {
        var close := ClosingQuote(str, 1);
        if close.None? {
          return Ok(str[1..]);
        }
        return Ok(str[1..close.value]);
      }
      SplitFirstPiece(str);
      return Ok(Split(str)[0]);
    }

    /** The character loop of `parse` for one short-named group `str` whose match ended at
        `end`, adding to the flag values and switches `found` so far. */
    method ParseGroup(args: string, end: nat, str: string, found: Found) returns (r: Result<Found, CommandException>)
      requires Valid() && end <= |args|
      ensures r == ParseChars(flags, switches, args, end, str, 0, found)
    {
      var acc := found;
      var i := 0;
      while i < |str|
        invariant 0 <= i <= |str|
        invariant ParseChars(flags, switches, args, end, str, 0, found)
               == ParseChars(flags, switches, args, end, str, i, acc)
      {
        var c := str[i];
        var known := HasChar(c);
        if !known {
          return Err(UnknownOption(c));
        }
        var flag := GetFlagByChar(c);
        if flag.Some? {
          if |str| > 1 {
            return Err(FlagUsedAsSwitch(c));
          }
          var f := flag.value;
          FlagCharIsUnique(flags, switches, c, f.name);
          var arg := GetStringFrom(args, end);
          if arg.Err? {
            return Err(FlagRequiresArgument(c));
          }
          if f.name in acc.flags {
            return Err(DuplicateFlag(f.name));
          }
          if !f.validator(arg.value) {
            return Err(ValidationFailed(f));
          }
          assert ParseChars(flags, switches, args, end, str, i, acc)
              == ParseChars(flags, switches, args, end, str, i + 1, Found(acc.flags[f.name := arg.value], acc.switches));
          acc := Found(acc.flags[f.name := arg.value], acc.switches);
        } else {
          var sw := GetSwitchByChar(c);
          SwitchCharIsUnique(flags, switches, c, sw.value.name);
          assert ParseChars(flags, switches, args, end, str, i, acc)
              == ParseChars(flags, switches, args, end, str, i + 1, Found(acc.flags, acc.switches + {sw.value.name}));
          if sw.value.name !in acc.switches {
            acc := Found(acc.flags, acc.switches + {sw.value.name});
          } else {
            assert acc.switches + {sw.value.name} == acc.switches;
          }
        }
        i := i + 1;
      }
      return Ok(acc);
    }

    /** `parse(String args)`. */
    method Parse(args: string) returns (r: Result<CommandOptions, CommandException>)
      requires Valid()
      ensures r == ParseSpec(flags, switches, args)
    {
      var found := Found(map[], {});
      var flagStart := -1;
      var from := 0;
      while true
        invariant from <= |args|
        invariant ParseMatches(flags, switches, args, Matches(args, 0), Found(map[], {}))
               == ParseMatches(flags, switches, args, Matches(args, from), found)
        invariant flagStart < 0 ==> Matches(args, 0) == Matches(args, from)
        invariant flagStart >= 0 ==> |Matches(args, 0)| > 0 && Matches(args, 0)[0] == flagStart
        decreases |args| - from
      {
        var next := NextIntroducer(args, from);
        if next.None? {
          break;
        }
        var p := next.value;
        if flagStart < 0 {
          flagStart := p;
        }
        var end := MatchEnd(args, p);
        var str := Group(args, p);
        assert Matches(args, from) == [p] + Matches(args, end);
        if str[0] != '-' {
          var read := ParseGroup(args, end, str, found);
          if read.Err? {
            return Err(read.error);
          }
          found := read.value;
        }
        from := end;
      }
      var positional := Split(if flagStart < 0 then args else args[..flagStart]);
      return Ok(CommandOptions(positional, found.flags, found.switches));
    }

    /** `parse(String... args)`: the arguments joined with single spaces. */
    method ParseArgs(args: seq<string>) returns (r: Result<CommandOptions, CommandException>)
      requires Valid()
      ensures r == ParseSpec(flags, switches, Join(args))
    {
      r := Parse(Join(args));
    }
  }

  /** Registration is not idempotent: registering the same flag a second time is refused,
      because its name is then in use, and leaves the registry as the first call left it. */
  method RegisterFlagTwice(c: Command, f: Flag) returns (first: Result<Command, IllegalArgument>,
                                                           second: Result<Command, IllegalArgument>)
    requires c.Valid() && !NameInUse(c.flags, c.switches, f.name) && !CharInUse(c.flags, c.switches, f.shortName)
    modifies c
    ensures first == Ok(c)
    ensures second == Err(IllegalArgument("Flag name or short name already in use."))
    ensures c.Valid() && c.flags == old(c.flags)[f.name := f] && c.switches == old(c.switches)
  {
    first := c.RegisterFlag(f);
    second := c.RegisterFlag(f);
  }
}
