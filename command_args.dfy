/** Command options: the name rule of `CommandDelegator`, the value types `CommandFlag` and
    `CommandSwitch` with their constructors and name-based equality, and the
    `createFlag` / `createSwitch` factories. */
module CommandArgs {
  import opened Outcomes

  // ---------------------------------------------------------------------------------------
  // Names

  /** A character allowed in an option name: a digit, a lower-case letter or a dash. */
  predicate IsNameChar(c: char) {
    ('0' <= c <= '9') || ('a' <= c <= 'z') || c == '-'
  }

  /** The character loop of `isValidCommandArg`, from index `i` on: every character is
      allowed. */
  function AllNameChars(s: string, i: nat): (ok: bool)
    requires i <= |s|
    ensures ok <==> forall k | i <= k < |s| :: IsNameChar(s[k])
    decreases |s| - i
  {
    if i == |s| then true
    else if !IsNameChar(s[i]) then false
    else AllNameChars(s, i + 1)
  }

  /** `CommandDelegator.isValidCommandArg`: not empty, not starting with a dash, and made of
      digits, lower-case letters and dashes only. */
  function IsValidCommandArg(name: string): (valid: bool)
    ensures valid <==> |name| > 0 && name[0] != '-' && forall i | 0 <= i < |name| :: IsNameChar(name[i])
  {
    if |name| == 0 then false
    else if name[0] == '-' then false
    else AllNameChars(name, 0)
  }

  /** `CommandDelegator.isAlphanumeric(c, true, false)`, which is not part of this model,
      taken in its documented meaning: `[0-9A-Za-z]`. */
  predicate IsAlphanumeric(c: char) {
    ('0' <= c <= '9') || ('a' <= c <= 'z') || ('A' <= c <= 'Z')
  }

  /** The short name `(char) 0` that the constructors without a short name use. */
  const NO_SHORT_NAME: char := 0 as char

  /** The documented examples of good and bad names, and the edge cases of the rule. */
  lemma NameExamples()
    ensures IsValidCommandArg("toggle")
    ensures IsValidCommandArg("use-optional-config")
    ensures !IsValidCommandArg("UseOptionalConfig")
    ensures !IsValidCommandArg("")
    ensures !IsValidCommandArg("-toggle")
  {
    assert !IsNameChar("UseOptionalConfig"[0]);
    LongNameIsValid();
  }

  /** The documented multi-word name is valid (the second example of `NameExamples`).
      Stated on its own so that the proofs that use it stay small for the solver. */
  lemma LongNameIsValid()
    ensures IsValidCommandArg("use-optional-config")
  {
  }

  /** A name starting with a dash is never valid, whatever follows. */
  lemma LeadingDashIsInvalid(rest: string)
    ensures !IsValidCommandArg("-" + rest)
  {
  }

  /** The default short name is not alphanumeric, so it never takes part in a short-name
      lookup. */
  lemma NoShortNameIsNotAlphanumeric()
    ensures !IsAlphanumeric(NO_SHORT_NAME)
  {
  }

  // ---------------------------------------------------------------------------------------
  // Flags and switches

  /** A `CommandFlag` together with the two messages its concrete subclass supplies
      (`getValidationMessage()`, `getDocsMessage()`). */
  datatype Flag = Flag(
    name: string,
    shortName: char,
    validator: string -> bool,
    validationMessage: string,
    docsMessage: string)

  /** A `CommandSwitch` together with the message its concrete subclass supplies. */
  datatype Switch = Switch(name: string, shortName: char, docsMessage: string)

  /** The argument of `equals(Object o)`: any option, flag or switch. */
  datatype CommandOption = FlagOption(flag: Flag) | SwitchOption(switch: Switch)

  /** The message both constructors throw with for an invalid name. */
  function InvalidName(name: string): IllegalArgument {
    IllegalArgument("'" + name + "' is not valid command name")
  }

  /** `new CommandFlag(name, shortName, validator)` (with the subclass's messages): throws
      exactly when the name is invalid, and otherwise stores every argument unchanged. */
  function NewFlag(name: string, shortName: char, validator: string -> bool,
                   validationMessage: string, docsMessage: string): (r: Result<Flag, IllegalArgument>)
    ensures r.Ok? <==> IsValidCommandArg(name)
    ensures r.Err? ==> r.error == InvalidName(name)
    ensures r.Ok? ==> && r.value.name == name && r.value.shortName == shortName
                      && r.value.validator == validator
                      && r.value.validationMessage == validationMessage
                      && r.value.docsMessage == docsMessage
  {
    if !IsValidCommandArg(name) then Err(InvalidName(name))
    else Ok(Flag(name, shortName, validator, validationMessage, docsMessage))
  }

  /** `new CommandSwitch(name, shortName)` (with the subclass's message): throws exactly when
      the name is invalid, and otherwise stores every argument unchanged. */
  function NewSwitch(name: string, shortName: char, docsMessage: string): (r: Result<Switch, IllegalArgument>)
    ensures r.Ok? <==> IsValidCommandArg(name)
    ensures r.Err? ==> r.error == InvalidName(name)
    ensures r.Ok? ==> r.value.name == name && r.value.shortName == shortName && r.value.docsMessage == docsMessage
  {
    if !IsValidCommandArg(name) then Err(InvalidName(name))
    else Ok(Switch(name, shortName, docsMessage))
  }

  /** `new CommandFlag(name, validator)`: the same with the short name `(char) 0`, which is
      not alphanumeric. */
  function NewFlagWithoutShortName(name: string, validator: string -> bool,
                                   validationMessage: string, docsMessage: string)
    : (r: Result<Flag, IllegalArgument>)
    ensures r.Ok? <==> IsValidCommandArg(name)
    ensures r.Err? ==> r.error == InvalidName(name)
    ensures r.Ok? ==> && r.value.name == name && r.value.shortName == NO_SHORT_NAME
                      && !IsAlphanumeric(r.value.shortName) && r.value.validator == validator
  {
    NewFlag(name, NO_SHORT_NAME, validator, validationMessage, docsMessage)
  }

  /** `new CommandSwitch(name)`: the same with the short name `(char) 0`. */
  function NewSwitchWithoutShortName(name: string, docsMessage: string): (r: Result<Switch, IllegalArgument>)
    ensures r.Ok? <==> IsValidCommandArg(name)
    ensures r.Err? ==> r.error == InvalidName(name)
    ensures r.Ok? ==> r.value.name == name && r.value.shortName == NO_SHORT_NAME && !IsAlphanumeric(r.value.shortName)
  {
    NewSwitch(name, NO_SHORT_NAME, docsMessage)
  }

  /** `CommandDelegator.createFlag(name, validator, docsMsg, validationMsg)`: a flag without
      short name whose messages are exactly the given strings. */
  function CreateFlag(name: string, validator: string -> bool, docsMsg: string, validationMsg: string)
    : (r: Result<Flag, IllegalArgument>)
    ensures r.Ok? <==> IsValidCommandArg(name)
    ensures r.Err? ==> r.error == InvalidName(name)
    ensures r.Ok? ==> && r.value.name == name && r.value.shortName == NO_SHORT_NAME
                      && !IsAlphanumeric(r.value.shortName)
                      && r.value.validator == validator
                      && r.value.validationMessage == validationMsg && r.value.docsMessage == docsMsg
  {
    NewFlagWithoutShortName(name, validator, validationMsg, docsMsg)
  }

  /** `CommandDelegator.createFlag(name, shortName, validator, docsMsg, validationMsg)`. */
  function CreateFlagWithShortName(name: string, shortName: char, validator: string -> bool,
                                   docsMsg: string, validationMsg: string): (r: Result<Flag, IllegalArgument>)
    ensures r.Ok? <==> IsValidCommandArg(name)
    ensures r.Err? ==> r.error == InvalidName(name)
    ensures r.Ok? ==> && r.value.name == name && r.value.shortName == shortName
                      && r.value.validator == validator
                      && r.value.validationMessage == validationMsg && r.value.docsMessage == docsMsg
  {
    NewFlag(name, shortName, validator, validationMsg, docsMsg)
  }

  /** `CommandDelegator.createSwitch(name, docsMsg)`: a switch without short name. */
  function CreateSwitch(name: string, docsMsg: string): (r: Result<Switch, IllegalArgument>)
    ensures r.Ok? <==> IsValidCommandArg(name)
    ensures r.Err? ==> r.error == InvalidName(name)
    ensures r.Ok? ==> && r.value.name == name && r.value.shortName == NO_SHORT_NAME
                      && !IsAlphanumeric(r.value.shortName) && r.value.docsMessage == docsMsg
  {
    NewSwitchWithoutShortName(name, docsMsg)
  }

  /** `CommandDelegator.createSwitch(name, shortName, docsMsg)`. */
  function CreateSwitchWithShortName(name: string, shortName: char, docsMsg: string)
    : (r: Result<Switch, IllegalArgument>)
    ensures r.Ok? <==> IsValidCommandArg(name)
    ensures r.Err? ==> r.error == InvalidName(name)
    ensures r.Ok? ==> r.value.name == name && r.value.shortName == shortName && r.value.docsMessage == docsMsg
  {
    NewSwitch(name, shortName, docsMsg)
  }

  // ---------------------------------------------------------------------------------------
  // Equality

  /** `CommandFlag.equals`: another flag with the same name. */
  predicate FlagEquals(f: Flag, o: CommandOption) {
    o.FlagOption? && o.flag.name == f.name
  }

  /** `CommandSwitch.equals`: another switch with the same name. */
  predicate SwitchEquals(s: Switch, o: CommandOption) {
    o.SwitchOption? && o.switch.name == s.name
  }

  /** Flags are equal exactly when their names are, whatever their short names, validators
      and messages; the relation is an equivalence; no flag equals a switch. */
  lemma FlagEqualityIsByName(f: Flag, g: Flag, h: Flag, s: Switch)
    ensures FlagEquals(f, FlagOption(g)) <==> f.name == g.name
    ensures FlagEquals(f, FlagOption(f))
    ensures FlagEquals(f, FlagOption(g)) ==> FlagEquals(g, FlagOption(f))
    ensures FlagEquals(f, FlagOption(g)) && FlagEquals(g, FlagOption(h)) ==> FlagEquals(f, FlagOption(h))
    ensures !FlagEquals(f, SwitchOption(s))
  {
  }

  /** Switches are equal exactly when their names are; no switch equals a flag, even one
      with the same name. */
  lemma SwitchEqualityIsByName(s: Switch, t: Switch, u: Switch, f: Flag)
    ensures SwitchEquals(s, SwitchOption(t)) <==> s.name == t.name
    ensures SwitchEquals(s, SwitchOption(s))
    ensures SwitchEquals(s, SwitchOption(t)) ==> SwitchEquals(t, SwitchOption(s))
    ensures SwitchEquals(s, SwitchOption(t)) && SwitchEquals(t, SwitchOption(u)) ==> SwitchEquals(s, SwitchOption(u))
    ensures !SwitchEquals(s, FlagOption(f))
  {
  }
}
