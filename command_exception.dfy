/** The exceptions a command raises, and the messages shown to the user for them. */
module CommandExceptions {
  import opened JavaText

  /** `CommandException` and each of its subclasses. A kind keeps the constructor arguments
      its message is built from; being one datatype, every kind is a `CommandException`. */
  datatype CommandException =
    | Generic(msg: string)                      // new CommandException(msg)
    | UnknownArgument(index: Int32, arg: string)
    | MissingArgument(index: Int32)
    | InsufficientPermissions(permission: string)
    | ConsoleExecution
    | UnhandledCommand(commandName: string)     // the name the host reports for the command

  /** `getMessage()`. Indices are shown one-based, computed with Java `int` addition. */
  function Message(e: CommandException): string {
    match e
    case Generic(msg) => msg
    case UnknownArgument(index, arg) =>
      "Argument " + DecimalString(AddInt32(index, 1)) + " (\"" + arg + "\") is unknown"
    case MissingArgument(index) => "Argument " + DecimalString(AddInt32(index, 1)) + " is missing"
    case InsufficientPermissions(permission) => "Missing permission " + permission
    case ConsoleExecution => "Command must be executed by a player"
    case UnhandledCommand(name) => "Command " + name + " is not handled by this delegator"
  }

  /** A printed `int` holds no space. */
  lemma DecimalStringHasNoSpace(n: int)
    ensures ' ' !in DecimalString(n)
  {
    DecimalRoundTrip(n);
    var s := DecimalString(n);
    forall k | 0 <= k < |s| ensures s[k] != ' ' {
      if s[0] == '-' && k > 0 {
        assert s[k] == s[1..][k - 1];
      }
    }
  }

  /** If `p + x + q == p + y + q` then `x == y`. */
  lemma CancelAround(p: string, x: string, y: string, q: string)
    requires p + x + q == p + y + q
    ensures x == y
  {
    var m := p + x + q;
    assert |x| == |y|;
    assert x == m[|p|..|p| + |x|];
    assert y == (p + y + q)[|p|..|p| + |y|];
  }

  /** The message a `MissingArgument` shows determines its index. */
  lemma MissingArgumentMessageInjective(i: Int32, j: Int32)
    requires Message(MissingArgument(i)) == Message(MissingArgument(j))
    ensures i == j
  {
    CancelAround("Argument ", DecimalString(AddInt32(i, 1)), DecimalString(AddInt32(j, 1)), " is missing");
    DecimalStringInjective(AddInt32(i, 1), AddInt32(j, 1));
    AddInt32Injective(i, j, 1);
  }

  /** Text around a space-free word: `p + x + " " + u` determines `x` and `u`. */
  lemma SpaceDelimited(p: string, x: string, u: string, y: string, v: string)
    requires p + x + " " + u == p + y + " " + v
    requires ' ' !in x && ' ' !in y
    ensures x == y && u == v
  {
    var m := p + x + " " + u;
    assert m[|p|..] == x + " " + u;
    assert m[|p|..] == y + " " + v;
    FirstSpace(x, u);
    FirstSpace(y, v);
    assert x == (x + " " + u)[..|x|];
    assert y == (y + " " + v)[..|y|];
    assert u == (x + " " + u)[|x| + 1..];
    assert v == (y + " " + v)[|y| + 1..];
  }

  /** The message of an `UnknownArgument`, cut at the space after the number. */
  lemma UnknownArgumentShape(i: Int32, a: string)
    ensures Message(UnknownArgument(i, a))
         == "Argument " + DecimalString(AddInt32(i, 1)) + " " + ("(\"" + a + "\") is unknown")
  {
    assert " (\"" == " " + "(\"";
  }

  /** The message an `UnknownArgument` shows determines both its index and the argument:
      the printed number ends at the first space after `Argument `. */
  lemma UnknownArgumentMessageInjective(i: Int32, a: string, j: Int32, b: string)
    requires Message(UnknownArgument(i, a)) == Message(UnknownArgument(j, b))
    ensures i == j && a == b
  {
    UnknownArgumentShape(i, a);
    UnknownArgumentShape(j, b);
    DecimalStringHasNoSpace(AddInt32(i, 1));
    DecimalStringHasNoSpace(AddInt32(j, 1));
    SpaceDelimited("Argument ", DecimalString(AddInt32(i, 1)), "(\"" + a + "\") is unknown",
                   DecimalString(AddInt32(j, 1)), "(\"" + b + "\") is unknown");
    CancelAround("(\"", a, b, "\") is unknown");
    DecimalStringInjective(AddInt32(i, 1), AddInt32(j, 1));
    AddInt32Injective(i, j, 1);
  }

  /** The message of `InsufficientPermissions` determines the permission. */
  lemma PermissionMessageInjective(p: string, q: string)
    requires Message(InsufficientPermissions(p)) == Message(InsufficientPermissions(q))
    ensures p == q
  {
    CancelAround("Missing permission ", p, q, "");
  }

  /** The first argument (index 0) is reported as argument 1. */
  lemma MessagesAreOneBased()
    ensures Message(MissingArgument(0)) == "Argument 1 is missing"
  {
    assert AddInt32(0, 1) == 1;
    assert DecimalString(1) == [DigitChar(1)] == "1";
  }

  /** The second argument (index 1) is reported as argument 2, with the argument quoted. */
  lemma UnknownArgumentIsOneBased()
    ensures Message(UnknownArgument(1, "x")) == "Argument 2 (\"x\") is unknown"
  {
    assert AddInt32(1, 1) == 2;
    assert DecimalString(2) == [DigitChar(2)] == "2";
  }
}
