/** The logging levels, their order of importance, and the chat colour each is shown in. */
module LoggingLevels {

  /** `LoggingLevel`, in declaration order, from least to most important. */
  datatype LoggingLevel = SILLY | DEBUG | VERBOSE | INFO | WARNING | ERROR

  /** `LoggingLevel.values()`: the constants in declaration order. */
  const LEVELS: seq<LoggingLevel> := [SILLY, DEBUG, VERBOSE, INFO, WARNING, ERROR]

  /** `ordinal()`: the position of the level in the declaration. */
  function Ordinal(l: LoggingLevel): (n: nat)
    ensures n < |LEVELS| && LEVELS[n] == l
  {
    match l
    case SILLY => 0
    case DEBUG => 1
    case VERBOSE => 2
    case INFO => 3
    case WARNING => 4
    case ERROR => 5
  }

  /** A message at `level` passes a threshold of `threshold`: the comparison of ordinals a
      logger applies before handing a message to a transport. */
  predicate AtLeast(level: LoggingLevel, threshold: LoggingLevel) {
    Ordinal(level) >= Ordinal(threshold)
  }

  /** Every level has its own ordinal, and every ordinal below six belongs to a level. */
  lemma OrdinalIsBijective(a: LoggingLevel, b: LoggingLevel, n: nat)
    ensures Ordinal(a) == Ordinal(b) ==> a == b
    ensures n < 6 ==> Ordinal(LEVELS[n]) == n
  {
    if Ordinal(a) == Ordinal(b) {
      assert LEVELS[Ordinal(a)] == a;
    }
  }

  /** The documented order: SILLY, DEBUG, VERBOSE, INFO, WARNING, ERROR, each strictly more
      important than the one before. */
  lemma DocumentedOrder()
    ensures Ordinal(SILLY) < Ordinal(DEBUG) < Ordinal(VERBOSE) < Ordinal(INFO)
    ensures Ordinal(INFO) < Ordinal(WARNING) < Ordinal(ERROR)
    ensures forall k | 0 <= k < |LEVELS| :: Ordinal(LEVELS[k]) == k
  {
  }

  /** `AtLeast` is a total order: reflexive, antisymmetric, transitive and total. SILLY is
      passed by every level and ERROR passes every threshold. */
  lemma AtLeastIsTotalOrder(a: LoggingLevel, b: LoggingLevel, c: LoggingLevel)
    ensures AtLeast(a, a)
    ensures AtLeast(a, b) && AtLeast(b, a) ==> a == b
    ensures AtLeast(a, b) && AtLeast(b, c) ==> AtLeast(a, c)
    ensures AtLeast(a, b) || AtLeast(b, a)
    ensures AtLeast(a, SILLY) && AtLeast(ERROR, a)
  {
    OrdinalIsBijective(a, b, 0);
  }

  /** The `ChatColor` constants `color()` can return. */
  datatype ChatColor = WHITE | LIGHT_PURPLE | YELLOW | RED | RESET

  /** `color()`. The switch covers every level, so the `RESET` fallback after it is never
      reached. */
  function Color(l: LoggingLevel): (c: ChatColor)
    ensures c != RESET
  {
    match l
    case SILLY | VERBOSE | INFO => WHITE
    case DEBUG => LIGHT_PURPLE
    case WARNING => YELLOW
    case ERROR => RED
  }

  /** Which levels get which colour: the white ones are SILLY, VERBOSE and INFO, and a level is
      shown in a warning colour (yellow or red) exactly when it is at least WARNING. */
  lemma ColorsOfLevels(l: LoggingLevel)
    ensures Color(l) == WHITE <==> l == SILLY || l == VERBOSE || l == INFO
    ensures Color(l) == LIGHT_PURPLE <==> l == DEBUG
    ensures Color(l) == YELLOW <==> l == WARNING
    ensures Color(l) == RED <==> l == ERROR
    ensures Color(l) == YELLOW || Color(l) == RED <==> AtLeast(l, WARNING)
  {
  }
}
