/** How `vxCommand.parse` finds options in the argument line, and how `getStringFrom` reads a
    flag's value. The option pattern is ` -([^ ]+)` followed by a lookahead that accepts the
    rest of the line only when its double quotes are balanced; `Matcher.find()` is applied
    repeatedly, each search resuming where the previous match ended. */
module OptionScanner {
  import opened Outcomes
  import opened JavaText
  import opened CommandExceptions

  // ---------------------------------------------------------------------------------------
  // The quote-balance lookahead

  /** The lookahead `(?:[^"\\]*(?:\\.|"(?:[^"\\]*\\.)*[^"\\]*"))*[^"]*$`, read from index `i`
      as a scanner that is inside a quoted region exactly when `quoted` holds: a backslash
      hides the character after it in both modes, a double quote opens or closes a region,
      and the text is accepted when it ends outside a region. A backslash with nothing after
      it is accepted outside a region (the final `[^"]*` takes it) and refused inside. */
  predicate BalancedFrom(s: string, i: nat, quoted: bool)
    requires i <= |s|
    decreases |s| - i
  {
    if i == |s| then !quoted
    else if s[i] == '\\' then
      if i + 1 == |s| then !quoted else BalancedFrom(s, i + 2, quoted)
    else if s[i] == '"' then BalancedFrom(s, i + 1, !quoted)
    else BalancedFrom(s, i + 1, quoted)
  }

  /** The lookahead succeeds at index `i`. */
  predicate Balanced(s: string, i: nat)
    requires i <= |s|
  {
    BalancedFrom(s, i, false)
  }

  /** A character that neither opens nor closes a region nor hides the next one. */
  predicate IsPlain(c: char) {
    c != '"' && c != '\\'
  }

  /** The same text is never accepted both from inside and from outside a region. */
  lemma {:induction false} BalancedModesExclusive(s: string, i: nat)
    requires i <= |s|
    ensures !(BalancedFrom(s, i, false) && BalancedFrom(s, i, true))
    decreases |s| - i
  {
    if i < |s| {
      if s[i] == '\\' {
        if i + 1 < |s| {
          BalancedModesExclusive(s, i + 2);
        }
      } else {
        BalancedModesExclusive(s, i + 1);
      }
    }
  }

  /** Plain characters do not change the verdict. */
  lemma {:induction false} BalancedSkipsPlain(s: string, i: nat, j: nat, quoted: bool)
    requires i <= j <= |s|
    requires forall k | i <= k < j :: IsPlain(s[k])
    ensures BalancedFrom(s, i, quoted) == BalancedFrom(s, j, quoted)
    decreases j - i
  {
    if i < j {
      BalancedSkipsPlain(s, i + 1, j, quoted);
    }
  }

  // ---------------------------------------------------------------------------------------
  // Finding options

  /** The end of the run of non-space characters that starts at `i`. */
  function TokenEnd(s: string, i: nat): (e: nat)
    requires i <= |s|
    ensures i <= e <= |s|
    ensures forall k | i <= k < e :: s[k] != ' '
    ensures e == |s| || s[e] == ' '
  {
    var e := i + IndexOfSpace(s[i..]);
    assert forall k | i <= k < e :: s[k] == s[i..][k - i];
    e
  }

  /** Where the greedy group `([^ ]+)` that starts at `i` stops: the largest `e` with
      `i < e <= hi` at which the lookahead succeeds, found by giving back one character at a
      time; `None` when there is none. */
  function GroupEnd(s: string, i: nat, hi: nat): (r: Option<nat>)
    requires i <= hi <= |s|
    ensures r.Some? ==> i < r.value <= hi && Balanced(s, r.value)
    ensures forall e | (if r.Some? then r.value else i) < e <= hi :: !Balanced(s, e)
    decreases hi
  {
    if hi <= i then None
    else if Balanced(s, hi) then Some(hi)
    else GroupEnd(s, i, hi - 1)
  }

  /** The pattern matches at `p`: a space, a dash, and a group of non-space characters after
      which the rest of the line is balanced. */
  predicate IntroducerAt(s: string, p: nat) {
    p + 2 < |s| && s[p] == ' ' && s[p + 1] == '-' && GroupEnd(s, p + 2, TokenEnd(s, p + 2)).Some?
  }

  /** `m.end()` for the match at `p`. */
  function MatchEnd(s: string, p: nat): (e: nat)
    requires IntroducerAt(s, p)
    ensures p + 2 < e <= TokenEnd(s, p + 2) && Balanced(s, e)
  {
    GroupEnd(s, p + 2, TokenEnd(s, p + 2)).value
  }

  /** `m.group(1)` for the match at `p`: non-empty and free of spaces. */
  function Group(s: string, p: nat): (g: string)
    requires IntroducerAt(s, p)
    ensures |g| > 0 && g[0] == s[p + 2] && ' ' !in g
  {
    var g := s[p + 2..MatchEnd(s, p)];
    assert forall k | 0 <= k < |g| :: g[k] == s[p + 2 + k];
    g
  }

  /** `m.find()` resuming at `from`: the first match at or after `from`. */
  function NextIntroducer(s: string, from: nat): (r: Option<nat>)
    requires from <= |s|
    ensures r.Some? ==> from <= r.value < |s| && IntroducerAt(s, r.value)
    ensures forall q | from <= q < (if r.Some? then r.value else |s|) :: !IntroducerAt(s, q)
    decreases |s| - from
  {
    if from == |s| then None
    else if IntroducerAt(s, from) then Some(from)
    else NextIntroducer(s, from + 1)
  }

  /** The starts of the matches that successive `m.find()` calls report from `from` on. */
  function Matches(s: string, from: nat): (ms: seq<nat>)
    requires from <= |s|
    ensures forall k | 0 <= k < |ms| :: from <= ms[k] && IntroducerAt(s, ms[k])
    ensures forall j, k | 0 <= j < k < |ms| :: ms[j] < ms[k]
    decreases |s| - from
  {
    match NextIntroducer(s, from)
    case None => []
    case Some(p) => [p] + Matches(s, MatchEnd(s, p))
  }

  /** No match starts inside another match: its characters are a dash and non-spaces. */
  lemma NoIntroducerInsideMatch(s: string, p: nat, q: nat)
    requires IntroducerAt(s, p) && p < q < MatchEnd(s, p)
    ensures !IntroducerAt(s, q)
  {
  }

  /** The matches are exactly the positions where the pattern matches. */
  lemma {:induction false} MatchesAreAllIntroducers(s: string, from: nat, q: nat)
    requires from <= |s|
    ensures q in Matches(s, from) <==> from <= q && IntroducerAt(s, q)
    decreases |s| - from
  {
    match NextIntroducer(s, from)
    case None =>
    case Some(p) =>
      assert Matches(s, from) == [p] + Matches(s, MatchEnd(s, p));
      MatchesAreAllIntroducers(s, MatchEnd(s, p), q);
      if p < q < MatchEnd(s, p) {
        NoIntroducerInsideMatch(s, p, q);
      }
  }

  /** A line without spaces holds no option, so in particular an option at the very start of
      the line is not recognised. */
  lemma NoSpaceNoMatches(s: string)
    requires ' ' !in s
    ensures Matches(s, 0) == []
  {
    assert NextIntroducer(s, 0).None?;
  }

  /** The last word of a line is always an option when it starts with a dash, even after an
      opening quote: at the end of the line the lookahead has nothing left to refuse. */
  lemma LastWordIsAnOption(s: string, p: nat)
    requires p + 2 < |s| && s[p] == ' ' && s[p + 1] == '-' && s[p + 2] != ' '
    requires TokenEnd(s, p + 2) == |s|
    ensures IntroducerAt(s, p) && MatchEnd(s, p) == |s| && Group(s, p) == s[p + 2..]
  {
  }

  /** In a line without quotes and backslashes the lookahead always succeeds: every space,
      dash and non-space starts an option, whose group is the whole word. */
  lemma PlainLineOptions(s: string, p: nat)
    requires forall k | 0 <= k < |s| :: IsPlain(s[k])
    ensures IntroducerAt(s, p) <==> p + 2 < |s| && s[p] == ' ' && s[p + 1] == '-' && s[p + 2] != ' '
    ensures IntroducerAt(s, p) ==> MatchEnd(s, p) == TokenEnd(s, p + 2)
  {
    if p + 2 < |s| {
      var e := TokenEnd(s, p + 2);
      BalancedSkipsPlain(s, e, |s|, false);
    }
  }

  /** The documented example line. */
  const DOCUMENTED_LINE: string := "a b -r -t 6s"

  /** The lookahead succeeds everywhere in the documented line: it holds no quote and no
      backslash. */
  lemma DocumentedLineBalanced(e: nat)
    requires e <= |DOCUMENTED_LINE|
    ensures Balanced(DOCUMENTED_LINE, e)
  {
    var s := DOCUMENTED_LINE;
    assert forall k | e <= k < |s| :: IsPlain(s[k]);
    BalancedSkipsPlain(s, e, |s|, false);
  }

  /** The first option of the documented line is `-r`, ending before the next space. */
  lemma DocumentedLineFirstOption()
    ensures NextIntroducer(DOCUMENTED_LINE, 0) == Some(3) && MatchEnd(DOCUMENTED_LINE, 3) == 6
  {
    var s := DOCUMENTED_LINE;
    assert s[0] == 'a' && s[1] == ' ' && s[2] == 'b' && s[3] == ' ';
    assert s[4] == '-' && s[5] == 'r' && s[6] == ' ';
    assert TokenEnd(s, 5) == 6;
    DocumentedLineBalanced(6);
    assert GroupEnd(s, 5, 6) == Some(6);
    assert NextIntroducer(s, 3) == Some(3);
    assert NextIntroducer(s, 2) == Some(3);
    assert NextIntroducer(s, 1) == Some(3);
  }

  /** The search resumed after `-r` finds `-t` right away. */
  lemma DocumentedLineSecondOption()
    ensures NextIntroducer(DOCUMENTED_LINE, 6) == Some(6) && MatchEnd(DOCUMENTED_LINE, 6) == 9
  {
    var s := DOCUMENTED_LINE;
    assert s[6] == ' ' && s[7] == '-' && s[8] == 't' && s[9] == ' ';
    assert TokenEnd(s, 8) == 9;
    DocumentedLineBalanced(9);
    assert GroupEnd(s, 8, 9) == Some(9);
  }

  /** Nothing after `-t` is an option: `6s` follows a space but no dash. */
  lemma DocumentedLineAfterLastOption()
    ensures NextIntroducer(DOCUMENTED_LINE, 9) == None
  {
    var s := DOCUMENTED_LINE;
    assert s[9] == ' ' && s[10] == '6' && s[11] == 's';
    assert NextIntroducer(s, 12) == None;
    assert NextIntroducer(s, 11) == None;
    assert NextIntroducer(s, 10) == None;
  }

  /** The options of `a b -r -t 6s` are `-r` and `-t`: the find loop visits exactly those
      two matches, and the value `6s` is not an option. */
  lemma DocumentedLineMatches()
    ensures Matches(DOCUMENTED_LINE, 0) == [3, 6]
  {
    var s := DOCUMENTED_LINE;
    DocumentedLineFirstOption();
    DocumentedLineSecondOption();
    DocumentedLineAfterLastOption();
    assert Matches(s, 9) == [];
    assert Matches(s, 6) == [6];
  }

  /** Dash-words inside a quoted region are not options: when the group can only end before
      the closing quote `c` of a region opened at `a`, with plain text in between and a
      balanced rest after `c`, the lookahead fails at every possible end. */
  lemma QuotedDashTextIsNotAnOption(s: string, a: nat, c: nat, p: nat)
    requires a < p && p + 2 < c < |s|
    requires s[a] == '"' && s[c] == '"'
    requires forall k | a < k < c :: IsPlain(s[k])
    requires TokenEnd(s, p + 2) < c
    requires Balanced(s, c + 1)
    ensures !IntroducerAt(s, p)
  {
    BalancedModesExclusive(s, c + 1);
    forall e | p + 2 < e <= TokenEnd(s, p + 2)
      ensures !Balanced(s, e)
    {
      BalancedSkipsPlain(s, e, c, false);
    }
  }

  // ---------------------------------------------------------------------------------------
  // Reading a flag's value (`getStringFrom`)

  /** The index of the first non-space character at or after `i`. */
  function SkipSpaces(s: string, i: nat): (k: nat)
    requires i <= |s|
    ensures i <= k <= |s|
    ensures forall j | i <= j < k :: s[j] == ' '
    ensures k == |s| || s[k] != ' '
    decreases |s| - i
  {
    if i == |s| || s[i] != ' ' then i else SkipSpaces(s, i + 1)
  }

  /** What `(?<=[^\\])"` finds at `q`: a double quote not preceded by a backslash. */
  predicate IsClosingQuote(str: string, q: nat)
    requires 1 <= q < |str|
  {
    str[q] == '"' && str[q - 1] != '\\'
  }

  /** `m.find(from)` for the closing-quote pattern. */
  function ClosingQuote(str: string, from: nat): (r: Option<nat>)
    requires 1 <= from <= |str|
    ensures r.Some? ==> from <= r.value < |str| && IsClosingQuote(str, r.value)
    ensures forall q | from <= q < (if r.Some? then r.value else |str|) :: !IsClosingQuote(str, q)
    decreases |str| - from
  {
    if from == |str| then None
    else if IsClosingQuote(str, from) then Some(from)
    else ClosingQuote(str, from + 1)
  }

  /** Every double quote in `v` has a backslash right before it. */
  predicate QuotesEscaped(v: string) {
    forall j | 0 <= j < |v| :: v[j] == '"' ==> j > 0 && v[j - 1] == '\\'
  }

  /** `getStringFrom(args, index)`: after the spaces at `index`, either nothing or a dash
      (`MissingArgumentException(0)`), or a quoted value that runs to the first unescaped
      closing quote (or to the end of the line), or the word up to the next space. */
  function FlagValue(s: string, index: nat): (r: Result<string, CommandException>)
    requires index <= |s|
    ensures var k := SkipSpaces(s, index);
      r.Err? <==> k == |s| || s[k] == '-'
    ensures r.Err? ==> r.error == MissingArgument(0)
  {
    var str := s[SkipSpaces(s, index)..];
    if |str| == 0 || str[0] == '-' then Err(MissingArgument(0))
    else if str[0] == '"' then
      match ClosingQuote(str, 1)
      case None => Ok(str[1..])
      case Some(q) => Ok(str[1..q])
    else Ok(str[..TokenEnd(str, 0)])
  }

  /** The two shapes of a value read: a quoted value has only escaped quotes inside; an
      unquoted one is a non-empty word that does not start with a quote or a dash. */
  lemma FlagValueShape(s: string, index: nat)
    requires index <= |s|
    requires FlagValue(s, index).Ok?
    ensures var k := SkipSpaces(s, index); var v := FlagValue(s, index).value;
      if s[k] == '"' then QuotesEscaped(v)
      else |v| > 0 && ' ' !in v && v[0] != '"' && v[0] != '-'
  {
    var k := SkipSpaces(s, index);
    var str := s[k..];
    var v := FlagValue(s, index).value;
    if s[k] == '"' {
      var q := ClosingQuote(str, 1);
      var end := if q.Some? then q.value else |str|;
      assert v == str[1..end];
      forall j | 0 <= j < |v| && v[j] == '"'
        ensures j > 0 && v[j - 1] == '\\'
      {
        assert str[j + 1] == '"' && !IsClosingQuote(str, j + 1);
      }
    } else {
      assert v == str[..TokenEnd(str, 0)];
    }
  }

  /** Quoting round trip: a value whose quotes are escaped and that does not end with a
      backslash is read back exactly from between double quotes. */
  lemma QuotedValueRoundTrip(pre: string, v: string, rest: string)
    requires QuotesEscaped(v) && (|v| == 0 || v[|v| - 1] != '\\')
    ensures FlagValue(pre + "\"" + v + "\"" + rest, |pre|) == Ok(v)
  {
    var s := pre + "\"" + v + "\"" + rest;
    assert s[|pre|] == '"';
    assert SkipSpaces(s, |pre|) == |pre|;
    var str := s[|pre|..];
    assert str == "\"" + v + "\"" + rest;
    assert str[|v| + 1] == '"';
    assert forall j | 1 <= j <= |v| :: str[j] == v[j - 1];
    assert str[|v|] != '\\';
    assert IsClosingQuote(str, |v| + 1);
    var q := ClosingQuote(str, 1);
    assert q.Some? && q.value <= |v| + 1;
    assert str[1..|v| + 1] == v;
  }

  /** Word round trip: a word that starts with neither a quote nor a dash, followed by the end
      of the line or a space, is read back exactly. */
  lemma WordValueRoundTrip(pre: string, w: string, rest: string)
    requires |w| > 0 && ' ' !in w && w[0] != '"' && w[0] != '-'
    requires rest == "" || rest[0] == ' '
    ensures FlagValue(pre + w + rest, |pre|) == Ok(w)
  {
    var s := pre + w + rest;
    assert s[|pre|] == w[0];
    assert SkipSpaces(s, |pre|) == |pre|;
    var str := s[|pre|..];
    assert str == w + rest;
    assert forall j | 0 <= j < |w| :: str[j] == w[j];
    if |rest| > 0 {
      assert str[|w|] == ' ';
    }
    assert TokenEnd(str, 0) == |w|;
    assert str[..|w|] == w;
  }
}
