/** The few pieces of Java's `int` and `String` behaviour that the command and logging code
    relies on: 32-bit `int` addition, decimal printing of an `int` (`%d`), and
    `String.split(" ")` / `String.join(" ", ...)`. */
module JavaText {

  const INT_MIN: int := -0x8000_0000
  const INT_MAX: int := 0x7fff_ffff
  const INT_RANGE: int := 0x1_0000_0000

  /** Values of Java's `int`. */
  type Int32 = x: int | INT_MIN <= x <= INT_MAX

  // ---------------------------------------------------------------------------------------
  // int arithmetic

  /** Java `int` addition: two's-complement wrap-around on overflow. */
  function AddInt32(a: Int32, b: Int32): (r: Int32)
    ensures INT_MIN <= a + b <= INT_MAX ==> r == a + b
    ensures a + b > INT_MAX ==> r == a + b - INT_RANGE
    ensures a + b < INT_MIN ==> r == a + b + INT_RANGE
  {
    if a + b > INT_MAX then a + b - INT_RANGE
    else if a + b < INT_MIN then a + b + INT_RANGE
    else a + b
  }

  /** Adding the same `int` is injective, wrap-around included. */
  lemma AddInt32Injective(a: Int32, b: Int32, c: Int32)
    requires AddInt32(a, c) == AddInt32(b, c)
    ensures a == b
  {
  }

  /** `Integer.MAX_VALUE + 1` wraps to `Integer.MIN_VALUE`. */
  lemma AddInt32Wraps()
    ensures AddInt32(INT_MAX, 1) == INT_MIN
  {
  }

  // ---------------------------------------------------------------------------------------
  // Decimal printing (`String.format("%d", n)`)

  predicate IsDigit(c: char) {
    '0' <= c <= '9'
  }

  predicate AllDigits(s: string) {
    forall i | 0 <= i < |s| :: IsDigit(s[i])
  }

  function DigitChar(d: nat): (c: char)
    requires d < 10
    ensures IsDigit(c) && c as int - '0' as int == d
  {
    ('0' as int + d) as char
  }

  /** The decimal digits of `n`, most significant first, with no leading zero. */
  function NatDigits(n: nat): (s: string)
    ensures |s| > 0 && AllDigits(s)
    ensures |s| > 1 ==> s[0] != '0'
    decreases n
  {
    if n < 10 then [DigitChar(n)] else NatDigits(n / 10) + [DigitChar(n % 10)]
  }

  /** How Java prints an `int`: `-` followed by the digits of the magnitude when negative. */
  function DecimalString(n: int): string {
    if n < 0 then "-" + NatDigits(-n) else NatDigits(n)
  }

  /** The number a string of decimal digits denotes. */
  function DigitsValue(s: string): nat
    requires AllDigits(s)
  {
    if |s| == 0 then 0
    else
      assert IsDigit(s[|s| - 1]);
      DigitsValue(s[..|s| - 1]) * 10 + (s[|s| - 1] as int - '0' as int)
  }

  /** The number a printed `int` denotes: the inverse of `DecimalString`. */
  function DecimalValue(s: string): int
    requires |s| > 0 && (if s[0] == '-' then AllDigits(s[1..]) else AllDigits(s))
  {
    if s[0] == '-' then -(DigitsValue(s[1..]) as int) else DigitsValue(s)
  }

  lemma {:induction false} NatDigitsRoundTrip(n: nat)
    ensures DigitsValue(NatDigits(n)) == n
    decreases n
  {
    if n >= 10 {
      NatDigitsRoundTrip(n / 10);
      var s := NatDigits(n);
      assert s[..|s| - 1] == NatDigits(n / 10);
    }
  }

  /** Reading a printed `int` back gives the number that was printed. */
  lemma DecimalRoundTrip(n: int)
    ensures var s := DecimalString(n);
      |s| > 0 && (if s[0] == '-' then AllDigits(s[1..]) else AllDigits(s)) && DecimalValue(s) == n
  {
    if n < 0 {
      NatDigitsRoundTrip(-n);
      assert DecimalString(n)[1..] == NatDigits(-n);
    } else {
      NatDigitsRoundTrip(n);
    }
  }

  /** Different numbers print differently. */
  lemma DecimalStringInjective(a: int, b: int)
    requires DecimalString(a) == DecimalString(b)
    ensures a == b
  {
    DecimalRoundTrip(a);
    DecimalRoundTrip(b);
  }

  // ---------------------------------------------------------------------------------------
  // String.split(" ") and String.join(" ", ...)

  /** The index of the first space in `s`, or `|s|` when there is none. */
  function IndexOfSpace(s: string): (i: nat)
    ensures i <= |s|
    ensures i < |s| ==> s[i] == ' '
    ensures forall k | 0 <= k < i :: s[k] != ' '
  {
    if |s| == 0 || s[0] == ' ' then 0 else 1 + IndexOfSpace(s[1..])
  }

  /** The pieces of `s` between single spaces, empty pieces included. */
  function Pieces(s: string): (ps: seq<string>)
    ensures |ps| > 0
    decreases |s|
  {
    var i := IndexOfSpace(s);
    if i == |s| then [s] else [s[..i]] + Pieces(s[i + 1..])
  }

  /** `String.join(" ", ps)`. */
  function Join(ps: seq<string>): string {
    if |ps| == 0 then "" else if |ps| == 1 then ps[0] else ps[0] + " " + Join(ps[1..])
  }

  /** `ps` without its trailing empty strings. */
  function DropTrailingEmpty(ps: seq<string>): (r: seq<string>)
    ensures r <= ps
    ensures |r| == 0 || r[|r| - 1] != ""
    ensures forall k | |r| <= k < |ps| :: ps[k] == ""
  {
    if |ps| > 0 && ps[|ps| - 1] == "" then DropTrailingEmpty(ps[..|ps| - 1]) else ps
  }

  /** Java's `s.split(" ")`: when `s` holds a space, its pieces without the trailing empty
      ones; otherwise the one-element array `{s}` (so `"".split(" ")` is `{""}`). */
  function Split(s: string): seq<string> {
    if ' ' !in s then [s] else DropTrailingEmpty(Pieces(s))
  }

  /** No piece holds a space. */
  lemma {:induction false} PiecesHaveNoSpace(s: string)
    ensures forall k | 0 <= k < |Pieces(s)| :: ' ' !in Pieces(s)[k]
    decreases |s|
  {
    var i := IndexOfSpace(s);
    if i < |s| {
      PiecesHaveNoSpace(s[i + 1..]);
    }
  }

  /** `Join([x] + rest)` puts one space between `x` and `Join(rest)`. */
  lemma JoinCons(x: string, rest: seq<string>)
    requires |rest| > 0
    ensures Join([x] + rest) == x + " " + Join(rest)
  {
    assert ([x] + rest)[1..] == rest;
  }

  /** Joining the pieces with single spaces gives the string back. */
  lemma {:induction false} JoinPieces(s: string)
    ensures Join(Pieces(s)) == s
    decreases |s|
  {
    var i := IndexOfSpace(s);
    if i < |s| {
      var head, tail := s[..i], s[i + 1..];
      assert Join(Pieces(tail)) == tail by {
        JoinPieces(tail);
      }
      assert Join(Pieces(s)) == head + " " + Join(Pieces(tail)) by {
        assert Pieces(s) == [head] + Pieces(tail);
        JoinCons(head, Pieces(tail));
      }
      CutAtSpace(s, i);
    }
  }

  /** A string is the text before a space, the space, and the text after it.
      Stated on its own so that the proofs that use it stay small for the solver. */
  lemma CutAtSpace(s: string, i: nat)
    requires i < |s| && s[i] == ' '
    ensures s == s[..i] + " " + s[i + 1..]
  {
  }

  /** Dropping trailing empty pieces removes only spaces from the end of the joined text. */
  lemma {:induction false} JoinDropTrailingEmpty(ps: seq<string>)
    requires |ps| > 0
    ensures Join(DropTrailingEmpty(ps)) <= Join(ps)
    ensures forall k | |Join(DropTrailingEmpty(ps))| <= k < |Join(ps)| :: Join(ps)[k] == ' '
    decreases |ps|
  {
    if ps[|ps| - 1] == "" && |ps| > 1 {
      var front := ps[..|ps| - 1];
      assert ps == front + [""];
      assert DropTrailingEmpty(ps) == DropTrailingEmpty(front);
      JoinDropTrailingEmpty(front);
      JoinSnoc(front, "");
    }
  }

  /** `Join(ps + [x])` puts one space between `Join(ps)` and `x`. */
  lemma {:induction false} JoinSnoc(ps: seq<string>, x: string)
    requires |ps| > 0
    ensures Join(ps + [x]) == Join(ps) + " " + x
    decreases |ps|
  {
    if |ps| > 1 {
      JoinSnoc(ps[1..], x);
      assert (ps + [x])[1..] == ps[1..] + [x];
    }
  }

  /** What `split(" ")` returns: pieces without spaces that, joined back with single spaces,
      give the input up to trailing spaces; nothing is lost but trailing spaces, and only the
      input `""` yields an empty last piece. */
  lemma SplitSpec(s: string)
    ensures forall k | 0 <= k < |Split(s)| :: ' ' !in Split(s)[k]
    ensures Join(Split(s)) <= s
    ensures forall k | |Join(Split(s))| <= k < |s| :: s[k] == ' '
    ensures |Split(s)| > 0 && Split(s)[|Split(s)| - 1] == "" ==> s == ""
    ensures Split(s) <= Pieces(s)
  {
    JoinPieces(s);
    PiecesHaveNoSpace(s);
    if ' ' in s {
      JoinDropTrailingEmpty(Pieces(s));
    } else {
      assert Pieces(s) == [s];
    }
  }

  /** The first space of `x + " " + r` is the one after `x` when `x` has none. */
  lemma FirstSpace(x: string, r: string)
    requires ' ' !in x
    ensures IndexOfSpace(x + " " + r) == |x|
  {
    var m := x + " " + r;
    assert m[|x|] == ' ';
    assert forall k | 0 <= k < |x| :: m[k] == x[k];
  }

  /** The first element of `s.split(" ")`, for an `s` that does not start with a space: the
      text before the first space. */
  lemma SplitFirstPiece(s: string)
    requires |s| > 0 && s[0] != ' '
    ensures |Split(s)| > 0 && Split(s)[0] == s[..IndexOfSpace(s)]
  {
    var i := IndexOfSpace(s);
    if ' ' in s {
      assert i < |s| by {
        var k :| 0 <= k < |s| && s[k] == ' ';
      }
      assert Pieces(s)[0] == s[..i];
      assert i > 0;
      assert Pieces(s)[0] != "";
      DropTrailingEmptyKeepsFirst(Pieces(s));
    }
  }

  /** Dropping trailing empty strings keeps a non-empty first element. */
  lemma {:induction false} DropTrailingEmptyKeepsFirst(ps: seq<string>)
    requires |ps| > 0 && ps[0] != ""
    ensures |DropTrailingEmpty(ps)| > 0 && DropTrailingEmpty(ps)[0] == ps[0]
    decreases |ps|
  {
    if ps[|ps| - 1] == "" {
      DropTrailingEmptyKeepsFirst(ps[..|ps| - 1]);
    }
  }

  /** A piece without spaces followed by a space is the first piece. */
  lemma {:induction false} PiecesCons(x: string, rest: string)
    requires ' ' !in x
    ensures Pieces(x + " " + rest) == [x] + Pieces(rest)
  {
    var s := x + " " + rest;
    FirstSpace(x, rest);
    assert s[..|x|] == x && s[|x| + 1..] == rest;
  }

  /** A string without spaces is its only piece. */
  lemma PiecesOfWord(x: string)
    requires ' ' !in x
    ensures Pieces(x) == [x]
  {
  }

  /** `split(" ")` keeps the empty piece between two consecutive spaces. */
  lemma SplitKeepsInnerEmptyPiece(x: string, y: string)
    requires ' ' !in x && ' ' !in y && y != ""
    ensures Split(x + "  " + y) == [x, "", y]
  {
    var s := x + "  " + y;
    assert s == x + " " + ("" + " " + y);
    PiecesCons(x, "" + " " + y);
    PiecesCons("", y);
    PiecesOfWord(y);
    assert s[|x|] == ' ';
  }

  /** `split(" ")` drops the empty pieces that trailing spaces produce. */
  lemma SplitDropsTrailingEmptyPieces(x: string)
    requires ' ' !in x && x != ""
    ensures Split(x + " ") == [x]
    ensures Split(x + "  ") == [x]
  {
    PiecesOfWord("");
    assert x + " " == x + " " + "";
    PiecesCons(x, "");
    assert (x + " ")[|x|] == ' ';
    assert x + "  " == x + " " + ("" + " " + "");
    PiecesCons(x, "" + " " + "");
    PiecesCons("", "");
    assert (x + "  ")[|x|] == ' ';
    assert [x, "", ""][..2] == [x, ""] && [x, ""][..1] == [x];
    assert DropTrailingEmpty([x]) == [x];
    assert DropTrailingEmpty([x, ""]) == [x];
    assert DropTrailingEmpty([x, "", ""]) == [x];
    assert Pieces(x + " ") == [x, ""];
    assert Pieces(x + "  ") == [x, "", ""];
    assert ' ' in x + " " && ' ' in x + "  ";
  }

  /** The two corner cases: `"".split(" ")` is `{""}` and `" ".split(" ")` is empty. */
  lemma SplitCornerCases()
    ensures Split("") == [""]
    ensures Split(" ") == []
  {
    PiecesOfWord("");
    assert " " == "" + " " + "";
    PiecesCons("", "");
    assert " "[0] == ' ';
  }
}
