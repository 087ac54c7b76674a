/**
 * The season decoder: a free-text opening season such as "mid may-late sep"
 * becomes an optional opening month and an optional closing month (1..12).
 *
 * The text is cut into tokens (every `-` becomes a space, then the text is
 * split on single spaces). The opening month is the first token that is
 * exactly a month abbreviation. The closing scan then walks the tokens after
 * it and stops at the first exact abbreviation or at the last token; that one
 * stopping token is searched for every abbreviation as a substring, and the
 * latest month in calendar order that occurs in it wins.
 */
module Season {
  import opened Wrappers
  import opened Text

  /** The month abbreviations, in calendar (and dictionary) order: `Months[k]` is month `k + 1`. */
  const Months: seq<string> :=
    ["jan", "feb", "mar", "apr", "may", "jun", "jul", "aug", "sep", "oct", "nov", "dec"]

  /** The decoded season; both months are absent when nothing could be read. */
  datatype SeasonRange = SeasonRange(monthOpen: Option<int>, monthClose: Option<int>)

  const Unknown: SeasonRange := SeasonRange(None, None)

  /** Python's `t in dates_map.keys()`: `t` is exactly one of the abbreviations. */
  predicate IsMonth(t: string) {
    t in Months
  }

  // ---------------------------------------------------------------------
  // Month lookups

  /** The number of the month among the first `n` whose abbreviation is exactly `t`. */
  function ExactMonthBelow(t: string, n: nat): Option<int>
    requires n <= |Months|
    decreases n
  {
    if n == 0 then None
    else if Months[n - 1] == t then Some(n)
    else ExactMonthBelow(t, n - 1)
  }

  /** The month number of an exact abbreviation, `None` for any other token. */
  function MonthNumber(t: string): Option<int> {
    ExactMonthBelow(t, |Months|)
  }

  /** Among the first `n` months, `ExactMonthBelow` finds the one whose abbreviation is `t`, if any. */
  lemma {:induction false} ExactMonthBelowSpec(t: string, n: nat)
    requires n <= |Months|
    ensures match ExactMonthBelow(t, n)
      case Some(m) => 1 <= m <= n && Months[m - 1] == t
      case None => forall k :: 0 <= k < n ==> Months[k] != t
    decreases n
  {
    if n > 0 && Months[n - 1] != t {
      ExactMonthBelowSpec(t, n - 1);
    }
  }

  /** `MonthNumber` maps each abbreviation to its month and nothing else to a month. */
  lemma MonthNumberExact(t: string)
    ensures MonthNumber(t).Some? <==> IsMonth(t)
    ensures forall k :: 0 <= k < |Months| && Months[k] == t ==> MonthNumber(t) == Some(k + 1)
  {
    ExactMonthBelowSpec(t, |Months|);
    MonthsDistinct();
  }

  /**
   * The latest month among the first `n` whose abbreviation occurs in `t` as
   * a substring; the loop over the dictionary keeps overwriting, so the last
   * match in calendar order is the one that stays.
   */
  function ContainedMonthBelow(t: string, n: nat): Option<int>
    requires n <= |Months|
    decreases n
  {
    if n == 0 then None
    else if Contains(t, Months[n - 1]) then Some(n)
    else ContainedMonthBelow(t, n - 1)
  }

  /**
   * The month the closing loop settles on for token `t`: the latest month
   * whose abbreviation occurs in `t`, or none if no abbreviation occurs.
   */
  function ContainedMonth(t: string): Option<int> {
    ContainedMonthBelow(t, |Months|)
  }

  /**
   * Among the first `n` months, `ContainedMonthBelow` finds the latest whose
   * abbreviation occurs in `t`, and finds nothing only when none occurs.
   */
  lemma {:induction false} ContainedMonthBelowSpec(t: string, n: nat)
    requires n <= |Months|
    ensures match ContainedMonthBelow(t, n)
      case Some(m) =>
        1 <= m <= n && Contains(t, Months[m - 1]) &&
        forall k :: m <= k < n ==> !Contains(t, Months[k])
      case None => forall k :: 0 <= k < n ==> !Contains(t, Months[k])
    decreases n
  {
    if n > 0 && !Contains(t, Months[n - 1]) {
      ContainedMonthBelowSpec(t, n - 1);
      var m := ContainedMonthBelow(t, n - 1);
      assert ContainedMonthBelow(t, n) == m;
      var from := if m.Some? then m.value else 0;
      forall k | from <= k < n
        ensures !Contains(t, Months[k])
      {
      }
    }
  }

  /** The closing month of a token is the latest month whose abbreviation occurs in it, if any. */
  lemma ContainedMonthSpec(t: string)
    ensures match ContainedMonth(t)
      case Some(m) =>
        1 <= m <= 12 && Contains(t, Months[m - 1]) &&
        forall k :: m <= k < 12 ==> !Contains(t, Months[k])
      case None => forall k :: 0 <= k < 12 ==> !Contains(t, Months[k])
  {
    ContainedMonthBelowSpec(t, |Months|);
  }

  // ---------------------------------------------------------------------
  // The specification

  /** The index of the first token that is exactly a month abbreviation. */
  function FirstMonthAt(tokens: seq<string>): (j: Option<nat>)
    ensures j.Some? ==> j.value < |tokens|
    decreases |tokens|
  {
    if tokens == [] then None
    else if IsMonth(tokens[0]) then Some(0)
    else
      match FirstMonthAt(tokens[1..])
      case None => None
      case Some(i) => Some(i + 1)
  }

  /**
   * `FirstMonthAt` finds an abbreviation with none before it, and finds
   * nothing only when no token is an abbreviation.
   */
  lemma {:induction false} FirstMonthAtSpec(tokens: seq<string>)
    ensures match FirstMonthAt(tokens)
      case Some(j) => IsMonth(tokens[j]) && forall i :: 0 <= i < j ==> !IsMonth(tokens[i])
      case None => forall i :: 0 <= i < |tokens| ==> !IsMonth(tokens[i])
    decreases |tokens|
  {
    if tokens != [] && !IsMonth(tokens[0]) {
      FirstMonthAtSpec(tokens[1..]);
    }
  }

  /**
   * Where a `pop(0)` scan stops: at the first token that is exactly a month
   * abbreviation or, when there is none, at the last token.
   */
  function StopIndex(tokens: seq<string>): (k: nat)
    requires tokens != []
    ensures k < |tokens|
  {
    match FirstMonthAt(tokens)
    case Some(k) => k
    case None => |tokens| - 1
  }

  /** The tokens of a season text: `-` replaced by a space, then split on single spaces. */
  function Tokens(text: string): (tokens: seq<string>)
    ensures tokens != []
  {
    Split(ReplaceChar(text, '-', ' '), ' ')
  }

  /**
   * The season read from a non-empty token sequence: the opening scan stops
   * at `StopIndex`; if a token follows, the closing scan stops at `StopIndex`
   * of what follows, and that token is searched for month abbreviations.
   */
  function SeasonOfTokens(tokens: seq<string>): SeasonRange
    requires tokens != []
  {
    SeasonRange(OpenMonth(tokens), CloseMonth(tokens[StopIndex(tokens) + 1..]))
  }

  /** The opening month: the month whose abbreviation is exactly the token where the first scan stops. */
  function OpenMonth(tokens: seq<string>): Option<int>
    requires tokens != []
  {
    MonthNumber(tokens[StopIndex(tokens)])
  }

  /**
   * The closing month read from the tokens left after the opening scan:
   * none when no token is left, otherwise the month the containment loop
   * settles on for the token where the second scan stops.
   */
  function CloseMonth(rest: seq<string>): Option<int> {
    if rest == [] then None else ContainedMonth(rest[StopIndex(rest)])
  }

  /** The decoder's result for an optional season text. */
  function SeasonOf(dateOpen: Option<string>): SeasonRange {
    match dateOpen
    case None => Unknown
    case Some(text) =>
      if text == "all year" then SeasonRange(Some(1), Some(12))
      else SeasonOfTokens(Tokens(text))
  }

  // ---------------------------------------------------------------------
  // The decoder, with the two `pop(0)` scans and the two dictionary loops

  /**
   * `token = arr.pop(0)`, repeated while the token is not a month and tokens
   * remain: returns the token the scan stopped at and what is left after it.
   */
  method PopUntilMonth(tokens: seq<string>) returns (token: string, remaining: seq<string>)
    requires tokens != []
    ensures token == tokens[StopIndex(tokens)]
    ensures remaining == tokens[StopIndex(tokens) + 1..]
  {
    token := tokens[0];
    remaining := tokens[1..];
    ghost var k := 0;
    while !IsMonth(token) && |remaining| > 0
      invariant 0 <= k < |tokens| && token == tokens[k] && remaining == tokens[k + 1..]
      invariant forall i :: 0 <= i < k ==> !IsMonth(tokens[i])
      decreases |remaining|
    {
      token := remaining[0];
      remaining := remaining[1..];
      k := k + 1;
    }
    FirstMonthAtSpec(tokens);
    assert k == StopIndex(tokens);
  }

  /** The loop that sets the month whose key equals `token`. */
  method ExactMonth(token: string) returns (month: Option<int>)
    ensures month == MonthNumber(token)
  {
    month := None;
    for m := 0 to |Months|
      invariant month == ExactMonthBelow(token, m)
    {
      if Months[m] == token {
        month := Some(m + 1);
      }
    }
  }

  /** The loop that sets the month for every key contained in `token`, the last one staying. */
  method LastContainedMonth(token: string) returns (month: Option<int>)
    ensures month == ContainedMonth(token)
  {
    month := None;
    for m := 0 to |Months|
      invariant month == ContainedMonthBelow(token, m)
    {
      if Contains(token, Months[m]) {
        month := Some(m + 1);
      }
    }
  }

  method DecodeSeason(dateOpen: Option<string>) returns (dates: SeasonRange)
    ensures dates == SeasonOf(dateOpen)
  {
    dates := Unknown;
    if dateOpen.None? {
      return;
    }
    if dateOpen.value == "all year" {
      dates := dates.(monthOpen := Some(1), monthClose := Some(12));
      return;
    }
    var tokens := Tokens(dateOpen.value);
    var openStr, remaining := PopUntilMonth(tokens);
    var monthOpen := ExactMonth(openStr);
    dates := dates.(monthOpen := monthOpen);
    if |remaining| == 0 {
      return;
    }
    var closeStr, _ := PopUntilMonth(remaining);
    var monthClose := LastContainedMonth(closeStr);
    dates := dates.(monthClose := monthClose);
  }

  // ---------------------------------------------------------------------
  // Properties of the decoder

  /** No text gives nothing; exactly "all year" (case-sensitive) gives January to December. */
  lemma SeasonEdges()
    ensures SeasonOf(None) == Unknown
    ensures SeasonOf(Some("all year")) == SeasonRange(Some(1), Some(12))
  {
  }

  /** The month abbreviations are pairwise distinct three-letter strings. */
  lemma MonthsDistinct()
    ensures |Months| == 12
    ensures forall k :: 0 <= k < |Months| ==> |Months[k]| == 3
    ensures forall i, k :: 0 <= i < k < |Months| ==> Months[i] != Months[k]
  {
  }

  /** A month abbreviation contains its own month and no other. */
  lemma ContainedMonthOfMonth(k: nat)
    requires k < |Months|
    ensures ContainedMonth(Months[k]) == Some(k + 1)
  {
    MonthsDistinct();
    forall i | 0 <= i < |Months|
      ensures Contains(Months[k], Months[i]) <==> i == k
    {
      ContainsSameLength(Months[k], Months[i]);
    }
  }

  /** Every month the decoder returns is a calendar month, 1..12. */
  lemma SeasonBounds(dateOpen: Option<string>)
    ensures SeasonOf(dateOpen).monthOpen.Some? ==> 1 <= SeasonOf(dateOpen).monthOpen.value <= 12
    ensures SeasonOf(dateOpen).monthClose.Some? ==> 1 <= SeasonOf(dateOpen).monthClose.value <= 12
  {
    if dateOpen.Some? && dateOpen.value != "all year" {
      var tokens := Tokens(dateOpen.value);
      ExactMonthBelowSpec(tokens[StopIndex(tokens)], |Months|);
      var rest := tokens[StopIndex(tokens) + 1..];
      if rest != [] {
        ContainedMonthSpec(rest[StopIndex(rest)]);
      }
    }
  }

  /** Each abbreviation maps to its own month number. */
  lemma MonthNumberOf(k: nat)
    requires k < |Months|
    ensures MonthNumber(Months[k]) == Some(k + 1)
  {
    MonthNumberExact(Months[k]);
  }

  /**
   * A closing month is only ever found after an opening month: a failed
   * opening scan consumes every token, so there is nothing left to scan.
   */
  lemma CloseNeedsOpen(dateOpen: Option<string>)
    ensures SeasonOf(dateOpen).monthClose.Some? ==> SeasonOf(dateOpen).monthOpen.Some?
  {
    if dateOpen.Some? && dateOpen.value != "all year" {
      var tokens := Tokens(dateOpen.value);
      assert SeasonOf(dateOpen) == SeasonOfTokens(tokens);
      var i := StopIndex(tokens);
      if tokens[i + 1..] != [] {
        assert FirstMonthAt(tokens).Some?;
        FirstMonthAtSpec(tokens);
        MonthNumberExact(tokens[i]);
      }
    }
  }

  /** Token `j` is the abbreviation of month `m`, and no token before it is an abbreviation. */
  predicate FirstExactMonthToken(tokens: seq<string>, j: int, m: int)
    requires 1 <= m <= 12
  {
    0 <= j < |tokens| && tokens[j] == Months[m - 1] && forall i :: 0 <= i < j ==> !IsMonth(tokens[i])
  }

  /**
   * The opening month is `m` exactly when some token equals the abbreviation
   * of `m` and no earlier token is an abbreviation at all; it is absent
   * exactly when no token is an abbreviation.
   */
  lemma OpenIsFirstExactMonth(tokens: seq<string>, m: int)
    requires tokens != []
    ensures OpenMonth(tokens) == Some(m) <==>
      1 <= m <= 12 && exists j :: FirstExactMonthToken(tokens, j, m)
    ensures OpenMonth(tokens) == None <==> forall j :: 0 <= j < |tokens| ==> !IsMonth(tokens[j])
  {
    var i := StopIndex(tokens);
    MonthNumberExact(tokens[i]);
    FirstMonthAtSpec(tokens);
    if FirstMonthAt(tokens).Some? {
      assert IsMonth(tokens[i]);
    }
    if OpenMonth(tokens) == Some(m) {
      assert FirstExactMonthToken(tokens, i, m);
    }
    if 1 <= m <= 12 && exists j :: FirstExactMonthToken(tokens, j, m) {
      var j :| FirstExactMonthToken(tokens, j, m);
      assert IsMonth(tokens[j]);
      assert FirstMonthAt(tokens) == Some(j);
      MonthNumberExact(tokens[j]);
    }
  }

  /** When the opening month is the last token, there is no closing month. */
  lemma OpenAtEndHasNoClose(tokens: seq<string>)
    requires tokens != [] && FirstMonthAt(tokens) == Some(|tokens| - 1)
    ensures SeasonOfTokens(tokens).monthOpen.Some?
    ensures SeasonOfTokens(tokens).monthClose == None
  {
    FirstMonthAtSpec(tokens);
    MonthNumberExact(tokens[|tokens| - 1]);
  }

  /** A season whose first token is an abbreviation opens in that month and closes from the tokens after it. */
  lemma OpenAtFirstToken(tokens: seq<string>)
    requires tokens != [] && IsMonth(tokens[0])
    ensures SeasonOfTokens(tokens) == SeasonRange(MonthNumber(tokens[0]), CloseMonth(tokens[1..]))
  {
    assert StopIndex(tokens) == 0;
  }

  /**
   * After an opening month at token `j`, the closing month is read from the
   * tokens that follow it alone.
   */
  lemma CloseIsStop(tokens: seq<string>, j: nat)
    requires FirstMonthAt(tokens) == Some(j)
    ensures SeasonOfTokens(tokens).monthClose == CloseMonth(tokens[j + 1..])
  {
    assert StopIndex(tokens) == j;
  }

  /**
   * When a token after the opening month is exactly an abbreviation, the
   * first such token gives the closing month, whatever the tokens before it
   * contain.
   */
  lemma CloseAtExactMonth(rest: seq<string>, k: nat)
    requires FirstMonthAt(rest) == Some(k)
    ensures CloseMonth(rest) == MonthNumber(rest[k])
    ensures CloseMonth(rest).Some?
  {
    FirstMonthAtSpec(rest);
    var i :| 0 <= i < |Months| && Months[i] == rest[k];
    ContainedMonthOfMonth(i);
    MonthNumberExact(rest[k]);
  }

  /**
   * The whole season when both scans stop at an exact abbreviation: the
   * opening one at token `j`, the closing one `k` tokens further on.
   */
  lemma SeasonOfTwoMonths(tokens: seq<string>, j: nat, k: nat)
    requires FirstMonthAt(tokens) == Some(j)
    requires FirstMonthAt(tokens[j + 1..]) == Some(k)
    ensures SeasonOfTokens(tokens) == SeasonRange(MonthNumber(tokens[j]), MonthNumber(tokens[j + 1..][k]))
  {
    assert StopIndex(tokens) == j;
    CloseIsStop(tokens, j);
    CloseAtExactMonth(tokens[j + 1..], k);
  }

  /** With no exact abbreviation left, the second scan stops at the last token. */
  lemma CloseOfLastToken(rest: seq<string>)
    requires rest != [] && FirstMonthAt(rest) == None
    ensures CloseMonth(rest) == ContainedMonth(rest[|rest| - 1])
  {
  }

  // ---------------------------------------------------------------------
  // Worked examples

  /** Words without spaces or dashes, joined by single spaces, are exactly the tokens. */
  lemma TokensOfWords(words: seq<string>)
    requires |words| >= 1
    requires forall i :: 0 <= i < |words| ==> ' ' !in words[i] && '-' !in words[i]
    ensures Tokens(Join(words, ' ')) == words
  {
    NotInJoin(words, ' ', '-');
    ReplaceAbsent(Join(words, ' '), '-', ' ');
    SplitJoin(words, ' ');
  }

  /** A dash between two dash-free parts is read as a space. */
  lemma DashedTokens(a: string, b: string)
    requires '-' !in a && '-' !in b
    ensures Tokens(a + ['-'] + b) == Split(a + [' '] + b, ' ')
  {
    ReplaceBetween(a, b, '-', ' ');
    ReplaceAbsent(a + [' '] + b, '-', ' ');
  }

  /** Three words without spaces, separated by single spaces, split into those words. */
  lemma SplitThree(a: string, b: string, c: string)
    requires ' ' !in a && ' ' !in b && ' ' !in c
    ensures Split(a + [' '] + b + [' '] + c, ' ') == [a, b, c]
  {
    assert a + [' '] + b + [' '] + c == a + [' '] + (b + [' '] + c);
    SplitAfterPiece(a, b + [' '] + c, ' ');
    SplitAfterPiece(b, c, ' ');
    SplitWithoutSep(c, ' ');
  }

  /** Words joined by single spaces are cut into those words. */
  lemma TokensSpaceSpace(a: string, b: string, c: string)
    requires ' ' !in a && ' ' !in b && ' ' !in c
    requires '-' !in a && '-' !in b && '-' !in c
    ensures Tokens(a + [' '] + b + [' '] + c) == [a, b, c]
  {
    ReplaceAbsent(a + [' '] + b + [' '] + c, '-', ' ');
    SplitThree(a, b, c);
  }

  /** Words joined by a space and then a dash are cut into those words. */
  lemma TokensSpaceDash(a: string, b: string, c: string)
    requires ' ' !in a && ' ' !in b && ' ' !in c
    requires '-' !in a && '-' !in b && '-' !in c
    ensures Tokens(a + [' '] + b + ['-'] + c) == [a, b, c]
  {
    DashedTokens(a + [' '] + b, c);
    SplitThree(a, b, c);
  }

  /** Words joined by a space, a dash and a space are cut into those words. */
  lemma TokensSpaceDashSpace(a: string, b: string, c: string, d: string)
    requires ' ' !in a && ' ' !in b && ' ' !in c && ' ' !in d
    requires '-' !in a && '-' !in b && '-' !in c && '-' !in d
    ensures Tokens(a + [' '] + b + ['-'] + c + [' '] + d) == [a, b, c, d]
  {
    assert a + [' '] + b + ['-'] + c + [' '] + d == (a + [' '] + b) + ['-'] + (c + [' '] + d);
    DashedTokens(a + [' '] + b, c + [' '] + d);
    assert (a + [' '] + b) + [' '] + (c + [' '] + d) == a + [' '] + b + [' '] + c + [' '] + d;
    SplitFour(a, b, c, d);
  }

  /** Four words without spaces, separated by single spaces, split into those words. */
  lemma SplitFour(a: string, b: string, c: string, d: string)
    requires ' ' !in a && ' ' !in b && ' ' !in c && ' ' !in d
    ensures Split(a + [' '] + b + [' '] + c + [' '] + d, ' ') == [a, b, c, d]
  {
    assert a + [' '] + b + [' '] + c + [' '] + d == a + [' '] + (b + [' '] + c + [' '] + d);
    SplitAfterPiece(a, b + [' '] + c + [' '] + d, ' ');
    SplitThree(b, c, d);
  }

  /** The words of the examples below that are not month abbreviations. */
  lemma NonMonthWords()
    ensures !IsMonth("mid") && !IsMonth("late") && !IsMonth("september") && !IsMonth("xyz")
    ensures !IsMonth("All") && !IsMonth("Year")
  {
    NotMonthByLength("late");
    NotMonthByLength("september");
    NotMonthByLength("Year");
    NotMonthByInitial("All");
    NotMonthByInitial("xyz");
  }

  /** No abbreviation starts with a letter outside "jfmasond". */
  lemma NotMonthByInitial(t: string)
    requires t != [] && t[0] !in "jfmasond"
    ensures !IsMonth(t)
  {
  }

  /** Every abbreviation has three letters, so no longer or shorter token is one. */
  lemma NotMonthByLength(t: string)
    requires |t| != 3
    ensures !IsMonth(t)
  {
    MonthsDistinct();
  }

  /** "mid may-late sep" is cut into the tokens "mid", "may", "late", "sep". */
  lemma TokensMidMayLateSep(text: string)
    requires text == "mid may-late sep"
    ensures Tokens(text) == ["mid", "may", "late", "sep"]
  {
    assert text == "mid" + [' '] + "may" + ['-'] + "late" + [' '] + "sep";
    TokensSpaceDashSpace("mid", "may", "late", "sep");
  }

  /** "mid may-late sep" opens in May and closes in September. */
  lemma SeasonMidMayLateSep(text: string)
    requires text == "mid may-late sep"
    ensures SeasonOf(Some(text)) == SeasonRange(Some(5), Some(9))
  {
    TokensMidMayLateSep(text);
    var words := Tokens(text);
    NonMonthWords();
    MonthNumberOf(4);
    MonthNumberOf(8);
    assert FirstMonthAt(words) == Some(1);
    assert FirstMonthAt(words[2..]) == Some(1);
    SeasonOfTwoMonths(words, 1, 1);
  }

  /** "september" contains "sep" and no abbreviation of a later month. */
  lemma ContainedSeptember(t: string)
    requires t == "september"
    ensures ContainedMonth(t) == Some(9)
  {
    assert Contains(t, Months[8]);
    ContainsFirstChar(t, Months[9]);
    ContainsFirstChar(t, Months[10]);
    ContainsFirstChar(t, Months[11]);
    ContainedMonthSpec(t);
  }

  /** "jan late-september" is cut into the tokens "jan", "late", "september". */
  lemma TokensJanLateSeptember(text: string)
    requires text == "jan late-september"
    ensures Tokens(text) == ["jan", "late", "september"]
  {
    assert text == "jan" + [' '] + "late" + ['-'] + "september";
    TokensSpaceDash("jan", "late", "september");
  }

  /**
   * "jan late-september" opens in January; no later token is exactly an
   * abbreviation, so the last token "september" is searched and gives
   * September.
   */
  lemma SeasonJanLateSeptember(text: string)
    requires text == "jan late-september"
    ensures SeasonOf(Some(text)) == SeasonRange(Some(1), Some(9))
  {
    TokensJanLateSeptember(text);
    SeasonOfJanLateSeptember(Tokens(text));
  }

  lemma SeasonOfJanLateSeptember(words: seq<string>)
    requires words == ["jan", "late", "september"]
    ensures SeasonOfTokens(words) == SeasonRange(Some(1), Some(9))
  {
    January(words[0]);
    OpenAtFirstToken(words);
    CloseLateSeptember(words[1..]);
  }

  /** "jan" is the abbreviation of January. */
  lemma January(t: string)
    requires t == "jan"
    ensures IsMonth(t) && MonthNumber(t) == Some(1)
  {
    MonthNumberOf(0);
  }

  /** After "jan", the tokens "late", "september" close in September. */
  lemma CloseLateSeptember(rest: seq<string>)
    requires rest == ["late", "september"]
    ensures CloseMonth(rest) == Some(9)
  {
    NonMonthWords();
    assert FirstMonthAt(rest) == None;
    CloseOfLastToken(rest);
    ContainedSeptember(rest[1]);
  }

  /** "xyz" contains no month abbreviation. */
  lemma ContainedNothing(t: string)
    requires t == "xyz"
    ensures ContainedMonth(t) == None
  {
    forall n | 0 <= n < 12
      ensures !Contains(t, Months[n])
    {
      ContainsSameLength(t, Months[n]);
    }
    ContainedMonthSpec(t);
  }

  /**
   * "jan september xyz" opens in January; "september" is not exactly an
   * abbreviation, so the closing scan runs on to the last token "xyz", which
   * contains none: there is no closing month.
   */
  lemma SeasonJanSeptemberXyz(text: string)
    requires text == "jan september xyz"
    ensures SeasonOf(Some(text)) == SeasonRange(Some(1), None)
  {
    TokensJanSeptemberXyz(text);
    SeasonOfJanSeptemberXyz(Tokens(text));
  }

  /** "jan september xyz" is cut into its three words. */
  lemma TokensJanSeptemberXyz(text: string)
    requires text == "jan september xyz"
    ensures Tokens(text) == ["jan", "september", "xyz"]
  {
    assert text == "jan" + [' '] + "september" + [' '] + "xyz";
    TokensSpaceSpace("jan", "september", "xyz");
  }

  lemma SeasonOfJanSeptemberXyz(words: seq<string>)
    requires words == ["jan", "september", "xyz"]
    ensures SeasonOfTokens(words) == SeasonRange(Some(1), None)
  {
    January(words[0]);
    OpenAtFirstToken(words);
    CloseSeptemberXyz(words[1..]);
  }

  /** After "jan", the tokens "september", "xyz" give no closing month. */
  lemma CloseSeptemberXyz(rest: seq<string>)
    requires rest == ["september", "xyz"]
    ensures CloseMonth(rest) == None
  {
    NonMonthWords();
    assert FirstMonthAt(rest) == None;
    CloseOfLastToken(rest);
    ContainedNothing(rest[1]);
  }

  /** A lone month opens the season and leaves it without a closing month: "jun" is June to nothing. */
  lemma SeasonJun(text: string)
    requires text == "jun"
    ensures SeasonOf(Some(text)) == SeasonRange(Some(6), None)
  {
    var words := ["jun"];
    assert Join(words, ' ') == text;
    TokensOfWords(words);
    MonthNumberOf(5);
    assert FirstMonthAt(words) == Some(0);
    OpenAtEndHasNoClose(words);
  }

  /**
   * Text without an exact abbreviation gives nothing; "All Year" is not the
   * exact string "all year", so it is decoded token by token and gives
   * nothing either.
   */
  lemma SeasonWithoutMonth(text: string)
    requires text == "All Year" || text == "xyz"
    ensures SeasonOf(Some(text)) == Unknown
  {
    var words := if text == "xyz" then ["xyz"] else ["All", "Year"];
    assert Join(words, ' ') == text;
    TokensOfWords(words);
    NonMonthWords();
    assert FirstMonthAt(words) == None;
    MonthNumberExact(words[|words| - 1]);
  }
}
