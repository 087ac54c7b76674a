/**
 * The Python string built-ins the decoders rely on, written out on `seq<char>`:
 * `replace` of one character, `split` on a single-character separator,
 * substring containment (`p in s`), `split(p)[0]`, `strip()` and `int()`.
 */
module Text {
  import opened Wrappers

  // ---------------------------------------------------------------------
  // Substrings

  /** Python's `p in s` for strings: `p` occurs in `s` at some index. */
  predicate Contains(s: string, p: string)
    decreases |s|
  {
    p <= s || (s != [] && Contains(s[1..], p))
  }

  /** A pattern found at index `k` of `s` occurs in `s`. */
  lemma {:induction false} ContainsAt(s: string, p: string, k: int)
    requires 0 <= k <= |s| && p <= s[k..]
    ensures Contains(s, p)
    decreases k
  {
    if k > 0 {
      ContainsAt(s[1..], p, k - 1);
      assert s[1..][k - 1..] == s[k..];
    }
  }

  /** A string longer than `s` does not occur in it. */
  lemma {:induction false} ContainsLonger(s: string, p: string)
    requires |p| > |s|
    ensures !Contains(s, p)
    decreases |s|
  {
    if s != [] {
      ContainsLonger(s[1..], p);
    }
  }

  /** A pattern whose first character does not occur in `s` does not occur in `s`. */
  lemma {:induction false} ContainsFirstChar(s: string, p: string)
    requires p != [] && p[0] !in s
    ensures !Contains(s, p)
    decreases |s|
  {
    if s != [] {
      ContainsFirstChar(s[1..], p);
    }
  }

  /** Between strings of equal length, containment is equality. */
  lemma ContainsSameLength(s: string, p: string)
    requires |p| == |s|
    ensures Contains(s, p) <==> p == s
  {
    if s != [] {
      ContainsLonger(s[1..], p);
    }
  }

  /**
   * Python's `s.split(p)[0]`: the part of `s` before the first occurrence of
   * `p`, or all of `s` when `p` does not occur.
   */
  function BeforeFirst(s: string, p: string): string
    requires p != []
    decreases |s|
  {
    if p <= s then []
    else if s == [] then []
    else [s[0]] + BeforeFirst(s[1..], p)
  }

  /**
   * `BeforeFirst` is a prefix of `s` at none of whose positions `p` starts;
   * right after it `p` starts when `p` occurs in `s`, and it is all of `s`
   * when `p` does not occur.
   */
  lemma {:induction false} BeforeFirstSpec(s: string, p: string)
    requires p != []
    ensures BeforeFirst(s, p) <= s
    ensures forall i :: 0 <= i < |BeforeFirst(s, p)| ==> !(p <= s[i..])
    ensures Contains(s, p) ==> p <= s[|BeforeFirst(s, p)|..]
    ensures !Contains(s, p) ==> BeforeFirst(s, p) == s
    decreases |s|
  {
    if !(p <= s) && s != [] {
      BeforeFirstSpec(s[1..], p);
      assert forall i :: 1 <= i <= |s| ==> s[1..][i - 1..] == s[i..];
    }
  }

  // ---------------------------------------------------------------------
  // replace and split

  /** Python's `s.replace(x, y)` for single characters `x` and `y`. */
  function ReplaceChar(s: string, x: char, y: char): (r: string)
    ensures |r| == |s|
    ensures forall i :: 0 <= i < |s| ==> r[i] == (if s[i] == x then y else s[i])
    ensures x != y ==> x !in r
  {
    if s == [] then [] else [if s[0] == x then y else s[0]] + ReplaceChar(s[1..], x, y)
  }

  /**
   * Python's `s.split(sep)` for a one-character separator: empty pieces are
   * kept (two separators in a row give an empty piece), and the result is
   * never empty (`"".split(" ") == [""]`).
   */
  function Split(s: string, sep: char): (parts: seq<string>)
    ensures |parts| >= 1
    ensures forall i :: 0 <= i < |parts| ==> sep !in parts[i]
    decreases |s|
  {
    if s == [] then [""]
    else
      var rest := Split(s[1..], sep);
      if s[0] == sep then [""] + rest
      else [[s[0]] + rest[0]] + rest[1..]
  }

  /** Python's `sep.join(parts)`; the inverse of `Split`. */
  function Join(parts: seq<string>, sep: char): string
    requires |parts| >= 1
    decreases |parts|
  {
    if |parts| == 1 then parts[0] else parts[0] + [sep] + Join(parts[1..], sep)
  }

  /** Replacing a character that does not occur changes nothing. */
  lemma ReplaceAbsent(s: string, x: char, y: char)
    requires x !in s
    ensures ReplaceChar(s, x, y) == s
  {
  }

  /** Replacing the one occurrence of `x`, between two pieces without it, changes that character alone. */
  lemma ReplaceBetween(a: string, b: string, x: char, y: char)
    requires x !in a && x !in b
    ensures ReplaceChar(a + [x] + b, x, y) == a + [y] + b
  {
    var s := a + [x] + b;
    assert forall i :: 0 <= i < |s| ==> ReplaceChar(s, x, y)[i] == (a + [y] + b)[i];
  }

  /** A character that is neither the separator nor in any piece is not in the join. */
  lemma {:induction false} NotInJoin(parts: seq<string>, sep: char, c: char)
    requires |parts| >= 1 && c != sep
    requires forall i :: 0 <= i < |parts| ==> c !in parts[i]
    ensures c !in Join(parts, sep)
    decreases |parts|
  {
    if |parts| > 1 {
      NotInJoin(parts[1..], sep, c);
    }
  }

  /** Joining the pieces of a split gives back the original string. */
  lemma {:induction false} JoinSplit(s: string, sep: char)
    ensures Join(Split(s, sep), sep) == s
    decreases |s|
  {
    if s != [] {
      JoinSplit(s[1..], sep);
      JoinSplitStep(s, sep);
      assert s == [s[0]] + s[1..];
    }
  }

  /** One step of `JoinSplit`: the first character comes back in front of the join of the rest. */
  lemma JoinSplitStep(s: string, sep: char)
    requires s != []
    ensures Join(Split(s, sep), sep) == [s[0]] + Join(Split(s[1..], sep), sep)
  {
    var rest := Split(s[1..], sep);
    if s[0] == sep {
      assert Split(s, sep) == [""] + rest;
      assert ([""] + rest)[1..] == rest;
    } else {
      var parts := [[s[0]] + rest[0]] + rest[1..];
      assert Split(s, sep) == parts;
      if |rest| > 1 {
        assert parts[1..] == rest[1..];
      }
    }
  }

  /** A piece without the separator, followed by the separator, splits off as one piece. */
  lemma {:induction false} SplitAfterPiece(p: string, t: string, sep: char)
    requires sep !in p
    ensures Split(p + [sep] + t, sep) == [p] + Split(t, sep)
    decreases |p|
  {
    var s := p + [sep] + t;
    if p == [] {
      assert s[0] == sep && s[1..] == t;
    } else {
      SplitAfterPiece(p[1..], t, sep);
      assert s[1..] == p[1..] + [sep] + t;
      assert s[0] == p[0];
      assert [p[0]] + p[1..] == p;
    }
  }

  /** A string without the separator splits into itself alone. */
  lemma {:induction false} SplitWithoutSep(p: string, sep: char)
    requires sep !in p
    ensures Split(p, sep) == [p]
    decreases |p|
  {
    if p != [] {
      SplitWithoutSep(p[1..], sep);
      assert [p[0]] + p[1..] == p;
    }
  }

  /** Splitting a join of separator-free pieces gives back the pieces. */
  lemma {:induction false} SplitJoin(parts: seq<string>, sep: char)
    requires |parts| >= 1
    requires forall i :: 0 <= i < |parts| ==> sep !in parts[i]
    ensures Split(Join(parts, sep), sep) == parts
    decreases |parts|
  {
    if |parts| == 1 {
      SplitWithoutSep(parts[0], sep);
    } else {
      SplitJoin(parts[1..], sep);
      SplitAfterPiece(parts[0], Join(parts[1..], sep), sep);
      assert [parts[0]] + parts[1..] == parts;
    }
  }

  // ---------------------------------------------------------------------
  // strip

  /**
   * The characters Python's `str.isspace()` accepts below U+0100: tab, line
   * feed, vertical tab, form feed, carriage return, the four information
   * separators U+001C..U+001F, space, U+0085 and U+00A0.
   */
  predicate IsSpace(c: char) {
    ('\t' <= c <= '\r') || ('\U{1C}' <= c <= ' ') || c == '\U{85}' || c == '\U{A0}'
  }

  /** `s` without its leading white space (Python's `lstrip()`). */
  function TrimStart(s: string): string
    decreases |s|
  {
    if s != [] && IsSpace(s[0]) then TrimStart(s[1..]) else s
  }

  /** `TrimStart` drops a run of white space from the front and stops at the first other character. */
  lemma {:induction false} TrimStartSpec(s: string)
    ensures |TrimStart(s)| <= |s| && TrimStart(s) == s[|s| - |TrimStart(s)|..]
    ensures TrimStart(s) == [] || !IsSpace(TrimStart(s)[0])
    ensures forall i :: 0 <= i < |s| - |TrimStart(s)| ==> IsSpace(s[i])
    decreases |s|
  {
    if s != [] && IsSpace(s[0]) {
      TrimStartSpec(s[1..]);
    }
  }

  /** `s` without its trailing white space (Python's `rstrip()`). */
  function TrimEnd(s: string): string
    decreases |s|
  {
    if s != [] && IsSpace(s[|s| - 1]) then TrimEnd(s[..|s| - 1]) else s
  }

  /** `TrimEnd` drops a run of white space from the back and stops at the last other character. */
  lemma {:induction false} TrimEndSpec(s: string)
    ensures TrimEnd(s) <= s
    ensures TrimEnd(s) == [] || !IsSpace(TrimEnd(s)[|TrimEnd(s)| - 1])
    ensures forall i :: |TrimEnd(s)| <= i < |s| ==> IsSpace(s[i])
    decreases |s|
  {
    if s != [] && IsSpace(s[|s| - 1]) {
      TrimEndSpec(s[..|s| - 1]);
    }
  }

  /**
   * Python's `s.strip()`: the part of `s` between its leading and its
   * trailing white space; it neither starts nor ends with white space.
   */
  function Strip(s: string): string {
    TrimStart(TrimEnd(s))
  }

  /**
   * `Strip(s)` is the slice of `s` left when white space is removed from
   * both ends: everything cut off is white space, and the slice neither
   * starts nor ends with white space.
   */
  lemma StripSpec(s: string)
    ensures var e := |TrimEnd(s)|;
      && |Strip(s)| <= e <= |s|
      && Strip(s) == s[e - |Strip(s)|..e]
      && (forall i :: 0 <= i < e - |Strip(s)| ==> IsSpace(s[i]))
      && (forall i :: e <= i < |s| ==> IsSpace(s[i]))
      && (Strip(s) == [] || (!IsSpace(Strip(s)[0]) && !IsSpace(Strip(s)[|Strip(s)| - 1])))
  {
    var t := TrimEnd(s);
    TrimEndSpec(s);
    TrimStartSpec(t);
    assert t == s[..|t|];
  }

  /** A string of white space only strips to the empty string. */
  lemma StripBlank(s: string)
    requires forall i :: 0 <= i < |s| ==> IsSpace(s[i])
    ensures Strip(s) == []
  {
    StripSpec(s);
  }

  /** A string without white space at either end is its own strip. */
  lemma StripUnpadded(s: string)
    requires s == [] || (!IsSpace(s[0]) && !IsSpace(s[|s| - 1]))
    ensures Strip(s) == s
  {
  }

  // ---------------------------------------------------------------------
  // int()

  predicate IsDigit(c: char) { '0' <= c <= '9' }

  function DigitValue(c: char): (d: nat)
    requires IsDigit(c)
    ensures d < 10
  {
    c as int - '0' as int
  }

  function DigitChar(d: nat): (c: char)
    requires d < 10
    ensures IsDigit(c) && DigitValue(c) == d
  {
    ('0' as int + d) as char
  }

  /**
   * The digit part of a Python integer literal: ASCII digits, one or more,
   * with single underscores allowed between two digits (`"1_000"`).
   */
  predicate IsDigitGroups(s: string) {
    && |s| > 0
    && IsDigit(s[0])
    && IsDigit(s[|s| - 1])
    && (forall i :: 0 <= i < |s| ==> IsDigit(s[i]) || s[i] == '_')
    && (forall i :: 0 <= i < |s| - 1 ==> s[i] != '_' || s[i + 1] != '_')
  }

  /** The decimal value of the digits of `s`, underscores skipped. */
  function DigitsValue(s: string): (v: nat)
    requires forall i :: 0 <= i < |s| ==> IsDigit(s[i]) || s[i] == '_'
    decreases |s|
  {
    if s == [] then 0
    else if s[|s| - 1] == '_' then DigitsValue(s[..|s| - 1])
    else DigitsValue(s[..|s| - 1]) * 10 + DigitValue(s[|s| - 1])
  }

  /** The information separators U+001C..U+001F: white space to `strip()`, but not to `int()`. */
  predicate IsSeparator(c: char) { '\U{1C}' <= c <= '\U{1F}' }

  /** The white space `int()` skips around a literal: that of `IsSpace` except the separators. */
  predicate IsIntSpace(c: char) { IsSpace(c) && !IsSeparator(c) }

  /**
   * Python's `int(s)` on a string: surrounding `IsIntSpace` white space is
   * ignored, then one optional `+` or `-` sign and digit groups; anything
   * else makes `int()` raise, which is `None` here. A separator is never
   * part of a literal, so one anywhere in `s` makes `int()` raise; without
   * one, `Strip` cuts exactly the white space `int()` skips.
   */
  function ParseInt(s: string): Option<int> {
    var t := Strip(s);
    if exists i :: 0 <= i < |s| && IsSeparator(s[i]) then None
    else if t != [] && (t[0] == '+' || t[0] == '-') then
      if IsDigitGroups(t[1..]) then
        Some(if t[0] == '-' then -(DigitsValue(t[1..]) as int) else DigitsValue(t[1..]))
      else None
    else if IsDigitGroups(t) then Some(DigitsValue(t))
    else None
  }

  /** The decimal numeral of `n`, as Python's `str(n)` writes it. */
  function NatToString(n: nat): (s: string)
    ensures |s| >= 1
    ensures forall i :: 0 <= i < |s| ==> IsDigit(s[i])
    decreases n
  {
    if n < 10 then [DigitChar(n)] else NatToString(n / 10) + [DigitChar(n % 10)]
  }

  lemma {:induction false} NatToStringValue(n: nat)
    ensures DigitsValue(NatToString(n)) == n
    decreases n
  {
    var s := NatToString(n);
    if n < 10 {
      assert s[..|s| - 1] == [];
    } else {
      NatToStringValue(n / 10);
      assert s[..|s| - 1] == NatToString(n / 10);
    }
  }

  /** `int(str(n)) == n` for every non-negative `n`. */
  lemma ParseIntNatToString(n: nat)
    ensures ParseInt(NatToString(n)) == Some(n)
  {
    var s := NatToString(n);
    StripUnpadded(s);
    NatToStringValue(n);
    assert IsDigitGroups(s);
  }

  /** `int("-" + str(n)) == -n` for every non-negative `n`. */
  lemma ParseIntNegative(n: nat)
    ensures ParseInt("-" + NatToString(n)) == Some(-(n as int))
  {
    var s := "-" + NatToString(n);
    StripUnpadded(s);
    NatToStringValue(n);
    assert s[1..] == NatToString(n);
    assert IsDigitGroups(s[1..]);
  }

  /** `int(s)` raises on any string holding an information separator, `"30\x1c"` among them. */
  lemma ParseIntRejectsSeparator(s: string, k: int)
    requires 0 <= k < |s| && IsSeparator(s[k])
    ensures ParseInt(s) == None
  {
  }

  /** `TrimEnd` removes trailing white space and nothing before it. */
  lemma {:induction false} TrimEndPadded(d: string, b: string)
    requires d == [] || !IsSpace(d[|d| - 1])
    requires forall i :: 0 <= i < |b| ==> IsSpace(b[i])
    ensures TrimEnd(d + b) == d
    decreases |b|
  {
    if b != [] {
      assert (d + b)[..|d + b| - 1] == d + b[..|b| - 1];
      TrimEndPadded(d, b[..|b| - 1]);
    } else {
      assert d + b == d;
    }
  }

  /** `TrimStart` removes leading white space and nothing after it. */
  lemma {:induction false} TrimStartPadded(a: string, d: string)
    requires d == [] || !IsSpace(d[0])
    requires forall i :: 0 <= i < |a| ==> IsSpace(a[i])
    ensures TrimStart(a + d) == d
    decreases |a|
  {
    if a != [] {
      assert (a + d)[1..] == a[1..] + d;
      TrimStartPadded(a[1..], d);
    } else {
      assert a + d == d;
    }
  }

  /** `int()` skips the white space it knows on both sides: `int(a + str(n) + b) == n`. */
  lemma ParseIntPadded(a: string, n: nat, b: string)
    requires forall i :: 0 <= i < |a| ==> IsIntSpace(a[i])
    requires forall i :: 0 <= i < |b| ==> IsIntSpace(b[i])
    ensures ParseInt(a + NatToString(n) + b) == Some(n)
  {
    var d := NatToString(n);
    var s := a + d + b;
    TrimEndPadded(a + d, b);
    TrimStartPadded(a, d);
    assert Strip(s) == d;
    NatToStringValue(n);
    assert IsDigitGroups(d);
    forall i | 0 <= i < |s|
      ensures !IsSeparator(s[i])
    {
      if i < |a| {
        assert s[i] == a[i];
      } else if i < |a| + |d| {
        assert s[i] == d[i - |a|];
      } else {
        assert s[i] == b[i - |a| - |d|];
      }
    }
  }

  /** `int(s)` rejects the empty string and strings of white space only. */
  lemma ParseIntRejectsBlank(s: string)
    requires forall i :: 0 <= i < |s| ==> IsSpace(s[i])
    ensures ParseInt(s) == None
  {
    StripBlank(s);
  }
}
