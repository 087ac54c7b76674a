/**
 * The phone normaliser: every character outside ASCII `[A-Za-z0-9]` is
 * removed, the others are kept in order and case; `None` stays `None`.
 */
module Phone {
  import opened Wrappers

  /** The character class `[A-Za-z0-9]`. */
  predicate IsAlnum(c: char) {
    ('A' <= c <= 'Z') || ('a' <= c <= 'z') || ('0' <= c <= '9')
  }

  /** `s` with every character outside `[A-Za-z0-9]` removed. */
  function KeepAlnum(s: string): string
    decreases |s|
  {
    if s == [] then []
    else if IsAlnum(s[0]) then [s[0]] + KeepAlnum(s[1..])
    else KeepAlnum(s[1..])
  }

  /** The normaliser itself: `None` maps to `None`, a string to its alphanumeric characters. */
  function NormalizePhone(phone: Option<string>): (r: Option<string>)
    ensures r.None? <==> phone.None?
    ensures r.Some? ==> forall i :: 0 <= i < |r.value| ==> IsAlnum(r.value[i])
  {
    match phone
    case None => None
    case Some(s) => KeepAlnumOnlyAlnum(s); Some(KeepAlnum(s))
  }

  /** Only characters of `[A-Za-z0-9]` are left. */
  lemma {:induction false} KeepAlnumOnlyAlnum(s: string)
    ensures forall i :: 0 <= i < |KeepAlnum(s)| ==> IsAlnum(KeepAlnum(s)[i])
    decreases |s|
  {
    if s != [] {
      KeepAlnumOnlyAlnum(s[1..]);
    }
  }

  /**
   * The filter distributes over concatenation: what is kept of `a + b` is what
   * is kept of `a` followed by what is kept of `b`. With `KeepOne` this pins
   * the filter down character by character, so order is preserved.
   */
  lemma {:induction false} KeepAlnumConcat(a: string, b: string)
    ensures KeepAlnum(a + b) == KeepAlnum(a) + KeepAlnum(b)
    decreases |a|
  {
    if a != [] {
      KeepAlnumConcat(a[1..], b);
      assert (a + b)[1..] == a[1..] + b;
    } else {
      assert a + b == b;
    }
  }

  /** A single character is kept exactly when it is in `[A-Za-z0-9]`. */
  lemma KeepOne(c: char)
    ensures KeepAlnum([c]) == if IsAlnum(c) then [c] else []
  {
    assert [c][1..] == [];
  }

  /** A string that is already alphanumeric is left as it is. */
  lemma {:induction false} KeepAlnumFixesAlnum(s: string)
    requires forall i :: 0 <= i < |s| ==> IsAlnum(s[i])
    ensures KeepAlnum(s) == s
    decreases |s|
  {
    if s != [] {
      KeepAlnumFixesAlnum(s[1..]);
      assert [s[0]] + s[1..] == s;
    }
  }

  /** Normalising a normalised number again changes nothing. */
  lemma NormalizeIdempotent(phone: Option<string>)
    ensures NormalizePhone(NormalizePhone(phone)) == NormalizePhone(phone)
  {
    if phone.Some? {
      KeepAlnumOnlyAlnum(phone.value);
      KeepAlnumFixesAlnum(KeepAlnum(phone.value));
    }
  }

  /** The characters removed are exactly those outside `[A-Za-z0-9]`: none of them survives. */
  lemma {:induction false} KeepAlnumDropsOthers(s: string, c: char)
    requires !IsAlnum(c)
    ensures c !in KeepAlnum(s)
  {
    KeepAlnumOnlyAlnum(s);
  }

  /** Every alphanumeric character of the input survives, as often as it occurs. */
  lemma {:induction false} KeepAlnumKeepsCount(s: string, c: char)
    requires IsAlnum(c)
    ensures multiset(KeepAlnum(s))[c] == multiset(s)[c]
    decreases |s|
  {
    if s != [] {
      KeepAlnumKeepsCount(s[1..], c);
      assert s == [s[0]] + s[1..];
    }
  }

  /** A string with no character of `[A-Za-z0-9]` normalises to the empty string. */
  lemma {:induction false} KeepAlnumDropsAll(s: string)
    requires forall i :: 0 <= i < |s| ==> !IsAlnum(s[i])
    ensures KeepAlnum(s) == []
    decreases |s|
  {
    if s != [] {
      KeepAlnumDropsAll(s[1..]);
    }
  }

  /**
   * The usual North-American formatting `(AAA) EEE-LLLL` is stripped to the
   * characters of the three groups alone, `(555) 123-4567` to `5551234567`
   * among them.
   */
  lemma NormalizeFormatted(area: string, exchange: string, line: string)
    requires forall i :: 0 <= i < |area| ==> IsAlnum(area[i])
    requires forall i :: 0 <= i < |exchange| ==> IsAlnum(exchange[i])
    requires forall i :: 0 <= i < |line| ==> IsAlnum(line[i])
    ensures NormalizePhone(Some("(" + (area + (") " + (exchange + ("-" + line))))))
         == Some(area + (exchange + line))
  {
    KeepAlnumFixesAlnum(area);
    KeepAlnumFixesAlnum(exchange);
    KeepAlnumFixesAlnum(line);
    KeepAlnumSkip("-", line);
    KeepAlnumConcat(exchange, "-" + line);
    KeepAlnumSkip(") ", exchange + ("-" + line));
    KeepAlnumConcat(area, ") " + (exchange + ("-" + line)));
    KeepAlnumSkip("(", area + (") " + (exchange + ("-" + line))));
  }

  /** Punctuation in front of a string is dropped. */
  lemma KeepAlnumSkip(p: string, s: string)
    requires forall i :: 0 <= i < |p| ==> !IsAlnum(p[i])
    ensures KeepAlnum(p + s) == KeepAlnum(s)
  {
    KeepAlnumDropsAll(p);
    KeepAlnumConcat(p, s);
  }

  /** The worked example: `(555) 123-4567` normalises to `5551234567`, `None` to `None`. */
  lemma NormalizeExample(phone: string)
    requires phone == "(555) 123-4567"
    ensures NormalizePhone(Some(phone)) == Some("5551234567")
    ensures NormalizePhone(None) == None
  {
    var area, exchange, line := "555", "123", "4567";
    NormalizeFormatted(area, exchange, line);
    assert "(" + (area + (") " + (exchange + ("-" + line)))) == phone;
    assert area + (exchange + line) == "5551234567";
  }
}
