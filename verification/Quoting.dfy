// The debug format of strings, which the config printer uses for quoting
// (crates/loom-core/src/lib.rs, json_string), and the reader's way of taking quotes off.

module Quoting {
  import Hex

  /** Which characters beyond ASCII print as themselves is a table of the standard library;
      it comes in as the parameter `wide`. */
  type Table = char -> bool

  function EscapeChar(c: char, wide: Table): string {
    if c == '\U{0}' then "\\0"
    else if c == '\t' then "\\t"
    else if c == '\n' then "\\n"
    else if c == '\r' then "\\r"
    else if c == '"' then "\\\""
    else if c == '\\' then "\\\\"
    else if ' ' <= c <= '~' || ('\U{80}' <= c && wide(c)) then [c]
    else "\\u{" + Hex.Short(c as int) + "}"
  }

  function Escape(s: string, wide: Table): string {
    if s == "" then "" else Escape(s[..|s| - 1], wide) + EscapeChar(s[|s| - 1], wide)
  }

  function Quote(s: string, wide: Table): string {
    "\"" + Escape(s, wide) + "\""
  }

  function DropLeadingQuotes(s: string): string {
    if s != "" && s[0] == '"' then DropLeadingQuotes(s[1..]) else s
  }

  function DropTrailingQuotes(s: string): string {
    if s != "" && s[|s| - 1] == '"' then DropTrailingQuotes(s[..|s| - 1]) else s
  }

  /** `trim_matches('"')` */
  function TrimQuotes(s: string): string {
    DropTrailingQuotes(DropLeadingQuotes(s))
  }

  /** Characters that the printer leaves as they are. */
  predicate PlainChar(c: char, wide: Table) {
    c != '"' && c != '\\' && (' ' <= c <= '~' || ('\U{80}' <= c && wide(c)))
  }

  predicate Plain(s: string, wide: Table) {
    forall i | 0 <= i < |s| :: PlainChar(s[i], wide)
  }

  lemma {:induction false} HexHasNoQuote(n: nat)
    ensures forall i | 0 <= i < |Hex.Short(n)| :: Hex.Short(n)[i] != '"' && Hex.Short(n)[i] != '\n'
  {
    if n >= 16 {
      HexHasNoQuote(n / 16);
    }
  }

  lemma EscapeCharShape(c: char, wide: Table)
    ensures PlainChar(c, wide) ==> EscapeChar(c, wide) == [c]
    ensures !PlainChar(c, wide) ==> |EscapeChar(c, wide)| >= 2
    ensures EscapeChar(c, wide) != "" && EscapeChar(c, wide)[0] != '"'
    ensures c != '"' ==> EscapeChar(c, wide)[|EscapeChar(c, wide)| - 1] != '"'
    ensures forall i | 0 <= i < |EscapeChar(c, wide)| :: EscapeChar(c, wide)[i] != '\n'
  {
    HexHasNoQuote(c as int);
  }

  /** The spelling of each character: six escapes of two characters, itself, or its number in
      hexadecimal. */
  lemma EscapesExactly(c: char, wide: Table)
    ensures var e, n := EscapeChar(c, wide), c as int;
            && (e == "\\0" <==> n == 0x00) && (e == "\\t" <==> n == 0x09) && (e == "\\n" <==> n == 0x0A)
            && (e == "\\r" <==> n == 0x0D) && (e == "\\\"" <==> n == 0x22) && (e == "\\\\" <==> n == 0x5C)
            && (e == [c] <==> n != 0x22 && n != 0x5C && (0x20 <= n <= 0x7E || (n >= 0x80 && wide(c))))
            && (|e| > 2 ==> exists hex :: e == "\\u{" + hex + "}" && Hex.AllHexDigits(hex) && Hex.HexValue(hex) == n
                                          && hex != "" && hex[0] != '0')
  {
    Hex.ShortExactly(c as int);
    var number := "\\u{" + Hex.Short(c as int) + "}";
    assert |number| > 2;
  }

  lemma EscapePush(front: string, last: char, wide: Table)
    ensures Escape(front + [last], wide) == Escape(front, wide) + EscapeChar(last, wide)
  {
    assert (front + [last])[..|front|] == front;
  }

  lemma FrontOfSum(s: string, t: string)
    requires t != ""
    ensures (s + t)[..|s + t| - 1] == s + t[..|t| - 1] && (s + t)[|s + t| - 1] == t[|t| - 1]
  {
  }

  lemma Regroup(a: string, b: string, c: string)
    ensures (a + b) + c == a + (b + c)
  {
  }

  /** A text is spelled character by character. */
  lemma {:induction false} EscapeAppend(s: string, t: string, wide: Table)
    ensures Escape(s + t, wide) == Escape(s, wide) + Escape(t, wide)
    decreases |t|
  {
    if t == "" {
      assert s + t == s;
    } else {
      var front, last := t[..|t| - 1], t[|t| - 1];
      EscapeAppend(s, front, wide);
      FrontOfSum(s, t);
      Regroup(Escape(s, wide), Escape(front, wide), EscapeChar(last, wide));
    }
  }

  /** A quoted text is the spelled text between one pair of quotes. */
  lemma QuoteExactly(s: string, wide: Table)
    ensures var q := Quote(s, wide);
            |q| >= 2 && q[0] == '"' && q[|q| - 1] == '"' && q[1..|q| - 1] == Escape(s, wide)
  {
  }

  predicate AllQuotes(s: string) {
    forall i | 0 <= i < |s| :: s[i] == '"'
  }

  lemma {:induction false} LeadingQuotesDropped(s: string) returns (n: nat)
    ensures n <= |s| && DropLeadingQuotes(s) == s[n..] && AllQuotes(s[..n])
    ensures n < |s| ==> s[n] != '"'
  {
    n := 0;
    if s != "" && s[0] == '"' {
      var m := LeadingQuotesDropped(s[1..]);
      n := m + 1;
      assert s[1..][m..] == s[n..];
      assert s[..n] == [s[0]] + s[1..][..m];
    }
  }

  lemma {:induction false} TrailingQuotesDropped(s: string) returns (n: nat)
    ensures n <= |s| && DropTrailingQuotes(s) == s[..n] && AllQuotes(s[n..])
    ensures n > 0 ==> s[n - 1] != '"'
  {
    n := |s|;
    if s != "" && s[|s| - 1] == '"' {
      n := TrailingQuotesDropped(s[..|s| - 1]);
      assert s[..|s| - 1][..n] == s[..n];
      assert s[n..] == s[..|s| - 1][n..] + [s[|s| - 1]];
    }
  }

  /** All quotes at the two ends go, and nothing else. */
  lemma TrimQuotesExactly(s: string) returns (lo: nat, hi: nat)
    ensures lo <= hi <= |s| && TrimQuotes(s) == s[lo..hi]
    ensures AllQuotes(s[..lo]) && AllQuotes(s[hi..])
    ensures lo < hi ==> s[lo] != '"' && s[hi - 1] != '"'
  {
    lo := LeadingQuotesDropped(s);
    var n := TrailingQuotesDropped(s[lo..]);
    hi := lo + n;
    assert s[lo..][..n] == s[lo..hi] && s[lo..][n..] == s[hi..];
    if lo < hi {
      assert s[lo..][n - 1] == s[hi - 1];
    }
  }

  lemma PlainPush(front: string, last: char, wide: Table)
    ensures Plain(front + [last], wide) <==> Plain(front, wide) && PlainChar(last, wide)
    ensures Escape(front + [last], wide) == Escape(front, wide) + EscapeChar(last, wide)
  {
    EscapePush(front, last, wide);
    if Plain(front + [last], wide) {
      assert PlainChar((front + [last])[|front|], wide);
      forall i | 0 <= i < |front| ensures PlainChar(front[i], wide) { assert (front + [last])[i] == front[i]; }
    }
  }

  /** The printer leaves a string alone or makes it longer. */
  lemma {:induction false} EscapeGrows(s: string, wide: Table)
    ensures Plain(s, wide) ==> Escape(s, wide) == s
    ensures !Plain(s, wide) ==> |Escape(s, wide)| > |s|
  {
    if s == "" {
    } else {
      var front, last := s[..|s| - 1], s[|s| - 1];
      assert s == front + [last];
      EscapeGrows(front, wide);
      EscapeCharShape(last, wide);
      PlainPush(front, last, wide);
    }
  }

  /** No line feed, no leading quote, and a trailing quote only for a trailing quote. */
  lemma {:induction false} EscapeEnds(s: string, wide: Table)
    ensures s != "" ==> Escape(s, wide) != "" && Escape(s, wide)[0] != '"'
    ensures s != "" && s[|s| - 1] != '"' ==> Escape(s, wide) != "" && Escape(s, wide)[|Escape(s, wide)| - 1] != '"'
    ensures forall i | 0 <= i < |Escape(s, wide)| :: Escape(s, wide)[i] != '\n'
  {
    if s == "" {
    } else {
      EscapeEnds(s[..|s| - 1], wide);
      EscapeCharShape(s[|s| - 1], wide);
    }
  }

  lemma EscapeShape(s: string, wide: Table)
    ensures |Escape(s, wide)| >= |s|
    ensures Plain(s, wide) ==> Escape(s, wide) == s
    ensures !Plain(s, wide) ==> |Escape(s, wide)| > |s|
    ensures s != "" ==> Escape(s, wide)[0] != '"'
    ensures s != "" && s[|s| - 1] != '"' ==> Escape(s, wide)[|Escape(s, wide)| - 1] != '"'
    ensures forall i | 0 <= i < |Escape(s, wide)| :: Escape(s, wide)[i] != '\n'
  {
    EscapeGrows(s, wide);
    EscapeEnds(s, wide);
  }

  lemma LeadingQuote(t: string)
    ensures DropLeadingQuotes("\"" + t) == DropLeadingQuotes(t)
  {
    assert ("\"" + t)[1..] == t;
  }

  lemma TrailingQuote(t: string)
    ensures DropTrailingQuotes(t + "\"") == DropTrailingQuotes(t)
  {
    assert (t + "\"")[..|t|] == t;
  }

  lemma TrimOnePair(body: string)
    requires body == "" || (body[0] != '"' && body[|body| - 1] != '"')
    ensures TrimQuotes("\"" + body + "\"") == body
  {
    assert "\"" + body + "\"" == "\"" + (body + "\"");
    LeadingQuote(body + "\"");
    if body == "" {
      assert body + "\"" == "\"" + "";
      LeadingQuote("");
    } else {
      TrailingQuote(body);
    }
  }

  lemma TrimAfterQuote(body: string)
    requires body != "" && body[0] != '"' && body[|body| - 1] != '"'
    ensures TrimQuotes("\"" + (body + "\"") + "\"") == body
  {
    var q := body + "\"";
    assert "\"" + q + "\"" == "\"" + (q + "\"");
    LeadingQuote(q + "\"");
    TrailingQuote(q);
    TrailingQuote(body);
  }

  /** Taking the quotes off a quoted string gives the string back exactly when the printer
      left every character as it was. */
  lemma UnquoteExactly(s: string, wide: Table)
    ensures TrimQuotes(Quote(s, wide)) == s <==> Plain(s, wide)
  {
    EscapeShape(s, wide);
    var e := Escape(s, wide);
    if s == "" || s[|s| - 1] != '"' {
      TrimOnePair(e);
    } else {
      var front := s[..|s| - 1];
      EscapeShape(front, wide);
      assert EscapeChar('"', wide) == "\\" + "\"";
      var body := Escape(front, wide) + "\\";
      assert e == body + "\"";
      TrimAfterQuote(body);
      assert !PlainChar(s[|s| - 1], wide);
      assert body[|body| - 1] == '\\';
    }
  }
}
