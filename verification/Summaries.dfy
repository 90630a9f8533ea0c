// Receipt summaries: how write and remove print their fields, and how the lineage graph
// reads them back (crates/loom-core/src/memory_service.rs).

module Summaries {
  import opened Options
  import opened Text

  function Token(name: string, value: string): string {
    name + "=" + value
  }

  function WriteSummary(category: string, key: string, source: string): string {
    Token("category", category) + (" " + (Token("key", key) + (" " + Token("source", source))))
  }

  function RemoveSummary(category: string, key: string): string {
    Token("category", category) + (" " + Token("key", key))
  }

  function AddToken(out: map<string, string>, token: string): map<string, string> {
    match SplitOnce(token, '=')
    case None => out
    case Some((key, value)) => if Trim(key) == "" then out else out[Trim(key) := Trim(value)]
  }

  function ParseTokens(tokens: seq<string>): map<string, string> {
    if tokens == [] then map[]
    else AddToken(ParseTokens(tokens[..|tokens| - 1]), tokens[|tokens| - 1])
  }

  function Parse(summary: string): map<string, string> {
    ParseTokens(SplitWhitespace(summary))
  }

  method ParseSummaryTokens(summary: string) returns (out: map<string, string>)
    ensures out == Parse(summary)
  {
    out := map[];
    var tokens := SplitWhitespace(summary);
    for i := 0 to |tokens|
      invariant out == ParseTokens(tokens[..i])
    {
      assert tokens[..i + 1][..i] == tokens[..i];
      var split := SplitOnce(tokens[i], '=');
      if split.Some? && Trim(split.value.0) != "" {
        out := out[Trim(split.value.0) := Trim(split.value.1)];
      }
    }
    assert tokens[..|tokens|] == tokens;
  }

  // ----- what printing and parsing do -----

  lemma Regroup(a: string, b: string, c: string, d: string, e: string, f: string)
    ensures (a + b) + (c + ((d + e) + f)) == a + b + c + d + e + f
  {
  }

  /** The text of a summary. */
  lemma SummaryTexts(category: string, key: string, source: string)
    ensures WriteSummary(category, key, source) == "category=" + category + " key=" + key + " source=" + source
    ensures RemoveSummary(category, key) == "category=" + category + " key=" + key
  {
    assert "category" + "=" == "category=" && " " + ("key" + "=") == " key=" && " " + ("source" + "=") == " source=";
    assert RemoveSummary(category, key) == "category=" + category + " key=" + key;
    assert WriteSummary(category, key, source)
        == ("category=" + category) + (" " + ((("key" + "=") + key) + (" " + (("source" + "=") + source))));
    assert " " + (("source" + "=") + source) == " source=" + source;
    Regroup("category=", category, " ", "key=", key, " source=" + source);
  }

  /** token is a field: a nonempty name without an equals sign, one such sign, a value. */
  ghost predicate IsField(token: string, name: string, value: string) {
    name != "" && '=' !in name && token == name + "=" + value
  }

  lemma TokenIsField(token: string, name: string, value: string)
    ensures IsField(token, name, value)
            <==> name != "" && SplitOnce(token, '=') == Some((name, value))
  {
    if SplitOnce(token, '=').Some? {
      SplitOnceParts(token, '=');
    }
    if IsField(token, name, value) {
      SplitOnceAt(name, '=', value);
    }
  }

  lemma PartsAreFree(token: string)
    requires WhitespaceFree(token) && SplitOnce(token, '=').Some?
    ensures var parts := SplitOnce(token, '=').value; Trim(parts.0) == parts.0 && Trim(parts.1) == parts.1
  {
    SplitOnceParts(token, '=');
    var parts := SplitOnce(token, '=').value;
    forall i | 0 <= i < |parts.0| ensures !IsWhitespace(parts.0[i]) { assert parts.0[i] == token[i]; }
    forall i | 0 <= i < |parts.1| ensures !IsWhitespace(parts.1[i]) {
      assert parts.1[i] == token[|parts.0| + 1 + i];
    }
    TrimNothing(parts.0);
    TrimNothing(parts.1);
  }

  lemma AddTokenExactly(out: map<string, string>, token: string, name: string, value: string)
    requires WhitespaceFree(token)
    ensures name in AddToken(out, token) && AddToken(out, token)[name] == value
            <==> IsField(token, name, value)
                 || (name in out && out[name] == value && forall v :: !IsField(token, name, v))
  {
    forall v ensures IsField(token, name, v) <==> name != "" && SplitOnce(token, '=') == Some((name, v)) {
      TokenIsField(token, name, v);
    }
    if SplitOnce(token, '=').Some? {
      PartsAreFree(token);
      var parts := SplitOnce(token, '=').value;
      assert parts.0 == name && name != "" ==> IsField(token, name, parts.1);
    }
  }

  /** tokens[i] is the last one that is a field of that name, and it has that value. */
  ghost predicate LastField(tokens: seq<string>, name: string, value: string, i: nat) {
    i < |tokens| && IsField(tokens[i], name, value) && forall j, v | i < j < |tokens| :: !IsField(tokens[j], name, v)
  }

  ghost predicate HasLastField(tokens: seq<string>, name: string, value: string) {
    exists i: nat :: LastField(tokens, name, value, i)
  }

  lemma LastFieldPush(front: seq<string>, last: string, name: string, value: string)
    ensures HasLastField(front + [last], name, value)
            <==> IsField(last, name, value)
                 || (HasLastField(front, name, value) && forall v :: !IsField(last, name, v))
  {
    var tokens := front + [last];
    if i: nat :| LastField(tokens, name, value, i) {
      if i < |front| {
        forall j, v | i < j < |front| ensures !IsField(front[j], name, v) { assert tokens[j] == front[j]; }
        assert LastField(front, name, value, i);
        assert tokens[|front|] == last;
      }
    }
    if IsField(last, name, value) {
      assert LastField(tokens, name, value, |front|);
    } else if forall v :: !IsField(last, name, v) {
      if i: nat :| LastField(front, name, value, i) {
        forall j, v | i < j < |tokens| ensures !IsField(tokens[j], name, v) {
          if j < |front| { assert tokens[j] == front[j]; }
        }
        assert LastField(tokens, name, value, i);
      }
    }
  }

  /** A summary is parsed into the values of the last field of each name, among its words. */
  lemma {:induction false} ParseTokensExactly(tokens: seq<string>, name: string, value: string)
    requires forall i | 0 <= i < |tokens| :: WhitespaceFree(tokens[i])
    ensures name in ParseTokens(tokens) && ParseTokens(tokens)[name] == value
            <==> HasLastField(tokens, name, value)
  {
    if tokens == [] {
    } else {
      var front, last := tokens[..|tokens| - 1], tokens[|tokens| - 1];
      ParseTokensExactly(front, name, value);
      AddTokenExactly(ParseTokens(front), last, name, value);
      LastFieldPush(front, last, name, value);
      assert tokens == front + [last];
    }
  }

  lemma ParseExactly(summary: string, name: string, value: string)
    ensures name in Parse(summary) && Parse(summary)[name] == value
            <==> HasLastField(SplitWhitespace(summary), name, value)
  {
    ParseTokensExactly(SplitWhitespace(summary), name, value);
  }

  function Field(fields: map<string, string>, name: string, default: string): string {
    if name in fields then fields[name] else default
  }

  // ----- printing and parsing undo each other -----

  /** A field name that the parser takes as it stands. */
  predicate PlainName(name: string) {
    name != "" && WhitespaceFree(name) && forall i | 0 <= i < |name| :: name[i] != '='
  }

  lemma TokenFree(name: string, value: string)
    requires PlainName(name) && WhitespaceFree(value)
    ensures WhitespaceFree(Token(name, value)) && Token(name, value) != ""
  {
  }

  lemma AddPrintedToken(out: map<string, string>, name: string, value: string)
    requires PlainName(name) && WhitespaceFree(value)
    ensures AddToken(out, Token(name, value)) == out[name := value]
  {
    SplitOnceAt(name, '=', value);
    TrimNothing(name);
    TrimNothing(value);
  }

  lemma ParsePush(tokens: seq<string>, token: string)
    ensures ParseTokens(tokens + [token]) == AddToken(ParseTokens(tokens), token)
  {
    assert (tokens + [token])[..|tokens|] == tokens;
  }

  lemma FieldNames()
    ensures PlainName("category") && PlainName("key") && PlainName("source")
  {
    assert forall i | 0 <= i < 8 :: "category"[i] in {'c', 'a', 't', 'e', 'g', 'o', 'r', 'y'};
    assert forall i | 0 <= i < 3 :: "key"[i] in {'k', 'e', 'y'};
    assert forall i | 0 <= i < 6 :: "source"[i] in {'s', 'o', 'u', 'r', 'c', 'e'};
  }

  lemma ParseTwo(category: string, key: string)
    requires WhitespaceFree(category) && WhitespaceFree(key)
    ensures ParseTokens([Token("category", category)] + [Token("key", key)])
            == map["category" := category, "key" := key]
  {
    FieldNames();
    ParsePush([], Token("category", category));
    assert [] + [Token("category", category)] == [Token("category", category)];
    ParsePush([Token("category", category)], Token("key", key));
    AddPrintedToken(map[], "category", category);
    AddPrintedToken(map["category" := category], "key", key);
  }

  /** A remove receipt is read back as the two fields it was printed from. */
  lemma RemoveRoundTrip(category: string, key: string)
    requires WhitespaceFree(category) && WhitespaceFree(key)
    ensures Parse(RemoveSummary(category, key)) == map["category" := category, "key" := key]
  {
    FieldNames();
    TokenFree("category", category);
    TokenFree("key", key);
    SplitWordAndBlank(Token("category", category), Token("key", key));
    SplitOneWord(Token("key", key));
    ParseTwo(category, key);
  }

  lemma WriteSummaryTokens(category: string, key: string, source: string)
    requires WhitespaceFree(category) && WhitespaceFree(key) && WhitespaceFree(source)
    ensures SplitWhitespace(WriteSummary(category, key, source))
            == ([Token("category", category)] + [Token("key", key)]) + [Token("source", source)]
  {
    var a, b, c := Token("category", category), Token("key", key), Token("source", source);
    FieldNames();
    TokenFree("category", category);
    TokenFree("key", key);
    TokenFree("source", source);
    SplitWordAndBlank(a, b + (" " + c));
    SplitWordAndBlank(b, c);
    SplitOneWord(c);
  }

  /** A write receipt is read back as the three fields it was printed from. */
  lemma WriteRoundTrip(category: string, key: string, source: string)
    requires WhitespaceFree(category) && WhitespaceFree(key) && WhitespaceFree(source)
    ensures Parse(WriteSummary(category, key, source))
            == map["category" := category, "key" := key, "source" := source]
  {
    FieldNames();
    WriteSummaryTokens(category, key, source);
    ParseTwo(category, key);
    ParsePush([Token("category", category)] + [Token("key", key)], Token("source", source));
    AddPrintedToken(map["category" := category, "key" := key], "source", source);
  }

  lemma {:induction false} ParsedValuesAreFree(tokens: seq<string>, name: string)
    requires forall i | 0 <= i < |tokens| :: WhitespaceFree(tokens[i])
    requires name in ParseTokens(tokens)
    ensures WhitespaceFree(ParseTokens(tokens)[name])
  {
    var front, last := tokens[..|tokens| - 1], tokens[|tokens| - 1];
    if name in ParseTokens(front) {
      ParsedValuesAreFree(front, name);
    }
    if SplitOnce(last, '=').Some? {
      SplitOnceParts(last, '=');
      var parts := SplitOnce(last, '=').value;
      assert last == parts.0 + ['='] + parts.1;
      forall i | 0 <= i < |parts.1| ensures !IsWhitespace(parts.1[i]) {
        assert parts.1[i] == last[|parts.0| + 1 + i];
      }
      TrimNothing(parts.1);
    }
  }

  /** The three fields survive exactly when none of them contains whitespace. */
  lemma WriteRoundTripExactly(category: string, key: string, source: string)
    ensures var fields := Parse(WriteSummary(category, key, source));
            (&& "category" in fields && fields["category"] == category
             && "key" in fields && fields["key"] == key
             && "source" in fields && fields["source"] == source)
            <==> WhitespaceFree(category) && WhitespaceFree(key) && WhitespaceFree(source)
  {
    var tokens := SplitWhitespace(WriteSummary(category, key, source));
    var fields := ParseTokens(tokens);
    if WhitespaceFree(category) && WhitespaceFree(key) && WhitespaceFree(source) {
      WriteRoundTrip(category, key, source);
    } else {
      forall name | name in fields ensures WhitespaceFree(fields[name]) {
        ParsedValuesAreFree(tokens, name);
      }
    }
  }

  lemma RemoveSummaryTokens(category: string, head: string, tail: string)
    requires WhitespaceFree(category) && WhitespaceFree(head) && WhitespaceFree(tail) && tail != ""
    ensures SplitWhitespace(RemoveSummary(category, head + (" " + tail)))
            == ([Token("category", category)] + [Token("key", head)]) + [tail]
  {
    var c, k := Token("category", category), Token("key", head);
    FieldNames();
    TokenFree("category", category);
    TokenFree("key", head);
    assert Token("key", head + (" " + tail)) == k + (" " + tail);
    SplitWordAndBlank(c, k + (" " + tail));
    SplitWordAndBlank(k, tail);
    SplitOneWord(tail);
  }

  /** A key with a blank in it comes back cut off at the blank. */
  lemma BlankCutsKey(category: string, head: string, tail: string)
    requires WhitespaceFree(category) && WhitespaceFree(head) && WhitespaceFree(tail)
    requires tail != "" && SplitOnce(tail, '=').None?
    ensures Parse(RemoveSummary(category, head + (" " + tail))) == map["category" := category, "key" := head]
  {
    RemoveSummaryTokens(category, head, tail);
    ParseTwo(category, head);
    ParsePush([Token("category", category)] + [Token("key", head)], tail);
  }

  // ----- exactly when the fields survive -----

  lemma AddTokenMerge(m: map<string, string>, n: map<string, string>, token: string)
    ensures AddToken(m + n, token) == m + AddToken(n, token)
  {
  }

  lemma {:induction false} ParseTokensAppend(a: seq<string>, b: seq<string>)
    ensures ParseTokens(a + b) == ParseTokens(a) + ParseTokens(b)
    decreases |b|
  {
    if b == [] {
      assert a + b == a;
    } else {
      var front, last := b[..|b| - 1], b[|b| - 1];
      ParseTokensAppend(a, front);
      ParsePush(a + front, last);
      AddTokenMerge(ParseTokens(a), ParseTokens(front), last);
      assert a + b == (a + front) + [last];
    }
  }

  /** A source may contain tokens of its own; they are read after the category and the key. */
  lemma WriteParses(category: string, key: string, source: string)
    requires WhitespaceFree(category) && WhitespaceFree(key)
    ensures Parse(WriteSummary(category, key, source))
            == map["category" := category, "key" := key] + Parse(Token("source", source))
  {
    var c, k, rest := Token("category", category), Token("key", key), Token("source", source);
    FieldNames();
    TokenFree("category", category);
    TokenFree("key", key);
    SplitWordAndBlank(c, k + (" " + rest));
    SplitWordAndBlank(k, rest);
    assert [c] + ([k] + SplitWhitespace(rest)) == ([c] + [k]) + SplitWhitespace(rest);
    ParseTokensAppend([c] + [k], SplitWhitespace(rest));
    ParseTwo(category, key);
  }

  /** No token in the source changes the category or the key. */
  predicate SourceKeepsSlot(source: string, category: string, key: string) {
    var own := Parse(Token("source", source));
    ("category" in own ==> own["category"] == category) && ("key" in own ==> own["key"] == key)
  }

  lemma ParsedFieldIsFree(summary: string, name: string)
    ensures WhitespaceFree(Field(Parse(summary), name, ""))
  {
    if name in Parse(summary) {
      ParsedValuesAreFree(SplitWhitespace(summary), name);
    }
  }

  /** Category and key of a write survive exactly when they contain no whitespace and no token
      in the source changes them. */
  lemma WriteSlotSurvivesExactly(category: string, key: string, source: string)
    ensures var fields := Parse(WriteSummary(category, key, source));
            Field(fields, "category", "") == category && Field(fields, "key", "") == key
            <==> WhitespaceFree(category) && WhitespaceFree(key) && SourceKeepsSlot(source, category, key)
  {
    ParsedFieldIsFree(WriteSummary(category, key, source), "category");
    ParsedFieldIsFree(WriteSummary(category, key, source), "key");
    if WhitespaceFree(category) && WhitespaceFree(key) {
      WriteParses(category, key, source);
    }
  }

  /** Category and key of a remove survive exactly when they contain no whitespace. */
  lemma RemoveRoundTripExactly(category: string, key: string)
    ensures var fields := Parse(RemoveSummary(category, key));
            Field(fields, "category", "") == category && Field(fields, "key", "") == key
            <==> WhitespaceFree(category) && WhitespaceFree(key)
  {
    ParsedFieldIsFree(RemoveSummary(category, key), "category");
    ParsedFieldIsFree(RemoveSummary(category, key), "key");
    if WhitespaceFree(category) && WhitespaceFree(key) {
      RemoveRoundTrip(category, key);
    }
  }

  lemma TwoTokens(name: string, value: string, name': string, value': string)
    requires PlainName(name) && WhitespaceFree(value) && PlainName(name') && WhitespaceFree(value')
    ensures Parse(Token(name, value) + (" " + Token(name', value'))) == map[name := value][name' := value']
  {
    var t, t' := Token(name, value), Token(name', value');
    TokenFree(name, value);
    TokenFree(name', value');
    SplitWordAndBlank(t, t');
    SplitOneWord(t');
    ParsePush([], t);
    assert [] + [t] == [t];
    ParsePush([t], t');
    AddPrintedToken(map[], name, value);
    AddPrintedToken(map[name := value], name', value');
  }

  /** A source that spells out a key of its own replaces the written one. */
  lemma SourceReplacesKey(category: string, key: string, source: string, other: string)
    requires WhitespaceFree(category) && WhitespaceFree(key) && WhitespaceFree(source) && WhitespaceFree(other)
    ensures Parse(WriteSummary(category, key, source + (" " + Token("key", other))))
            == map["category" := category, "key" := other, "source" := source]
  {
    var k := Token("key", other);
    FieldNames();
    WriteParses(category, key, source + (" " + k));
    assert Token("source", source + (" " + k)) == Token("source", source) + (" " + k);
    TwoTokens("source", source, "key", other);
  }

  lemma FreeSourceKeepsSlot(category: string, key: string, source: string)
    requires WhitespaceFree(source)
    ensures SourceKeepsSlot(source, category, key)
  {
    var s := Token("source", source);
    FieldNames();
    TokenFree("source", source);
    SplitOneWord(s);
    ParsePush([], s);
    assert [] + [s] == [s];
    AddPrintedToken(map[], "source", source);
  }
}
