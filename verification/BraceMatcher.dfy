// The string-aware brace matcher (crates/loom-core/src/lib.rs, find_matching_brace).
//
// The matcher walks over bytes and reads each as a character, so a text is here the
// sequence of those characters.  Continuation bytes of UTF-8 never equal a quote, a
// backslash or a brace.

module BraceMatcher {
  import opened Options

  // ----- the scanner -----

  datatype State = State(depth: nat, inString: bool, escaped: bool)

  const START := State(0, false, false)

  function Outside(depth: nat): State {
    State(depth, false, false)
  }

  function Step(st: State, ch: char): State {
    if st.inString then
      if st.escaped then st.(escaped := false)
      else if ch == '\\' then st.(escaped := true)
      else if ch == '"' then st.(inString := false)
      else st
    else
      match ch
      case '"' => st.(inString := true)
      case '{' => st.(depth := st.depth + 1)
      case '}' => st.(depth := if st.depth == 0 then 0 else st.depth - 1)
      case _ => st
  }

  /** ch is the brace at which a scanner in state st stops. */
  predicate Stops(st: State, ch: char) {
    !st.inString && ch == '}' && st.depth <= 1
  }

  ghost function Run(st: State, t: string): State
    decreases |t|
  {
    if t == [] then st else Run(Step(st, t[0]), t[1..])
  }

  /** The scanner started in st reads all of t without stopping. */
  ghost predicate Quiet(st: State, t: string)
    decreases |t|
  {
    t != [] ==> !Stops(st, t[0]) && Quiet(Step(st, t[0]), t[1..])
  }

  lemma {:induction false} RunAppend(st: State, a: string, b: string)
    ensures Run(st, a + b) == Run(Run(st, a), b)
    ensures Quiet(st, a + b) <==> Quiet(st, a) && Quiet(Run(st, a), b)
    decreases |a|
  {
    if a == [] {
      assert a + b == b;
    } else {
      RunAppend(Step(st, a[0]), a[1..], b);
      assert (a + b)[1..] == a[1..] + b;
    }
  }

  /** r is the first stopping position at or after start, if there is one. */
  ghost predicate IsMatch(text: string, start: nat, r: Option<nat>) {
    match r
    case None => start >= |text| || Quiet(START, text[start..])
    case Some(e) =>
      && start <= e < |text|
      && Quiet(START, text[start..e])
      && Stops(Run(START, text[start..e]), text[e])
  }

  method FindMatchingBrace(section: string, start: nat) returns (r: Option<nat>)
    ensures IsMatch(section, start, r)
  {
    var depth, inString, escaped := 0, false, false;
    var idx := start;
    while idx < |section|
      invariant start <= idx && depth >= 0
      invariant idx <= |section| || idx == start
      invariant idx <= |section| ==> Quiet(START, section[start..idx])
      invariant idx <= |section| ==> State(depth, inString, escaped) == Run(START, section[start..idx])
    {
      var ch := section[idx];
      ghost var st := State(depth, inString, escaped);
      assert section[start..idx + 1] == section[start..idx] + [ch];
      RunAppend(START, section[start..idx], [ch]);
      assert Run(st, [ch]) == Step(st, ch) by { assert [ch][1..] == []; }
      if inString {
        if escaped {
          escaped := false;
        } else if ch == '\\' {
          escaped := true;
        } else if ch == '"' {
          inString := false;
        }
      } else {
        match ch
        case '"' => inString := true;
        case '{' => depth := depth + 1;
        case '}' =>
          depth := if depth == 0 then 0 else depth - 1;
          if depth == 0 {
            return Some(idx);
          }
        case _ =>
      }
      assert Quiet(Step(st, ch), [ch][1..]);
      idx := idx + 1;
    }
    if start <= |section| {
      assert section[start..] == section[start..idx];
    }
    return None;
  }

  lemma MatchUnique(text: string, start: nat, d: nat, r: Option<nat>)
    requires IsMatch(text, start, Some(d)) && IsMatch(text, start, r)
    ensures r == Some(d)
  {
    if r.None? {
      assert text[start..|text|] == text[start..];
      QuietUpTo(text, start, |text|, d);
    } else if r.value < d {
      QuietUpTo(text, start, d, r.value);
    } else if d < r.value {
      QuietUpTo(text, start, r.value, d);
    }
  }

  /** Reading quietly up to `end` means stopping nowhere before it. */
  lemma QuietUpTo(text: string, start: nat, end: nat, i: nat)
    requires start <= i < end <= |text| && Quiet(START, text[start..end])
    ensures !Stops(Run(START, text[start..i]), text[i])
  {
    assert text[start..end] == text[start..i] + text[i..end];
    RunAppend(START, text[start..i], text[i..end]);
  }

  // ----- JSON texts (RFC 8259) -----

  /** One element of a string: a plain character, or a backslash and the character after it
      (the four digits of a \u escape are plain characters). */
  datatype Unit = Plain(c: char) | Escape(c: char)

  /** Trees of RFC 8259; the ws fields are the insignificant whitespace after each token. */
  datatype Json =
    | Scalar(text: string)
    | Str(units: seq<Unit>)
    | Arr(ws: string, items: Items)
    | Obj(ws: string, members: Members)

  datatype Items = NoItems | Item(value: Json, ws: string, wsNext: string, rest: Items)

  datatype Members =
    | NoMembers
    | Member(name: seq<Unit>, wsName: string, wsColon: string, value: Json, ws: string, wsNext: string, rest: Members)

  function PrintUnits(units: seq<Unit>): string {
    if units == [] then ""
    else (match units[0] case Plain(c) => [c] case Escape(c) => ['\\', c]) + PrintUnits(units[1..])
  }

  function PrintString(units: seq<Unit>): string {
    "\"" + PrintUnits(units) + "\""
  }

  function Print(v: Json): string {
    match v
    case Scalar(text) => text
    case Str(units) => PrintString(units)
    case Arr(ws, items) => "[" + ws + PrintItems(items) + "]"
    case Obj(ws, members) => "{" + ws + PrintMembers(members) + "}"
  }

  function PrintItems(items: Items): string {
    match items
    case NoItems => ""
    case Item(value, ws, wsNext, rest) =>
      Print(value) + (ws + (if rest.NoItems? then "" else "," + wsNext)) + PrintItems(rest)
  }

  function PrintMembers(members: Members): string {
    match members
    case NoMembers => ""
    case Member(name, wsName, wsColon, value, ws, wsNext, rest) =>
      PrintString(name) + (wsName + ":" + wsColon) + Print(value)
      + (ws + (if rest.NoMembers? then "" else "," + wsNext)) + PrintMembers(rest)
  }

  /** Characters that the grammar allows outside strings, the braces themselves aside. */
  predicate Filler(t: string) {
    forall i | 0 <= i < |t| :: t[i] != '"' && t[i] != '{' && t[i] != '}'
  }

  predicate GoodUnits(units: seq<Unit>) {
    forall i | 0 <= i < |units| :: units[i].Plain? ==> units[i].c != '"' && units[i].c != '\\'
  }

  predicate Good(v: Json) {
    match v
    case Scalar(text) => Filler(text)
    case Str(units) => GoodUnits(units)
    case Arr(ws, items) => Filler(ws) && GoodItems(items)
    case Obj(ws, members) => Filler(ws) && GoodMembers(members)
  }

  predicate GoodItems(items: Items) {
    items.Item? ==>
      Good(items.value) && Filler(items.ws) && Filler(items.wsNext) && GoodItems(items.rest)
  }

  predicate GoodMembers(members: Members) {
    members.Member? ==>
      && GoodUnits(members.name) && Filler(members.wsName) && Filler(members.wsColon)
      && Good(members.value) && Filler(members.ws) && Filler(members.wsNext)
      && GoodMembers(members.rest)
  }

  // ----- what the scanner makes of them -----

  /** t is read quietly and leaves the scanner as it was. */
  ghost predicate Neutral(st: State, t: string) {
    Quiet(st, t) && Run(st, t) == st
  }

  lemma NeutralAppend(st: State, a: string, b: string)
    requires Neutral(st, a) && Neutral(st, b)
    ensures Neutral(st, a + b)
  {
    RunAppend(st, a, b);
  }

  lemma {:induction false} FillerNeutral(st: State, t: string)
    requires Filler(t) && !st.inString
    ensures Neutral(st, t)
  {
    if t == [] {
    } else {
      FillerNeutral(st, t[1..]);
    }
  }

  lemma UnitNeutral(depth: nat, u: Unit)
    requires u.Plain? ==> u.c != '"' && u.c != '\\'
    ensures Neutral(State(depth, true, false), PrintUnits([u]))
  {
    var st := State(depth, true, false);
    assert [u][1..] == [];
    if u.Plain? {
      assert PrintUnits([u]) == [u.c];
      assert [u.c][1..] == [];
    } else {
      assert PrintUnits([u]) == ['\\', u.c];
      assert ['\\', u.c][1..] == [u.c] && [u.c][1..] == [];
      assert Step(st, '\\') == State(depth, true, true);
      assert Step(State(depth, true, true), u.c) == st;
      assert Run(State(depth, true, true), [u.c]) == Run(st, []) == st;
      assert Quiet(State(depth, true, true), [u.c]);
    }
  }

  lemma {:induction false} UnitsNeutral(depth: nat, units: seq<Unit>)
    requires GoodUnits(units)
    ensures Neutral(State(depth, true, false), PrintUnits(units))
  {
    if units == [] {
    } else {
      UnitsNeutral(depth, units[1..]);
      UnitNeutral(depth, units[0]);
      NeutralAppend(State(depth, true, false), PrintUnits([units[0]]), PrintUnits(units[1..]));
      assert [units[0]][1..] == [];
    }
  }

  lemma StringNeutral(depth: nat, units: seq<Unit>)
    requires GoodUnits(units)
    ensures Neutral(Outside(depth), PrintString(units))
  {
    var st, inside, body := Outside(depth), State(depth, true, false), PrintUnits(units);
    UnitsNeutral(depth, units);
    RunAppend(inside, body, "\"");
    RunAppend(st, "\"", body + "\"");
    assert "\"" + (body + "\"") == PrintString(units);
  }

  lemma BracketsNeutral(depth: nat, ws: string, body: string)
    requires Filler(ws) && Neutral(Outside(depth), body)
    ensures Neutral(Outside(depth), "[" + ws + body + "]")
  {
    var st := Outside(depth);
    FillerNeutral(st, "[" + ws);
    FillerNeutral(st, "]");
    NeutralAppend(st, "[" + ws, body);
    NeutralAppend(st, "[" + ws + body, "]");
  }

  lemma BracesNeutral(depth: nat, body: string)
    requires depth >= 1 && Neutral(Outside(depth + 1), body)
    ensures Neutral(Outside(depth), "{" + (body + "}"))
  {
    RunAppend(Outside(depth + 1), body, "}");
    RunAppend(Outside(depth), "{", body + "}");
  }

  /** Below the top level, every printed value leaves the depth as it found it. */
  lemma {:induction false} ValueNeutral(depth: nat, v: Json)
    requires depth >= 1 && Good(v)
    ensures Neutral(Outside(depth), Print(v))
    decreases v
  {
    match v
    case Scalar(text) => FillerNeutral(Outside(depth), text);
    case Str(units) => StringNeutral(depth, units);
    case Arr(ws, items) =>
      ItemsNeutral(depth, items);
      BracketsNeutral(depth, ws, PrintItems(items));
    case Obj(ws, members) =>
      BodyNeutral(depth + 1, ws, members);
      BracesNeutral(depth, ws + PrintMembers(members));
      assert "{" + ((ws + PrintMembers(members)) + "}") == Print(v);
  }

  lemma {:induction false} ItemsNeutral(depth: nat, items: Items)
    requires depth >= 1 && GoodItems(items)
    ensures Neutral(Outside(depth), PrintItems(items))
    decreases items
  {
    if items.Item? {
      var st := Outside(depth);
      var gap := items.ws + (if items.rest.NoItems? then "" else "," + items.wsNext);
      ValueNeutral(depth, items.value);
      FillerNeutral(st, gap);
      ItemsNeutral(depth, items.rest);
      NeutralAppend(st, Print(items.value), gap);
      NeutralAppend(st, Print(items.value) + gap, PrintItems(items.rest));
    }
  }

  lemma {:induction false} MembersNeutral(depth: nat, members: Members)
    requires depth >= 1 && GoodMembers(members)
    ensures Neutral(Outside(depth), PrintMembers(members))
    decreases members, 0
  {
    if members.Member? {
      var st := Outside(depth);
      var colon := members.wsName + ":" + members.wsColon;
      var gap := members.ws + (if members.rest.NoMembers? then "" else "," + members.wsNext);
      var name, value := PrintString(members.name), Print(members.value);
      StringNeutral(depth, members.name);
      FillerNeutral(st, colon);
      ValueNeutral(depth, members.value);
      FillerNeutral(st, gap);
      MembersNeutral(depth, members.rest);
      NeutralAppend(st, name, colon);
      NeutralAppend(st, name + colon, value);
      NeutralAppend(st, name + colon + value, gap);
      NeutralAppend(st, name + colon + value + gap, PrintMembers(members.rest));
    }
  }

  lemma {:induction false} BodyNeutral(depth: nat, ws: string, members: Members)
    requires depth >= 1 && Filler(ws) && GoodMembers(members)
    ensures Neutral(Outside(depth), ws + PrintMembers(members))
    decreases members, 1
  {
    MembersNeutral(depth, members);
    FillerNeutral(Outside(depth), ws);
    NeutralAppend(Outside(depth), ws, PrintMembers(members));
  }

  /** Started at the opening brace of a printed object, anywhere in any text, the matcher
      returns that object's own closing brace. */
  lemma ObjectIsMatched(before: string, v: Json, after: string, r: Option<nat>)
    requires v.Obj? && Good(v)
    requires IsMatch(before + Print(v) + after, |before|, r)
    ensures r == Some(|before| + |Print(v)| - 1)
  {
    var text := before + Print(v) + after;
    var body := v.ws + PrintMembers(v.members);
    var end := |before| + |Print(v)| - 1;
    BodyNeutral(1, v.ws, v.members);
    assert Print(v) == "{" + body + "}";
    assert text[|before|..end] == "{" + body;
    RunAppend(START, "{", body);
    assert text[end] == '}';
    MatchUnique(text, |before|, end, r);
  }

  // ----- what a match means in any text -----

  /** The number of structural braces ch in t, read from state st. */
  ghost function Braces(st: State, t: string, ch: char): nat
    decreases |t|
  {
    if t == [] then 0
    else (if !st.inString && t[0] == ch then 1 else 0) + Braces(Step(st, t[0]), t[1..], ch)
  }

  lemma {:induction false} DepthIsBalance(st: State, t: string)
    requires Quiet(st, t) && (st.depth > 0 || t == [] || (!st.inString && t[0] == '{'))
    ensures Run(st, t).depth == st.depth + Braces(st, t, '{') - Braces(st, t, '}')
    ensures t != [] ==> Run(st, t).depth > 0
    decreases |t|
  {
    if t == [] {
    } else {
      assert Step(st, t[0]).depth > 0;
      DepthIsBalance(Step(st, t[0]), t[1..]);
    }
  }

  /** In any text, a match for an opening brace is the first point at which the braces
      outside strings balance. */
  lemma MatchBalances(text: string, start: nat, e: nat, i: nat)
    requires start < |text| && text[start] == '{' && IsMatch(text, start, Some(e))
    requires start < i <= e
    ensures Braces(START, text[start..i], '{') > Braces(START, text[start..i], '}')
    ensures text[e] == '}' && !Run(START, text[start..e]).inString
    ensures Braces(START, text[start..e], '{') == Braces(START, text[start..e], '}') + 1
  {
    assert text[start..e] == text[start..i] + text[i..e];
    RunAppend(START, text[start..i], text[i..e]);
    DepthIsBalance(START, text[start..i]);
    DepthIsBalance(START, text[start..e]);
  }

  /** The braces outside strings balance just before position i. */
  ghost predicate BalancedBefore(text: string, start: nat, i: nat)
    requires start <= i <= |text|
  {
    Braces(START, text[start..i], '{') == Braces(START, text[start..i], '}')
  }

  lemma {:induction false} BracesAppend(st: State, a: string, b: string, ch: char)
    ensures Braces(st, a + b, ch) == Braces(st, a, ch) + Braces(Run(st, a), b, ch)
    decreases |a|
  {
    if a == [] {
      assert a + b == b;
    } else {
      BracesAppend(Step(st, a[0]), a[1..], b, ch);
      assert (a + b)[1..] == a[1..] + b;
    }
  }

  lemma QuietNeverBalances(text: string, start: nat, end: nat, i: nat)
    requires start < i <= end <= |text| && text[start] == '{' && Quiet(START, text[start..end])
    ensures !BalancedBefore(text, start, i)
  {
    assert text[start..end] == text[start..i] + text[i..end];
    RunAppend(START, text[start..i], text[i..end]);
    DepthIsBalance(START, text[start..i]);
  }

  /** From an opening brace, the result is the first position after which the braces outside
      strings balance, and there is none exactly when they never balance. */
  lemma MatchIsFirstBalance(text: string, start: nat, r: Option<nat>)
    requires start < |text| && text[start] == '{' && IsMatch(text, start, r)
    ensures r == None <==> forall i | start < i <= |text| :: !BalancedBefore(text, start, i)
    ensures r.Some? ==> start < r.value < |text| && BalancedBefore(text, start, r.value + 1)
    ensures r.Some? ==> forall i | start < i <= r.value :: !BalancedBefore(text, start, i)
  {
    match r
    case None =>
      assert text[start..|text|] == text[start..];
      forall i | start < i <= |text| ensures !BalancedBefore(text, start, i) {
        QuietNeverBalances(text, start, |text|, i);
      }
    case Some(e) =>
      forall i | start < i <= e ensures !BalancedBefore(text, start, i) {
        QuietNeverBalances(text, start, e, i);
      }
      assert e != start;
      MatchBalances(text, start, e, e);
      assert text[start..e + 1] == text[start..e] + [text[e]];
      BracesAppend(START, text[start..e], [text[e]], '{');
      BracesAppend(START, text[start..e], [text[e]], '}');
      assert BalancedBefore(text, start, e + 1);
  }

  // ----- the match in terms of quotes, backslashes and braces alone -----

  /** The number of backslashes at the end of t. */
  ghost function Backslashes(t: string): nat {
    if t != [] && t[|t| - 1] == '\\' then 1 + Backslashes(t[..|t| - 1]) else 0
  }

  /** t ends inside a string: a quote opens one, and the next quote with an even number of
      backslashes before it closes it. */
  ghost predicate EndsInString(t: string) {
    t != [] &&
    var front := t[..|t| - 1];
    if t[|t| - 1] == '"' then !EndsInString(front) || Backslashes(front) % 2 == 1 else EndsInString(front)
  }

  /** The number of characters ch of t outside strings. */
  ghost function CountOutside(t: string, ch: char): nat {
    if t == [] then 0
    else
      var front := t[..|t| - 1];
      CountOutside(front, ch) + (if t[|t| - 1] == ch && !EndsInString(front) then 1 else 0)
  }

  /** At e there is a closing brace outside strings with which the braces from start on balance,
      or more of them close than open. */
  ghost predicate ClosesAt(text: string, start: nat, e: nat) {
    && start <= e < |text| && text[e] == '}' && !EndsInString(text[start..e])
    && CountOutside(text[start..e + 1], '{') <= CountOutside(text[start..e + 1], '}')
  }

  lemma RunPush(t: string, ch: char)
    ensures Run(START, t + [ch]) == Step(Run(START, t), ch)
    ensures forall c :: Braces(START, t + [ch], c)
                        == Braces(START, t, c) + (if !Run(START, t).inString && ch == c then 1 else 0)
  {
    RunAppend(START, t, [ch]);
    assert [ch][1..] == [];
    assert Run(Run(START, t), [ch]) == Run(Step(Run(START, t), ch), []);
    forall c ensures Braces(START, t + [ch], c)
                     == Braces(START, t, c) + (if !Run(START, t).inString && ch == c then 1 else 0) {
      BracesAppend(START, t, [ch], c);
      assert Braces(Step(Run(START, t), ch), [ch][1..], c) == 0;
    }
  }

  /** The scanner's string state is that of the text, and it is escaped after an odd number of
      backslashes. */
  lemma {:induction false} StateIsOfText(t: string)
    ensures Run(START, t).inString <==> EndsInString(t)
    ensures Run(START, t).escaped <==> EndsInString(t) && Backslashes(t) % 2 == 1
  {
    if t == [] {
    } else {
      var front, last := t[..|t| - 1], t[|t| - 1];
      StateIsOfText(front);
      RunPush(front, last);
      assert t == front + [last];
    }
  }

  lemma {:induction false} BracesAreOutside(t: string, ch: char)
    ensures Braces(START, t, ch) == CountOutside(t, ch)
  {
    if t == [] {
    } else {
      var front, last := t[..|t| - 1], t[|t| - 1];
      BracesAreOutside(front, ch);
      RunPush(front, last);
      StateIsOfText(front);
      assert t == front + [last];
    }
  }

  lemma {:induction false} QuietDepth(st: State, t: string)
    requires Quiet(st, t)
    ensures Run(st, t).depth == st.depth + Braces(st, t, '{') - Braces(st, t, '}')
    decreases |t|
  {
    if t == [] {
    } else {
      QuietDepth(Step(st, t[0]), t[1..]);
    }
  }

  lemma StopsWhereItCloses(text: string, start: nat, e: nat)
    requires start <= e < |text| && Quiet(START, text[start..e])
    ensures Stops(Run(START, text[start..e]), text[e]) <==> ClosesAt(text, start, e)
  {
    var t := text[start..e];
    QuietDepth(START, t);
    StateIsOfText(t);
    RunPush(t, text[e]);
    assert text[start..e + 1] == t + [text[e]];
    BracesAreOutside(t + [text[e]], '{');
    BracesAreOutside(t + [text[e]], '}');
  }

  lemma QuietNeverCloses(text: string, start: nat, end: nat, i: nat)
    requires start <= i < end <= |text| && Quiet(START, text[start..end])
    ensures !ClosesAt(text, start, i)
  {
    QuietUpTo(text, start, end, i);
    assert text[start..end] == text[start..i] + text[i..end];
    RunAppend(START, text[start..i], text[i..end]);
    StopsWhereItCloses(text, start, i);
  }

  /** From any position of any text, the result is the first closing brace outside strings at
      which no brace opened since is left open; there is none exactly when there is no result. */
  lemma MatchExactly(text: string, start: nat, r: Option<nat>)
    requires IsMatch(text, start, r)
    ensures r == None <==> forall i: nat :: !ClosesAt(text, start, i)
    ensures r.Some? ==> ClosesAt(text, start, r.value) && forall i: nat | i < r.value :: !ClosesAt(text, start, i)
  {
    match r
    case None =>
      forall i: nat ensures !ClosesAt(text, start, i) {
        if start <= i < |text| {
          assert text[start..|text|] == text[start..];
          QuietNeverCloses(text, start, |text|, i);
        }
      }
    case Some(e) =>
      StopsWhereItCloses(text, start, e);
      forall i: nat | i < e ensures !ClosesAt(text, start, i) {
        if start <= i {
          QuietNeverCloses(text, start, e, i);
        }
      }
  }
}
