// Operations on strings that the program takes from its standard library.

module Text {
  import opened Options

  /** The Unicode White_Space property, as `char::is_whitespace` reads it. */
  predicate IsWhitespace(c: char) {
    || '\U{9}' <= c <= '\U{D}'
    || c == ' '
    || c == '\U{85}'
    || c == '\U{A0}'
    || c == '\U{1680}'
    || '\U{2000}' <= c <= '\U{200A}'
    || c == '\U{2028}'
    || c == '\U{2029}'
    || c == '\U{202F}'
    || c == '\U{205F}'
    || c == '\U{3000}'
  }

  /** The 25 code points that have the property. */
  lemma WhitespaceListed(c: char)
    ensures IsWhitespace(c) <==> c as int in {
              0x09, 0x0A, 0x0B, 0x0C, 0x0D, 0x20, 0x85, 0xA0, 0x1680, 0x2000, 0x2001, 0x2002, 0x2003, 0x2004, 0x2005,
              0x2006, 0x2007, 0x2008, 0x2009, 0x200A, 0x2028, 0x2029, 0x202F, 0x205F, 0x3000}
  {
  }

  predicate WhitespaceFree(s: string) {
    forall i | 0 <= i < |s| :: !IsWhitespace(s[i])
  }

  function TrimStart(s: string): string {
    if s != [] && IsWhitespace(s[0]) then TrimStart(s[1..]) else s
  }

  function TrimEnd(s: string): string {
    if s != [] && IsWhitespace(s[|s| - 1]) then TrimEnd(s[..|s| - 1]) else s
  }

  function Trim(s: string): string {
    TrimEnd(TrimStart(s))
  }

  predicate AllWhitespace(s: string) {
    forall i | 0 <= i < |s| :: IsWhitespace(s[i])
  }

  lemma {:induction false} TrimStartDrops(s: string) returns (n: nat)
    ensures n <= |s| && TrimStart(s) == s[n..] && AllWhitespace(s[..n])
    ensures n < |s| ==> !IsWhitespace(s[n])
  {
    n := 0;
    if s != [] && IsWhitespace(s[0]) {
      var m := TrimStartDrops(s[1..]);
      n := m + 1;
      assert s[1..][m..] == s[n..];
      assert s[..n] == [s[0]] + s[1..][..m];
    }
  }

  lemma {:induction false} TrimEndDrops(s: string) returns (n: nat)
    ensures n <= |s| && TrimEnd(s) == s[..n] && AllWhitespace(s[n..])
    ensures n > 0 ==> !IsWhitespace(s[n - 1])
  {
    n := |s|;
    if s != [] && IsWhitespace(s[|s| - 1]) {
      n := TrimEndDrops(s[..|s| - 1]);
      assert s[..|s| - 1][..n] == s[..n];
      assert s[n..] == s[..|s| - 1][n..] + [s[|s| - 1]];
    }
  }

  /** Trimming takes away the longest blank prefix and suffix. */
  lemma TrimDrops(s: string) returns (lo: nat, hi: nat)
    ensures lo <= hi <= |s| && Trim(s) == s[lo..hi]
    ensures AllWhitespace(s[..lo]) && AllWhitespace(s[hi..])
    ensures lo < hi ==> !IsWhitespace(s[lo]) && !IsWhitespace(s[hi - 1])
  {
    lo := TrimStartDrops(s);
    var n := TrimEndDrops(s[lo..]);
    hi := lo + n;
    assert s[lo..][..n] == s[lo..hi] && s[lo..][n..] == s[hi..];
    if lo < hi {
      assert s[lo..][n - 1] == s[hi - 1];
    }
  }

  /** A string has only whitespace exactly when trimming leaves nothing. */
  lemma TrimsToNothing(s: string)
    ensures Trim(s) == "" <==> AllWhitespace(s)
  {
    var lo, hi := TrimDrops(s);
    if lo == hi {
      assert s == s[..lo] + s[hi..];
    }
  }

  lemma TrimNothing(s: string)
    requires s == [] || (!IsWhitespace(s[0]) && !IsWhitespace(s[|s| - 1]))
    ensures Trim(s) == s
  {
  }

  /** `split_once(sep)`: the text before and after the first separator. */
  function SplitOnce(s: string, sep: char): Option<(string, string)> {
    if s == [] then None
    else if s[0] == sep then Some(("", s[1..]))
    else
      match SplitOnce(s[1..], sep)
      case None => None
      case Some(parts) => Some(([s[0]] + parts.0, parts.1))
  }

  lemma {:induction false} SplitOnceAt(before: string, sep: char, after: string)
    requires sep !in before
    ensures SplitOnce(before + [sep] + after, sep) == Some((before, after))
  {
    var s := before + [sep] + after;
    if before == [] {
      assert before == "" && s[0] == sep && s[1..] == after;
    } else {
      SplitOnceAt(before[1..], sep, after);
      assert s[1..] == before[1..] + [sep] + after;
      assert [before[0]] + before[1..] == before;
    }
  }

  lemma {:induction false} SplitOnceParts(s: string, sep: char)
    requires SplitOnce(s, sep).Some?
    ensures var parts := SplitOnce(s, sep).value;
            s == parts.0 + [sep] + parts.1 && sep !in parts.0
  {
    if s[0] != sep {
      SplitOnceParts(s[1..], sep);
      assert s == [s[0]] + s[1..];
    }
  }

  lemma {:induction false} SplitOnceFails(s: string, sep: char)
    ensures SplitOnce(s, sep) == None <==> sep !in s
  {
    if s != [] {
      SplitOnceFails(s[1..], sep);
      assert s == [s[0]] + s[1..];
    }
  }

  /** The length of the leading run of non-whitespace. */
  function WordLength(s: string): (n: nat)
    ensures n <= |s| && WhitespaceFree(s[..n])
    ensures n < |s| ==> IsWhitespace(s[n])
  {
    if s == [] || IsWhitespace(s[0]) then 0 else 1 + WordLength(s[1..])
  }

  /** `split_whitespace`: the maximal runs of non-whitespace, in order. */
  function SplitWhitespace(s: string): (words: seq<string>)
    ensures forall i | 0 <= i < |words| :: words[i] != "" && WhitespaceFree(words[i])
    decreases |s|
  {
    if s == [] then []
    else if IsWhitespace(s[0]) then SplitWhitespace(s[1..])
    else [s[..WordLength(s)]] + SplitWhitespace(s[WordLength(s)..])
  }

  lemma {:induction false} WordLengthOf(word: string, rest: string)
    requires WhitespaceFree(word) && (rest == [] || IsWhitespace(rest[0]))
    ensures WordLength(word + rest) == |word|
  {
    if word == [] {
      assert word + rest == rest;
    } else {
      WordLengthOf(word[1..], rest);
      assert (word + rest)[1..] == word[1..] + rest;
    }
  }

  lemma SplitFirstWord(word: string, rest: string)
    requires word != "" && WhitespaceFree(word) && (rest == [] || IsWhitespace(rest[0]))
    ensures SplitWhitespace(word + rest) == [word] + SplitWhitespace(rest)
  {
    WordLengthOf(word, rest);
    assert (word + rest)[..|word|] == word && (word + rest)[|word|..] == rest;
  }

  /** A word and a blank in front of any text. */
  lemma SplitWordAndBlank(word: string, rest: string)
    requires word != "" && WhitespaceFree(word)
    ensures SplitWhitespace(word + (" " + rest)) == [word] + SplitWhitespace(rest)
  {
    SplitFirstWord(word, " " + rest);
    assert (" " + rest)[1..] == rest;
  }

  lemma {:induction false} SplitSkipsBlanks(blanks: string, rest: string)
    requires AllWhitespace(blanks)
    ensures SplitWhitespace(blanks + rest) == SplitWhitespace(rest)
  {
    if blanks == [] {
      assert blanks + rest == rest;
    } else {
      SplitSkipsBlanks(blanks[1..], rest);
      assert (blanks + rest)[1..] == blanks[1..] + rest;
    }
  }

  lemma SplitOneWord(word: string)
    requires word != "" && WhitespaceFree(word)
    ensures SplitWhitespace(word) == [word]
  {
    SplitFirstWord(word, "");
    assert word + "" == word;
  }
}
