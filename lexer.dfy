/**
 * The lexical half of cpp2/Reader.cpp: whitespace trimming, the token
 * regular expression written out as a scanner, the tokenizer that collects
 * its successive matches, and the integer test with its decimal value.
 *
 * Characters stand for the bytes of a `std::string`; `isspace` and the
 * regular expression's `\s` are taken in the "C" locale.
 */
module Lexer {

  /** `isspace` in the "C" locale: space, tab, newline, vertical tab, form feed, carriage return. */
  predicate IsSpace(c: char) {
    c == ' ' || c == '\t' || c == '\n' || c == '\U{000B}' || c == '\U{000C}' || c == '\r'
  }

  // ---------------------------------------------------------------------------
  // trim, ltrim, rtrim (Reader.cpp:12-30)
  // ---------------------------------------------------------------------------

  /** What `ltrim` leaves: the suffix after the leading whitespace. */
  function TrimLeft(s: string): (t: string)
    ensures |t| <= |s| && t == s[|s| - |t|..]
    ensures forall k :: 0 <= k < |s| - |t| ==> IsSpace(s[k])
    ensures t == [] || !IsSpace(t[0])
  {
    if s != [] && IsSpace(s[0]) then TrimLeft(s[1..]) else s
  }

  /** What `rtrim` leaves: the prefix before the trailing whitespace. */
  function TrimRight(s: string): (t: string)
    ensures |t| <= |s| && t == s[..|t|]
    ensures forall k :: |t| <= k < |s| ==> IsSpace(s[k])
    ensures t == [] || !IsSpace(t[|t| - 1])
  {
    if s != [] && IsSpace(s[|s| - 1]) then TrimRight(s[..|s| - 1]) else s
  }

  /** What `trim` leaves: `ltrim` followed by `rtrim`. */
  function Trim(s: string): (t: string)
    ensures t == [] || (!IsSpace(t[0]) && !IsSpace(t[|t| - 1]))
  {
    TrimRight(TrimLeft(s))
  }

  /** Trimming cuts exactly a whitespace prefix and a whitespace suffix and keeps the interior verbatim. */
  lemma TrimIsInfix(s: string)
    ensures exists i, j :: 0 <= i <= j <= |s| && Trim(s) == s[i..j]
                           && (forall k :: 0 <= k < i ==> IsSpace(s[k]))
                           && (forall k :: j <= k < |s| ==> IsSpace(s[k]))
  {
    var i, j := TrimSlice(s);
  }

  /** Where the trimmed text lies in `s`: from `i` to `j`, with only whitespace outside. */
  lemma TrimSlice(s: string) returns (i: nat, j: nat)
    ensures 0 <= i <= j <= |s| && Trim(s) == s[i..j]
    ensures forall k :: 0 <= k < i ==> IsSpace(s[k])
    ensures forall k :: j <= k < |s| ==> IsSpace(s[k])
  {
    var u := TrimLeft(s);
    var t := TrimRight(u);
    i, j := SpacedSlice(s, u, t);
  }

  /**
   * A suffix `u` of `s` after whitespace, and a prefix `t` of `u` before
   * whitespace: `t` is a slice of `s` with only whitespace around it.
   */
  lemma SpacedSlice(s: string, u: string, t: string) returns (i: nat, j: nat)
    requires |u| <= |s| && u == s[|s| - |u|..]
    requires forall k :: 0 <= k < |s| - |u| ==> IsSpace(s[k])
    requires |t| <= |u| && t == u[..|t|]
    requires forall k :: |t| <= k < |u| ==> IsSpace(u[k])
    ensures 0 <= i <= j <= |s| && t == s[i..j]
    ensures forall k :: 0 <= k < i ==> IsSpace(s[k])
    ensures forall k :: j <= k < |s| ==> IsSpace(s[k])
  {
    i := |s| - |u|;
    j := i + |t|;
    forall k | j <= k < |s| ensures IsSpace(s[k]) {
      assert s[k] == u[k - i];
    }
  }

  /** Only whitespace is removed: a comma, or any other non-space character, at either end survives. */
  lemma TrimKeepsNonSpaceEnds(s: string)
    requires s != [] && !IsSpace(s[0]) && !IsSpace(s[|s| - 1])
    ensures Trim(s) == s
  {
  }

  /** Trimming a trimmed string changes nothing. */
  lemma TrimIdempotent(s: string)
    ensures Trim(Trim(s)) == Trim(s)
  {
    var t := Trim(s);
    if t != [] {
      TrimKeepsNonSpaceEnds(t);
    }
  }

  lemma {:induction false} TrimLeftPadded(w: string, v: string)
    requires forall k :: 0 <= k < |w| ==> IsSpace(w[k])
    requires v == [] || !IsSpace(v[0])
    ensures TrimLeft(w + v) == v
  {
    if w == [] {
      assert w + v == v;
    } else {
      assert (w + v)[0] == w[0];
      assert (w + v)[1..] == w[1..] + v;
      TrimLeftPadded(w[1..], v);
    }
  }

  lemma {:induction false} TrimRightPadded(v: string, z: string)
    requires forall k :: 0 <= k < |z| ==> IsSpace(z[k])
    requires v == [] || !IsSpace(v[|v| - 1])
    ensures TrimRight(v + z) == v
  {
    if z == [] {
      assert v + z == v;
    } else {
      assert (v + z)[|v + z| - 1] == z[|z| - 1];
      assert (v + z)[..|v + z| - 1] == v + z[..|z| - 1];
      TrimRightPadded(v, z[..|z| - 1]);
    }
  }

  /** Whitespace padding around a text with non-space ends is exactly what trimming removes. */
  lemma TrimPadded(w: string, t: string, z: string)
    requires forall k :: 0 <= k < |w| ==> IsSpace(w[k])
    requires forall k :: 0 <= k < |z| ==> IsSpace(z[k])
    requires t == [] || (!IsSpace(t[0]) && !IsSpace(t[|t| - 1]))
    ensures Trim(w + t + z) == t
  {
    if t == [] {
      assert w + t + z == w + z;
      TrimLeftPadded(w + z, []);
      assert w + z + [] == w + z;
    } else {
      assert w + t + z == w + (t + z);
      assert (t + z)[0] == t[0];
      TrimLeftPadded(w, t + z);
      TrimRightPadded(t, z);
    }
  }

  /**
   * `ltrim`: erases the characters before the first non-space one, which
   * `std::find_if` locates by scanning from the front.
   */
  method LTrim(s: string) returns (t: string)
    ensures t == TrimLeft(s)
  {
    var i := 0;
    while i < |s| && IsSpace(s[i])
      invariant 0 <= i <= |s|
      invariant TrimLeft(s[i..]) == TrimLeft(s)
    {
      assert s[i..][1..] == s[i + 1..];
      i := i + 1;
    }
    t := s[i..];
  }

  /**
   * `rtrim`: erases the characters after the last non-space one, which
   * `std::find_if` over the reverse iterators locates by scanning from the back.
   */
  method RTrim(s: string) returns (t: string)
    ensures t == TrimRight(s)
  {
    var j := |s|;
    while j > 0 && IsSpace(s[j - 1])
      invariant 0 <= j <= |s|
      invariant TrimRight(s[..j]) == TrimRight(s)
    {
      assert s[..j][..j - 1] == s[..j - 1];
      j := j - 1;
    }
    assert s[..|s|] == s;
    t := s[..j];
  }

  /** `trim`: `ltrim` then `rtrim` on the same string. */
  method TrimToken(s: string) returns (t: string)
    ensures t == Trim(s)
  {
    t := LTrim(s);
    t := RTrim(t);
  }

  // ---------------------------------------------------------------------------
  // token_regex (Reader.cpp:33-34), written out as a scanner
  //
  //   [\s,]*(~@|[\[\]{}()'`~^@]|"(?:\\.|[^\\"])*"|;.*|[^\s\[\]{}('"`,;)]*)
  //
  // The ECMAScript grammar tries the alternatives in order and the
  // quantifiers greedily, so the match at a position is: the longest run of
  // separators, then the first alternative that matches there.
  // ---------------------------------------------------------------------------

  /** `[\s,]`: characters that may precede a lexeme inside one match. */
  predicate IsSeparator(c: char) {
    IsSpace(c) || c == ','
  }

  /** `[\[\]{}()'`~^@]`: the single-character lexemes. */
  predicate IsSpecialChar(c: char) {
    c == '[' || c == ']' || c == '{' || c == '}' || c == '(' || c == ')'
    || c == '\'' || c == '`' || c == '~' || c == '^' || c == '@'
  }

  /** `[^\s\[\]{}('"`,;)]`: the characters of a bare run (symbols and numbers). */
  predicate IsBareChar(c: char) {
    !IsSpace(c) && c != '[' && c != ']' && c != '{' && c != '}' && c != '('
    && c != '\'' && c != '"' && c != '`' && c != ',' && c != ';' && c != ')'
  }

  /** The characters that `.` does not match in the ECMAScript grammar. */
  predicate IsLineTerminator(c: char) {
    c == '\n' || c == '\r'
  }

  /** The three character classes whose longest runs the scanner takes. */
  datatype RunClass = Separators | Bare | RestOfLine

  predicate InRun(cls: RunClass, c: char) {
    match cls
    case Separators => IsSeparator(c)
    case Bare => IsBareChar(c)
    case RestOfLine => !IsLineTerminator(c)
  }

  /** The end of the longest run of `cls` characters starting at `p`. */
  function RunEnd(s: string, p: nat, cls: RunClass): (q: nat)
    requires p <= |s|
    ensures p <= q <= |s|
    ensures forall k :: p <= k < q ==> InRun(cls, s[k])
    ensures q == |s| || !InRun(cls, s[q])
    decreases |s| - p
  {
    if p < |s| && InRun(cls, s[p]) then RunEnd(s, p + 1, cls) else p
  }

  /**
   * The body of a string literal, `(?:\\.|[^\\"])*`: a backslash with the
   * character after it, or any character but a backslash or a quote.
   */
  predicate IsStringBody(b: string)
    decreases |b|
  {
    || b == []
    || (b[0] == '\\' && |b| >= 2 && !IsLineTerminator(b[1]) && IsStringBody(b[2..]))
    || (b[0] != '\\' && b[0] != '"' && IsStringBody(b[1..]))
  }

  /**
   * Given the position just after an opening quote, the position just after
   * the closing quote, or None when the literal is not closed. Items of the
   * body are determined by their first character, so backtracking cannot
   * find any other closing quote.
   */
  function StringLiteralEnd(s: string, p: nat): (r: Option<nat>)
    requires p <= |s|
    ensures r.Some? ==> p < r.value <= |s| && s[r.value - 1] == '"' && IsStringBody(s[p..r.value - 1])
    ensures r.None? ==> forall q :: p <= q < |s| && s[q] == '"' ==> !IsStringBody(s[p..q])
    decreases |s| - p
  {
    if p == |s| then None
    else if s[p] == '"' then Some(p + 1)
    else if s[p] == '\\' then
      if p + 1 < |s| && !IsLineTerminator(s[p + 1]) then
        var r := StringLiteralEnd(s, p + 2);
        assert r.Some? ==> s[p..r.value - 1][2..] == s[p + 2..r.value - 1];
        assert forall q :: p + 2 <= q <= |s| ==> s[p..q][2..] == s[p + 2..q];
        r
      else
        None
    else
      var r := StringLiteralEnd(s, p + 1);
      assert r.Some? ==> s[p..r.value - 1][1..] == s[p + 1..r.value - 1];
      assert forall q :: p + 1 <= q <= |s| ==> s[p..q][1..] == s[p + 1..q];
      r
  }

  datatype Option<T> = None | Some(value: T)

  /** A `"…"` string literal with backslash escapes. */
  predicate IsStringLiteral(t: string) {
    |t| >= 2 && t[0] == '"' && t[|t| - 1] == '"' && IsStringBody(t[1..|t| - 1])
  }

  /** A `;` comment running to the end of the line. */
  predicate IsComment(t: string) {
    |t| >= 1 && t[0] == ';' && forall k :: 1 <= k < |t| ==> !IsLineTerminator(t[k])
  }

  /** The five alternatives of the token regex's group; the last one may be empty. */
  predicate IsLexeme(t: string) {
    || t == "~@"
    || (|t| == 1 && IsSpecialChar(t[0]))
    || IsStringLiteral(t)
    || IsComment(t)
    || forall k :: 0 <= k < |t| ==> IsBareChar(t[k])
  }

  /** A whole match of the token regex: a run of separators, then one lexeme. */
  ghost predicate IsMatch(t: string) {
    exists k :: 0 <= k <= |t| && (forall i :: 0 <= i < k ==> IsSeparator(t[i])) && IsLexeme(t[k..])
  }

  /** The end of the lexeme at `p`, trying the alternatives in the regex's order. */
  function LexemeEnd(s: string, p: nat): (e: nat)
    requires p <= |s|
    ensures p <= e <= |s|
    ensures IsLexeme(s[p..e])
    ensures e == p && p < |s| ==> s[p] == '"' || IsSeparator(s[p])
    // the alternatives are tried in order: `~@` before the single `~`
    ensures p + 1 < |s| && s[p] == '~' && s[p + 1] == '@' ==> e == p + 2
    ensures p < |s| && IsSpecialChar(s[p]) && !(p + 1 < |s| && s[p] == '~' && s[p + 1] == '@') ==> e == p + 1
    // a string literal up to its closing quote, or nothing when it is not closed
    ensures p < |s| && s[p] == '"' ==>
              e == (if StringLiteralEnd(s, p + 1).Some? then StringLiteralEnd(s, p + 1).value else p)
    // a comment runs to the end of the line, a bare run as far as it can
    ensures p < |s| && s[p] == ';' ==> p < e && IsComment(s[p..e]) && (e == |s| || IsLineTerminator(s[e]))
    ensures p < |s| && IsBareChar(s[p]) && !IsSpecialChar(s[p]) ==>
              p < e && (forall k :: p <= k < e ==> IsBareChar(s[k])) && (e == |s| || !IsBareChar(s[e]))
    // nothing matches at a separator or at the end
    ensures p == |s| || IsSeparator(s[p]) ==> e == p
  {
    if p + 1 < |s| && s[p] == '~' && s[p + 1] == '@' then
      assert s[p..p + 2] == "~@";
      p + 2
    else if p < |s| && IsSpecialChar(s[p]) then p + 1
    else if p < |s| && s[p] == '"' && StringLiteralEnd(s, p + 1).Some? then
      var e := StringLiteralEnd(s, p + 1).value;
      QuotedLexeme(s, p, e);
      e
    else if p < |s| && s[p] == ';' then
      CommentLexeme(s, p);
      RunEnd(s, p + 1, RestOfLine)
    else
      BareLexeme(s, p);
      RunEnd(s, p, Bare)
  }

  lemma QuotedLexeme(s: string, p: nat, e: nat)
    requires p < e <= |s| && s[p] == '"' && s[e - 1] == '"' && p + 1 < e
    requires IsStringBody(s[p + 1..e - 1])
    ensures IsStringLiteral(s[p..e])
  {
    var t := s[p..e];
    assert |t| == e - p;
    var b := t[1..|t| - 1];
    assert |b| == |s[p + 1..e - 1]|;
    forall k | 0 <= k < |b| ensures b[k] == s[p + 1..e - 1][k] {
      assert b[k] == t[k + 1] == s[p + 1 + k];
    }
    assert b == s[p + 1..e - 1];
    assert t[0] == '"' && t[|t| - 1] == s[e - 1];
  }

  lemma CommentLexeme(s: string, p: nat)
    requires p < |s| && s[p] == ';'
    ensures IsComment(s[p..RunEnd(s, p + 1, RestOfLine)])
  {
    var t := s[p..RunEnd(s, p + 1, RestOfLine)];
    forall k | 1 <= k < |t| ensures !IsLineTerminator(t[k]) {
      assert t[k] == s[p + k];
    }
  }

  lemma BareLexeme(s: string, p: nat)
    requires p <= |s|
    ensures var t := s[p..RunEnd(s, p, Bare)];
            forall k :: 0 <= k < |t| ==> IsBareChar(t[k])
  {
    var t := s[p..RunEnd(s, p, Bare)];
    forall k | 0 <= k < |t| ensures IsBareChar(t[k]) {
      assert t[k] == s[p + k];
    }
  }

  /** The end of the whole match of the token regex at `p`. */
  function MatchEnd(s: string, p: nat): (e: nat)
    requires p <= |s|
    ensures p <= e <= |s|
    ensures IsMatch(s[p..e])
    ensures e == p && p < |s| ==> s[p] == '"' && StringLiteralEnd(s, p + 1).None?
    // the lexeme starts after the longest run of separators
    ensures var q := RunEnd(s, p, Separators);
            (forall k :: p <= k < q ==> IsSeparator(s[k])) && (q == |s| || !IsSeparator(s[q]))
            && e == LexemeEnd(s, q)
  {
    var q := RunEnd(s, p, Separators);
    var e := LexemeEnd(s, q);
    assert IsMatch(s[p..e]) by {
      SeparatorsThenLexeme(s, p, q, e);
    }
    assert e == p && p < |s| ==> s[p] == '"' && StringLiteralEnd(s, p + 1).None? by {
      if e == p && p < |s| {
        EmptyMatchAtOpenQuote(s, p, q, e);
      }
    }
    e
  }

  lemma SeparatorsThenLexeme(s: string, p: nat, q: nat, e: nat)
    requires p <= |s| && q == RunEnd(s, p, Separators) && e == LexemeEnd(s, q)
    ensures IsMatch(s[p..e])
  {
    var t := s[p..e];
    assert t[q - p..] == s[q..e];
    forall i | 0 <= i < q - p ensures IsSeparator(t[i]) {
      assert t[i] == s[p + i];
    }
  }

  lemma EmptyMatchAtOpenQuote(s: string, p: nat, q: nat, e: nat)
    requires p < |s| && q == RunEnd(s, p, Separators) && e == LexemeEnd(s, q) && e == p
    ensures s[p] == '"' && StringLiteralEnd(s, p + 1).None?
  {
    assert q == p;
    assert !IsSeparator(s[p]);
  }

  // ---------------------------------------------------------------------------
  // tokenizer (Reader.cpp:51-62)
  // ---------------------------------------------------------------------------

  /**
   * The matches a `regex_iterator` visits from `p` on. A non-empty match
   * [p, e) is followed by a search from e. An empty match at the end of the
   * input is the last one; an empty match elsewhere (only an unclosed quote
   * gives one) admits no non-empty retry at the same place, so the search
   * resumes one character further and that character belongs to no match.
   */
  function Matches(s: string, p: nat): (r: seq<string>)
    requires p <= |s|
    ensures r != [] && r[|r| - 1] == ""
    ensures forall i :: 0 <= i < |r| ==> IsMatch(r[i])
    decreases |s| - p
  {
    var e := MatchEnd(s, p);
    if e > p then [s[p..e]] + Matches(s, e)
    else if p == |s| then [""]
    else [""] + Matches(s, p + 1)
  }

  /**
   * One step of the iterator: the first match from `p` is the leftmost
   * match there; after a non-empty one the search goes on from its end,
   * after an empty one inside the text from the next character, and the
   * empty match at the end of the text is the last.
   */
  lemma MatchesStep(s: string, p: nat)
    requires p <= |s|
    ensures var e := MatchEnd(s, p);
            var r := Matches(s, p);
            && r[0] == s[p..e]
            && (e > p ==> r[1..] == Matches(s, e))
            && (e == p && p < |s| ==> r[1..] == Matches(s, p + 1))
            && (p == |s| ==> r == [""])
  {
    var e := MatchEnd(s, p);
    if e > p {
      assert Matches(s, p) == [s[p..e]] + Matches(s, e);
    } else if p < |s| {
      assert Matches(s, p) == [""] + Matches(s, p + 1);
    } else {
      assert s[p..e] == "";
    }
  }

  /** `tokenizer`: every match of the token regex over the line, each with its leading separators. */
  function Tokenize(s: string): (r: seq<string>)
    ensures r != [] && r[|r| - 1] == ""
    ensures forall i :: 0 <= i < |r| ==> IsMatch(r[i])
  {
    Matches(s, 0)
  }

  /** The concatenation of a list of strings. */
  function Concat(ts: seq<string>): string {
    if ts == [] then "" else ts[0] + Concat(ts[1..])
  }

  /** A string with its double-quote characters deleted. */
  function WithoutQuotes(s: string): string {
    if s == [] then "" else (if s[0] == '"' then "" else [s[0]]) + WithoutQuotes(s[1..])
  }

  lemma {:induction false} WithoutQuotesAppend(a: string, b: string)
    ensures WithoutQuotes(a + b) == WithoutQuotes(a) + WithoutQuotes(b)
  {
    if a != [] {
      assert (a + b)[0] == a[0];
      assert (a + b)[1..] == a[1..] + b;
      WithoutQuotesAppend(a[1..], b);
    } else {
      assert a + b == b;
    }
  }

  lemma ConcatCons(t: string, ts: seq<string>)
    ensures Concat([t] + ts) == t + Concat(ts)
  {
    assert ([t] + ts)[1..] == ts;
  }

  /** A match [p, e) in front of matches that cover the rest, quotes aside, covers the text from p. */
  lemma CoverMatch(s: string, p: nat, e: nat, rest: seq<string>)
    requires p <= e <= |s| && WithoutQuotes(Concat(rest)) == WithoutQuotes(s[e..])
    ensures WithoutQuotes(Concat([s[p..e]] + rest)) == WithoutQuotes(s[p..])
  {
    ConcatCons(s[p..e], rest);
    WithoutQuotesAppend(s[p..e], Concat(rest));
    assert s[p..] == s[p..e] + s[e..];
    WithoutQuotesAppend(s[p..e], s[e..]);
  }

  /** The empty match at a skipped quote covers the quote, once quotes are deleted. */
  lemma CoverSkippedQuote(s: string, p: nat, rest: seq<string>)
    requires p < |s| && s[p] == '"' && WithoutQuotes(Concat(rest)) == WithoutQuotes(s[p + 1..])
    ensures WithoutQuotes(Concat([""] + rest)) == WithoutQuotes(s[p..])
  {
    ConcatCons("", rest);
    assert "" + Concat(rest) == Concat(rest);
    assert s[p..][0] == '"';
    assert s[p..][1..] == s[p + 1..];
  }

  lemma {:induction false} MatchesCoverInput(s: string, p: nat)
    requires p <= |s|
    ensures WithoutQuotes(Concat(Matches(s, p))) == WithoutQuotes(s[p..])
    decreases |s| - p
  {
    var e := MatchEnd(s, p);
    if e > p {
      assert Matches(s, p) == [s[p..e]] + Matches(s, e);
      MatchesCoverInput(s, e);
      CoverMatch(s, p, e, Matches(s, e));
    } else if p < |s| {
      assert Matches(s, p) == [""] + Matches(s, p + 1);
      MatchesCoverInput(s, p + 1);
      CoverSkippedQuote(s, p, Matches(s, p + 1));
    }
  }

  /**
   * The matches follow the input in order without overlap: concatenated,
   * they equal the line once every double quote is deleted from both.
   */
  lemma TokenizeCoversInput(s: string)
    ensures WithoutQuotes(Concat(Tokenize(s))) == WithoutQuotes(s)
  {
    MatchesCoverInput(s, 0);
    assert s[0..] == s;
  }

  lemma {:induction false} MatchesSpellInput(s: string, p: nat)
    requires p <= |s| && forall k :: p <= k < |s| ==> s[k] != '"'
    ensures Concat(Matches(s, p)) == s[p..]
    decreases |s| - p
  {
    var e := MatchEnd(s, p);
    if p < |s| {
      assert s[p] != '"';
      assert e > p;
      assert Matches(s, p) == [s[p..e]] + Matches(s, e);
      MatchesSpellInput(s, e);
      SpellMatch(s, p, e, Matches(s, e));
    } else {
      assert Matches(s, p) == [""];
      assert Concat([""]) == "" + Concat([]);
    }
  }

  /** A match [p, e) in front of matches that spell the rest spells the text from p. */
  lemma SpellMatch(s: string, p: nat, e: nat, rest: seq<string>)
    requires p <= e <= |s| && Concat(rest) == s[e..]
    ensures Concat([s[p..e]] + rest) == s[p..]
  {
    ConcatCons(s[p..e], rest);
    assert s[p..] == s[p..e] + s[e..];
  }

  /**
   * Without a double quote in the line nothing is skipped: the matches,
   * concatenated, spell out the line exactly.
   */
  lemma TokenizeSpellsInput(s: string)
    requires forall k :: 0 <= k < |s| ==> s[k] != '"'
    ensures Concat(Tokenize(s)) == s
  {
    MatchesSpellInput(s, 0);
    assert s[0..] == s;
  }

  // ---------------------------------------------------------------------------
  // number_regex (Reader.cpp:35) and std::stoll (Reader.cpp:90)
  // ---------------------------------------------------------------------------

  predicate IsDigit(c: char) {
    '0' <= c <= '9'
  }

  /** A full match of `[0-9]+`. */
  predicate IsDigits(t: string) {
    t != [] && forall k :: 0 <= k < |t| ==> IsDigit(t[k])
  }

  function DigitValue(c: char): nat
    requires IsDigit(c)
  {
    c as int - '0' as int
  }

  /** The decimal value of a digit string, as `stoll` reads it when it fits in 64 bits. */
  function DecimalValue(t: string): (n: nat)
    requires forall k :: 0 <= k < |t| ==> IsDigit(t[k])
    ensures n < Pow10(|t|)
  {
    if t == [] then 0 else DecimalValue(t[..|t| - 1]) * 10 + DigitValue(t[|t| - 1])
  }

  function Pow10(k: nat): (r: nat)
    ensures r >= 1
  {
    if k == 0 then 1 else 10 * Pow10(k - 1)
  }
}
