/**
 * Reading printed text gives back the tree (cpp2/printer.cpp with
 * cpp2/Reader.cpp), for the trees whose printed atoms read back as
 * themselves: non-negative integers, and symbols that are non-empty bare
 * runs, not all digits, not starting with `~`, `^` or `@`.
 *
 * The proof follows the printed text through the tokenizer (each printed
 * atom, bracket and space becomes one match, with the space leading the
 * match after it and removed by `trim`) and then through the reader.
 */
module RoundTrip {
  import opened Types
  import opened Lexer
  import opened MalReader
  import opened Printer
  import opened Step1

  /** Text that the tokenizer takes as one bare match and `trim` leaves alone. */
  predicate IsAtomText(t: string) {
    && t != []
    && (forall k :: 0 <= k < |t| ==> IsBareChar(t[k]))
    && t[0] != '~' && t[0] != '^' && t[0] != '@'
  }

  /** Trees whose atoms print as text that reads back as the same atom. */
  predicate Readable(v: MalType) {
    match v
    case Atomic(Symbol(t)) => IsAtomText(t) && !IsDigits(t)
    case Atomic(Int(n)) => n >= 0
    case List(xs) => forall i :: 0 <= i < |xs| ==> Readable(xs[i])
  }

  /** Trees without an empty list anywhere. */
  predicate NoEmptyList(v: MalType) {
    match v
    case Atomic(_) => true
    case List(xs) => xs != [] && forall i :: 0 <= i < |xs| ==> NoEmptyList(xs[i])
  }

  /** The concatenation of a list of token lists. */
  function Flatten(tss: seq<seq<string>>): seq<string> {
    if tss == [] then [] else tss[0] + Flatten(tss[1..])
  }

  /** The trimmed tokens a readable tree prints as. */
  function FormTokens(v: MalType): seq<string> {
    match v
    case Atomic(a) => [PrintAtom(a)]
    case List(xs) => ["("] + Flatten(seq(|xs|, i requires 0 <= i < |xs| => FormTokens(xs[i]))) + [")"]
  }

  function ChildTokens(xs: seq<MalType>): (r: seq<seq<string>>)
    ensures |r| == |xs|
  {
    seq(|xs|, i requires 0 <= i < |xs| => FormTokens(xs[i]))
  }

  function ChildTexts(xs: seq<MalType>): (r: seq<string>)
    ensures |r| == |xs|
  {
    seq(|xs|, i requires 0 <= i < |xs| => PrintIntended(xs[i]))
  }

  /** Strings each preceded by one space. */
  function Spaced(ps: seq<string>): string {
    if ps == [] then "" else " " + ps[0] + Spaced(ps[1..])
  }

  /** The recursion measure of the mutual lemmas: a list outranks its own element positions. */
  function Width(v: MalType): nat {
    if v.List? then |v.items| + 3 else 0
  }

  lemma JoinIsHeadSpaced(ps: seq<string>)
    requires ps != []
    ensures Join(ps) == ps[0] + Spaced(ps[1..])
  {
    if |ps| > 1 {
      JoinIsHeadSpaced(ps[1..]);
      assert ps[1..][1..] == ps[2..];
    }
  }

  lemma PrintIntendedList(xs: seq<MalType>)
    ensures PrintIntended(List(xs)) == "(" + Join(ChildTexts(xs)) + ")"
  {
  }

  lemma FormTokensList(xs: seq<MalType>)
    ensures FormTokens(List(xs)) == ["("] + Flatten(ChildTokens(xs)) + [")"]
  {
  }

  lemma ReadableAtomText(a: Atom)
    requires Readable(Atomic(a))
    ensures IsAtomText(PrintAtom(a))
  {
    if a.Int? {
      var t := DecimalString(a.value);
      forall k | 0 <= k < |t| ensures IsBareChar(t[k]) {
        assert IsDigit(t[k]);
      }
      assert IsDigit(t[0]);
    }
  }

  lemma TrimAllAppend(a: seq<string>, b: seq<string>)
    ensures TrimAll(a + b) == TrimAll(a) + TrimAll(b)
  {
    var ab := a + b;
    var r := TrimAll(ab);
    var r' := TrimAll(a) + TrimAll(b);
    forall k | 0 <= k < |a| ensures r[k] == r'[k] {
      TrimAllAt(a, b, k);
    }
    forall k | |a| <= k < |ab| ensures r[k] == r'[k] {
      TrimAllAt(a, b, k);
    }
    assert |r| == |r'|;
  }

  lemma TrimAllAt(a: seq<string>, b: seq<string>, k: nat)
    requires k < |a| + |b|
    ensures TrimAll(a + b)[k] == (TrimAll(a) + TrimAll(b))[k]
  {
    if k < |a| {
      assert (a + b)[k] == a[k];
    } else {
      assert (a + b)[k] == b[k - |a|];
    }
  }

  lemma SliceSplit<T>(s: seq<T>, q: nat, a: seq<T>, b: seq<T>)
    requires q + |a| + |b| <= |s| && s[q..q + |a| + |b|] == a + b
    ensures s[q..q + |a|] == a && s[q + |a|..q + |a| + |b|] == b
  {
    var w := s[q..q + |a| + |b|];
    assert s[q..q + |a|] == w[..|a|];
    assert s[q + |a|..q + |a| + |b|] == w[|a|..];
  }

  /** A run ends where its characters stop. */
  lemma RunEndAt(s: string, p: nat, cls: RunClass, q: nat)
    requires p <= q <= |s|
    requires forall k :: p <= k < q ==> InRun(cls, s[k])
    requires q == |s| || !InRun(cls, s[q])
    ensures RunEnd(s, p, cls) == q
  {
  }

  /** A non-empty match contributes its trimmed text as the next token. */
  lemma MatchStep(s: string, p: nat)
    requires p <= |s| && p < MatchEnd(s, p)
    ensures TrimAll(Matches(s, p)) == [Trim(s[p..MatchEnd(s, p)])] + TrimAll(Matches(s, MatchEnd(s, p)))
  {
    var e := MatchEnd(s, p);
    var m := Matches(s, p);
    var rest := Matches(s, e);
    var t := s[p..e];
    MatchesStep(s, p);
    assert m == [t] + rest;
    TrimAllAppend([t], rest);
    assert TrimAll([t]) == [Trim(t)];
  }

  lemma LexemeOfBracket(s: string, q: nat)
    requires q < |s| && (s[q] == '(' || s[q] == ')')
    ensures LexemeEnd(s, q) == q + 1
  {
  }

  lemma LexemeOfAtomText(s: string, q: nat, e: nat)
    requires q <= e <= |s| && IsAtomText(s[q..e])
    requires e == |s| || s[e] == ' ' || s[e] == ')'
    ensures LexemeEnd(s, q) == e
  {
    var t := s[q..e];
    assert s[q] == t[0];
    assert forall k :: q <= k < e ==> s[k] == t[k - q];
    RunEndAt(s, q, Bare, e);
  }

  /**
   * One match from `p`: separators up to `q`, then the lexeme `t` ending at
   * `e`; its trimmed text is the next token.
   */
  lemma RawMatch(s: string, p: nat, q: nat, t: string, e: nat)
    requires p <= q && e == q + |t| && e <= |s|
    requires forall k :: p <= k < q ==> IsSeparator(s[k])
    requires s[q..e] == t
    requires IsAtomText(t) ==> e == |s| || s[e] == ' ' || s[e] == ')'
    requires IsAtomText(t) || t == "(" || t == ")"
    ensures TrimAll(Matches(s, p)) == [Trim(s[p..e])] + TrimAll(Matches(s, e))
  {
    assert s[q] == t[0];
    assert !IsSeparator(s[q]);
    RunEndAt(s, p, Separators, q);
    if IsAtomText(t) {
      LexemeOfAtomText(s, q, e);
    } else {
      LexemeOfBracket(s, q);
    }
    assert MatchEnd(s, p) == e;
    MatchStep(s, p);
  }

  /** Spaces before a text with non-space ends are exactly what `trim` removes. */
  lemma PaddedTextTrims(s: string, p: nat, q: nat, t: string, e: nat)
    requires p <= q && e == q + |t| && e <= |s|
    requires forall k :: p <= k < q ==> s[k] == ' '
    requires s[q..e] == t
    requires t == [] || (!IsSpace(t[0]) && !IsSpace(t[|t| - 1]))
    ensures Trim(s[p..e]) == t
  {
    var w := s[p..q];
    assert s[p..e] == w + t + [];
    TrimPadded(w, t, []);
  }

  lemma FlattenCons(tss: seq<seq<string>>)
    requires tss != []
    ensures Flatten(tss) == tss[0] + Flatten(tss[1..])
  {
  }

  /**
   * `ts[k]` is the list of trimmed matches from position `k` of `s` on. The
   * lemmas below reason about `ts` so that the scanner is unfolded only
   * where one match is taken.
   */
  ghost predicate TokenTable(s: string, ts: seq<seq<string>>) {
    && |ts| == |s| + 1
    && forall k {:trigger Matches(s, k)} :: 0 <= k <= |s| ==> ts[k] == TrimAll(Matches(s, k))
  }

  /** One match from `p`: spaces up to `b`, then the lexeme `t` from `b` to `e`. */
  lemma OneToken(s: string, ts: seq<seq<string>>, p: nat, b: nat, t: string, e: nat)
    requires TokenTable(s, ts)
    requires p <= b && e == b + |t| && e <= |s|
    requires forall k :: p <= k < b ==> s[k] == ' '
    requires s[b..e] == t
    requires IsAtomText(t) ==> e == |s| || s[e] == ' ' || s[e] == ')'
    requires IsAtomText(t) || t == "(" || t == ")"
    ensures ts[p] == [t] + ts[e]
  {
    RawMatch(s, p, b, t, e);
    LexemeEnds(t);
    PaddedTextTrims(s, p, b, t, e);
  }

  /** An atom text or a bracket neither starts nor ends with white space. */
  lemma LexemeEnds(t: string)
    requires IsAtomText(t) || t == "(" || t == ")"
    ensures t != [] && !IsSpace(t[0]) && !IsSpace(t[|t| - 1])
  {
    if IsAtomText(t) {
      assert IsBareChar(t[0]) && IsBareChar(t[|t| - 1]);
    }
  }

  /** One match from `p`: separators up to `q`, then the lexeme `t`; the token keeps what `trim` keeps. */
  lemma RawToken(s: string, ts: seq<seq<string>>, p: nat, q: nat, t: string, e: nat)
    requires TokenTable(s, ts)
    requires p <= q && e == q + |t| && e <= |s|
    requires forall k :: p <= k < q ==> IsSeparator(s[k])
    requires s[q..e] == t
    requires IsAtomText(t) ==> e == |s| || s[e] == ' ' || s[e] == ')'
    requires IsAtomText(t) || t == "(" || t == ")"
    ensures ts[p] == [Trim(s[p..e])] + ts[e]
  {
    RawMatch(s, p, q, t, e);
  }

  /** Where the brackets and the body of a printed list lie in the text. */
  lemma Bracketed(s: string, q: nat, b: string)
    requires q + |b| + 2 <= |s| && s[q..q + |b| + 2] == "(" + b + ")"
    ensures s[q..q + 1] == "(" && s[q + 1..q + 1 + |b|] == b && s[q + 1 + |b|..q + 2 + |b|] == ")"
  {
    SliceSplit(s, q, "(", b + ")");
    SliceSplit(s, q + 1, b, ")");
  }

  lemma SpacedStart(ps: seq<string>)
    ensures Spaced(ps) == [] || Spaced(ps)[0] == ' '
  {
  }

  /** Where the first element and the spaced rest lie in the body of a printed list. */
  lemma HeadThenSpaced(s: string, q: nat, h: string, r: string)
    requires q + |h| + |r| < |s| && s[q..q + |h| + |r|] == h + r && s[q + |h| + |r|] == ')'
    requires r == [] || r[0] == ' '
    ensures s[q..q + |h|] == h && s[q + |h|..q + |h| + |r|] == r
    ensures s[q + |h|] == ' ' || s[q + |h|] == ')'
  {
    SliceSplit(s, q, h, r);
    if r != [] {
      assert s[q + |h|] == s[q + |h|..q + |h| + |r|][0];
    }
  }

  /** Where the next spaced element and the rest lie in the text. */
  lemma SpacedLayout(s: string, q: nat, ps: seq<string>, i: nat)
    requires i < |ps|
    requires var r := Spaced(ps[i..]);
             q + |r| < |s| && s[q..q + |r|] == r && s[q + |r|] == ')'
    ensures var e := q + 1 + |ps[i]|;
            var r := Spaced(ps[i + 1..]);
            && s[q] == ' ' && s[q + 1..e] == ps[i]
            && e + |r| == q + |Spaced(ps[i..])| && s[e..e + |r|] == r
            && (s[e] == ' ' || s[e] == ')')
  {
    var rest := Spaced(ps[i + 1..]);
    assert ps[i..][1..] == ps[i + 1..];
    assert Spaced(ps[i..]) == " " + ps[i] + rest;
    SliceSplit(s, q, " " + ps[i], rest);
    SliceSplit(s, q, " ", ps[i]);
    var e := q + 1 + |ps[i]|;
    assert s[e] == (rest + ")")[0] by {
      assert s[e..e + |rest|] == rest;
    }
  }

  /**
   * Three consecutive stretches of tokens: `a` runs through `x` to `b`,
   * `b` through `y` to `c`, and `a` therefore through `x + y` to `c`.
   */
  lemma Chain(a: seq<string>, b: seq<string>, c: seq<string>, x: seq<string>, y: seq<string>)
    requires a == x + b && b == y + c
    ensures a == x + y + c
  {
  }

  /**
   * A printed form seen by the tokenizer: from `p`, an optional space, then
   * the form's text from `b` to `e`; the trimmed matches are its form tokens.
   */
  lemma {:induction false} PrintedTokens(s: string, ts: seq<seq<string>>, p: nat, b: nat, e: nat, v: MalType)
    requires TokenTable(s, ts) && Readable(v)
    requires p <= b <= p + 1 && e == b + |PrintIntended(v)| <= |s|
    requires b == p + 1 ==> s[p] == ' '
    requires s[b..e] == PrintIntended(v)
    requires v.Atomic? ==> e == |s| || s[e] == ' ' || s[e] == ')'
    ensures ts[p] == FormTokens(v) + ts[e]
    decreases v, Width(v)
  {
    match v
    case Atomic(a) =>
      ReadableAtomText(a);
      OneToken(s, ts, p, b, PrintAtom(a), e);
    case List(xs) =>
      PrintedListTokens(s, ts, p, b, e, v);
  }

  lemma {:induction false} PrintedListTokens(s: string, ts: seq<seq<string>>, p: nat, b: nat, e: nat, v: MalType)
    requires TokenTable(s, ts) && v.List? && Readable(v)
    requires p <= b <= p + 1 && e == b + |PrintIntended(v)| <= |s|
    requires b == p + 1 ==> s[p] == ' '
    requires s[b..e] == PrintIntended(v)
    ensures ts[p] == FormTokens(v) + ts[e]
    decreases v, |v.items| + 2
  {
    var body := Join(ChildTexts(v.items));
    PrintIntendedList(v.items);
    FormTokensList(v.items);
    Bracketed(s, b, body);
    var close := b + 1 + |body|;
    OneToken(s, ts, p, b, "(", b + 1);
    OneToken(s, ts, close, close, ")", e);
    BodyTokens(s, ts, b + 1, close, v);
    var f := Flatten(ChildTokens(v.items));
    Chain(ts[p], ts[b + 1], ts[close], ["("], f);
    Chain(ts[p], ts[close], ts[e], ["("] + f, [")"]);
  }

  /** The elements of a list printed between its brackets, from `q` to the `)` at `close`. */
  lemma {:induction false} BodyTokens(s: string, ts: seq<seq<string>>, q: nat, close: nat, v: MalType)
    requires TokenTable(s, ts) && v.List? && Readable(v)
    requires close == q + |Join(ChildTexts(v.items))| < |s|
    requires s[q..close] == Join(ChildTexts(v.items)) && s[close] == ')'
    ensures ts[q] == Flatten(ChildTokens(v.items)) + ts[close]
    decreases v, |v.items| + 1
  {
    var xs := v.items;
    var ps := ChildTexts(xs);
    var cts := ChildTokens(xs);
    if xs != [] {
      var e0 := q + |ps[0]|;
      BodyLayout(s, q, close, ps);
      assert ps[0] == PrintIntended(xs[0]);
      PrintedTokens(s, ts, q, q, e0, xs[0]);
      RestTokens(s, ts, e0, close, v, 1);
      FlattenCons(cts);
      Chain(ts[q], ts[e0], ts[close], cts[0], Flatten(cts[1..]));
    }
  }

  /** Where the first element and the spaced rest lie in the body of a printed list. */
  lemma BodyLayout(s: string, q: nat, close: nat, ps: seq<string>)
    requires ps != []
    requires close == q + |Join(ps)| < |s| && s[q..close] == Join(ps) && s[close] == ')'
    ensures var e0 := q + |ps[0]|;
            && s[q..e0] == ps[0]
            && close == e0 + |Spaced(ps[1..])| && s[e0..close] == Spaced(ps[1..])
            && (s[e0] == ' ' || s[e0] == ')')
  {
    JoinIsHeadSpaced(ps);
    SpacedStart(ps[1..]);
    HeadThenSpaced(s, q, ps[0], Spaced(ps[1..]));
  }

  /** The elements from index `i` on, each printed after a space, from `q` to the `)` at `close`. */
  lemma {:induction false} RestTokens(s: string, ts: seq<seq<string>>, q: nat, close: nat, v: MalType, i: nat)
    requires TokenTable(s, ts)
    requires v.List? && Readable(v) && i <= |v.items|
    requires close == q + |Spaced(ChildTexts(v.items)[i..])| < |s|
    requires s[q..close] == Spaced(ChildTexts(v.items)[i..]) && s[close] == ')'
    ensures ts[q] == Flatten(ChildTokens(v.items)[i..]) + ts[close]
    decreases v, |v.items| - i
  {
    var xs := v.items;
    var ps := ChildTexts(xs);
    var cts := ChildTokens(xs);
    if i == |xs| {
      assert ps[i..] == [];
      assert cts[i..] == [];
    } else {
      var e := q + 1 + |ps[i]|;
      SpacedLayout(s, q, ps, i);
      var x := xs[i];
      assert ps[i] == PrintIntended(x) && Readable(x);
      assert s[q + 1..e] == PrintIntended(x) && e == q + 1 + |PrintIntended(x)|;
      PrintedTokens(s, ts, q, q + 1, e, x);
      RestTokens(s, ts, e, close, v, i + 1);
      FlattenCons(cts[i..]);
      assert cts[i..][1..] == cts[i + 1..];
      Chain(ts[q], ts[e], ts[close], cts[i], Flatten(cts[i + 1..]));
    }
  }

  // ---------------------------------------------------------------------------
  // The reader on the tokens of a printed form
  // ---------------------------------------------------------------------------

  /** A form's tokens never start with `)`, so `read_list` does not stop at one. */
  lemma FormTokensStart(v: MalType)
    requires Readable(v)
    ensures FormTokens(v) != [] && FirstChar(FormTokens(v)[0]) != ')'
    ensures FirstChar(FormTokens(v)[0]) == '(' <==> v.List?
  {
    if v.Atomic? {
      ReadableAtomText(v.atom);
    }
  }

  /** `read_atom` on the printed text of a readable atom gives the atom back. */
  lemma AtomOfPrinted(a: Atom)
    requires Readable(Atomic(a))
    ensures AtomOf(PrintAtom(a)) == Ok(a)
  {
  }

  /** `read_form` on the tokens of a readable form, from `pos` to `end`, reads the form. */
  lemma {:induction false} ParseFormTokens(toks: seq<string>, pos: nat, end: nat, v: MalType)
    requires Readable(v)
    requires end == pos + |FormTokens(v)| <= |toks| && toks[pos..end] == FormTokens(v)
    ensures ParseForm(toks, pos) == Parsed(v, end)
    decreases v, Width(v)
  {
    FormTokensStart(v);
    assert toks[pos] == FormTokens(v)[0];
    match v
    case Atomic(a) =>
      AtomOfPrinted(a);
    case List(xs) =>
      ParseListTokens(toks, pos, end, v);
  }

  lemma {:induction false} ParseListTokens(toks: seq<string>, pos: nat, end: nat, v: MalType)
    requires v.List? && Readable(v)
    requires end == pos + |FormTokens(v)| <= |toks| && toks[pos..end] == FormTokens(v)
    ensures ParseForm(toks, pos) == Parsed(v, end)
    decreases v, Width(v) - 1
  {
    var xs := v.items;
    var f := Flatten(ChildTokens(xs));
    FormTokensList(xs);
    SliceSplit(toks, pos, ["("], f + [")"]);
    SliceSplit(toks, pos + 1, f, [")"]);
    assert FirstChar(toks[pos]) == '(';
    assert ChildTokens(xs)[0..] == ChildTokens(xs);
    ParseRest(toks, pos + 1, end - 1, v, 0);
    assert xs[0..] == xs;
  }

  /** `read_list` on the tokens of the elements from index `i` on and a `)` at `close`. */
  lemma {:induction false} ParseRest(toks: seq<string>, pos: nat, close: nat, v: MalType, i: nat)
    requires v.List? && Readable(v) && i <= |v.items|
    requires close == pos + |Flatten(ChildTokens(v.items)[i..])| < |toks|
    requires toks[pos..close] == Flatten(ChildTokens(v.items)[i..]) && toks[close] == ")"
    ensures ParseList(toks, pos) == Parsed(v.items[i..], close + 1)
    decreases v, |v.items| - i
  {
    var xs := v.items;
    var cts := ChildTokens(xs);
    if i == |xs| {
      assert cts[i..] == [] && pos == close;
      assert FirstChar(toks[pos]) == ')';
      assert xs[i..] == [];
    } else {
      var m := pos + |cts[i]|;
      FlattenCons(cts[i..]);
      assert cts[i..][1..] == cts[i + 1..];
      SliceSplit(toks, pos, cts[i], Flatten(cts[i + 1..]));
      FormTokensStart(xs[i]);
      assert toks[pos] == cts[i][0];
      ParseFormTokens(toks, pos, m, xs[i]);
      ParseRest(toks, m, close, v, i + 1);
      assert [xs[i]] + xs[i + 1..] == xs[i..];
    }
  }

  // ---------------------------------------------------------------------------
  // Printing, then reading
  // ---------------------------------------------------------------------------

  /** The table of trimmed matches from every position of `s`. */
  lemma TokenTableExists(s: string) returns (ts: seq<seq<string>>)
    ensures TokenTable(s, ts) && ts[0] == TrimAll(Tokenize(s))
  {
    ts := seq(|s| + 1, k requires 0 <= k <= |s| => TrimAll(Matches(s, k)));
  }

  /** The search at the end of the input finds only the final empty match. */
  lemma MatchesAtEnd(s: string)
    ensures TrimAll(Matches(s, |s|)) == [""]
  {
    OnlyEmptyMatchAtEnd(s);
    TrimAllNothing();
  }

  lemma TableAtEnd(s: string, ts: seq<seq<string>>)
    requires TokenTable(s, ts)
    ensures ts[|s|] == [""]
  {
    MatchesAtEnd(s);
  }

  lemma OnlyEmptyMatchAtEnd(s: string)
    ensures Matches(s, |s|) == [""]
  {
    assert MatchEnd(s, |s|) == |s|;
  }

  lemma TrimAllNothing()
    ensures TrimAll([""]) == [""]
  {
    TrimOfNothing();
  }

  lemma TrimOfNothing()
    ensures Trim("") == ""
  {
    assert TrimLeft("") == "";
  }

  /** Text printed by `PrintIntended` reads back as the tree it was printed from. */
  lemma RoundTripIntended(v: MalType)
    requires Readable(v)
    ensures ReadLine(PrintIntended(v)) == Ok(v)
  {
    PrintedLineTokens(PrintIntended(v), v);
    ParseLineTokens(FormTokens(v) + [""], v);
  }

  /** The whole printed line tokenizes as the form's tokens and the final empty match. */
  lemma PrintedLineTokens(s: string, v: MalType)
    requires Readable(v) && s == PrintIntended(v)
    ensures TrimAll(Tokenize(s)) == FormTokens(v) + [""]
  {
    var ts := TokenTableExists(s);
    PrintedTokens(s, ts, 0, 0, |s|, v);
    TableAtEnd(s, ts);
  }

  lemma ParseLineTokens(toks: seq<string>, v: MalType)
    requires Readable(v) && toks == FormTokens(v) + [""]
    ensures Outcome(ParseForm(toks, 0)) == Ok(v)
  {
    assert toks[0..|FormTokens(v)|] == FormTokens(v);
    ParseFormTokens(toks, 0, |FormTokens(v)|, v);
  }

  /** The printer as written and the intended one agree on trees without an empty list. */
  lemma {:induction false} PrintsAgree(v: MalType)
    requires NoEmptyList(v)
    ensures Print(v) == PrintIntended(v)
  {
    match v
    case Atomic(_) =>
    case List(xs) =>
      forall i | 0 <= i < |xs|
        ensures Print(xs[i]) == PrintIntended(xs[i])
      {
        PrintsAgree(xs[i]);
      }
      assert PrintAll(xs) == ChildTexts(xs);
  }

  /** `pr_str` output of a readable tree without an empty list reads back as that tree. */
  lemma RoundTrip(v: MalType)
    requires Readable(v) && NoEmptyList(v)
    ensures ReadLine(Print(v)) == Ok(v)
  {
    PrintsAgree(v);
    RoundTripIntended(v);
  }

  /** `pr_str` prints the empty list as `)`, which reads back as a symbol. */
  lemma EmptyListMisread()
    ensures Print(List([])) == ")"
    ensures ReadLine(Print(List([]))) == Ok(Atomic(Symbol(")")))
  {
    LoneCloseReads(Print(List([])));
  }

  lemma LoneCloseReads(s: string)
    requires s == ")"
    ensures ReadLine(s) == Ok(Atomic(Symbol(")")))
  {
    LoneLexeme(s);
    ParseLoneClose(TrimAll(Tokenize(s)));
  }

  lemma ParseLoneClose(toks: seq<string>)
    requires toks == [")", ""]
    ensures Outcome(ParseForm(toks, 0)) == Ok(Atomic(Symbol(")")))
  {
    assert FirstChar(toks[0]) == ')';
    assert !IsDigits(")") by {
      assert !IsDigit(')');
    }
    assert AtomOf(toks[0]) == Ok(Symbol(")"));
  }

  /** A line that is one bracket or one atom text tokenizes as that token and the final empty match. */
  lemma LoneLexeme(s: string)
    requires IsAtomText(s) || s == "(" || s == ")"
    ensures TrimAll(Tokenize(s)) == [s, ""]
  {
    var ts := TokenTableExists(s);
    OneToken(s, ts, 0, 0, s, |s|);
    MatchesAtEnd(s);
    assert ts[|s|] == [""];
    assert ts[0] == [s] + [""];
  }
}
