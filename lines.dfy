/**
 * What one pass of cpp2/step1_read_print.cpp does with particular lines:
 * the quirks of the tokenizer, of `trim` and of the reader, each shown on a
 * whole line from the text to the value read (and the text printed).
 */
module Lines {
  import opened Types
  import opened Lexer
  import opened MalReader
  import opened Printer
  import opened Step1
  import opened RoundTrip

  /** The empty line is not an error: its one empty token reads as the empty symbol, printed as nothing. */
  lemma EmptyLine()
    ensures ReadLine("") == Ok(Atomic(Symbol("")))
    ensures Print(Atomic(Symbol(""))) == ""
  {
    MatchesAtEnd("");
  }

  /** The tokens of `,x`: the whole text, comma included, then the final empty match. */
  lemma CommaTokens(s: string, t: string)
    requires IsAtomText(t) && s == "," + t
    ensures TrimAll(Tokenize(s)) == [s, ""]
  {
    var ts := TokenTableExists(s);
    assert s[1..|s|] == t;
    RawToken(s, ts, 0, 1, t, |s|);
    assert s[0..|s|] == s;
    CommaTextTrims(s, t);
    TableAtEnd(s, ts);
  }

  lemma CommaTextTrims(s: string, t: string)
    requires IsAtomText(t) && s == "," + t
    ensures Trim(s) == s
  {
    assert s[|s| - 1] == t[|t| - 1];
    assert IsBareChar(t[|t| - 1]);
    TrimKeepsNonSpaceEnds(s);
  }

  /**
   * A comma is a separator to the tokenizer but not to `trim`: the match
   * `,x` keeps its comma, and `,x` reads as the symbol `,x` whatever `x` is.
   */
  lemma LeadingCommaKept(t: string)
    requires IsAtomText(t)
    ensures ReadLine("," + t) == Ok(Atomic(Symbol("," + t)))
  {
    var s := "," + t;
    CommaTokens(s, t);
    assert !IsDigits(s) by {
      assert !IsDigit(s[0]);
    }
  }

  /**
   * `read_form` decides on the first character of the whole match: a `(`
   * after a comma is not an opening bracket, so a line starting with `,(`
   * reads as the symbol `,(` whatever follows.
   */
  lemma CommaBeforeParen(rest: string)
    ensures ReadLine(",(" + rest) == Ok(Atomic(Symbol(",(")))
  {
    var s := ",(" + rest;
    var ts := TokenTableExists(s);
    assert s[1..2] == "(";
    RawToken(s, ts, 0, 1, "(", 2);
    assert s[0..2] == ",(";
    TrimKeepsNonSpaceEnds(",(");
    assert ts[0][0] == ",(";
    assert !IsDigits(",(") by {
      assert !IsDigit(',');
    }
  }

  /** The tokens of `(` and a printed form: the bracket, the form's tokens and the final empty match. */
  lemma OpenTokens(s: string, v: MalType)
    requires Readable(v) && s == "(" + PrintIntended(v)
    ensures TrimAll(Tokenize(s)) == ["("] + FormTokens(v) + [""]
  {
    var ts := TokenTableExists(s);
    OneToken(s, ts, 0, 0, "(", 1);
    assert s[1..|s|] == PrintIntended(v);
    PrintedTokens(s, ts, 1, 1, |s|, v);
    TableAtEnd(s, ts);
  }

  /** `read_form` on `(`, a form's tokens and the empty token: the list never closes. */
  lemma OpenParse(toks: seq<string>, v: MalType)
    requires Readable(v) && toks == ["("] + FormTokens(v) + [""]
    ensures ParseForm(toks, 0) == Failed(MissingToken)
  {
    var f := FormTokens(v);
    var end := 1 + |f|;
    assert toks[1..end] == f;
    ParseFormTokens(toks, 1, end, v);
    assert toks[end] == "" && end + 1 == |toks|;
    assert ParseForm(toks, end) == Parsed(Atomic(Symbol("")), end + 1);
    assert ParseList(toks, end) == Failed(MissingToken);
    FormTokensStart(v);
    assert ParseList(toks, 1) == Failed(MissingToken);
  }

  /**
   * A list left open is an error, not a shorter list: after the form the
   * reader takes the final empty token as one more element and then runs
   * out of tokens.
   */
  lemma UnclosedList(v: MalType)
    requires Readable(v)
    ensures ReadLine("(" + PrintIntended(v)) == Err(MissingToken)
  {
    OpenTokens("(" + PrintIntended(v), v);
    OpenParse(["("] + FormTokens(v) + [""], v);
  }

  /** Only the first form of a line is read; whatever follows it after a space is dropped. */
  lemma LaterFormsIgnored(v: MalType, rest: string)
    requires Readable(v)
    ensures ReadLine(PrintIntended(v) + " " + rest) == Ok(v)
  {
    var p := PrintIntended(v);
    var s := p + " " + rest;
    var ts := TokenTableExists(s);
    assert s[0..|p|] == p && s[|p|] == ' ';
    PrintedTokens(s, ts, 0, 0, |p|, v);
    var f := FormTokens(v);
    assert ts[0][0..|f|] == f;
    ParseFormTokens(ts[0], 0, |f|, v);
  }

  /** A negative integer prints with a minus sign, and that text reads back as a symbol. */
  lemma NegativeIntReadsAsSymbol(n: int64)
    requires n < 0
    ensures ReadLine(Print(Atomic(Int(n)))) == Ok(Atomic(Symbol(DecimalString(n))))
  {
    NegativeText(n);
    SymbolTextReads(DecimalString(n));
  }

  /** A line that is one atom text, not all digits, reads as the symbol with that text. */
  lemma SymbolTextReads(t: string)
    requires IsAtomText(t) && !IsDigits(t)
    ensures ReadLine(t) == Ok(Atomic(Symbol(t)))
  {
    LoneLexeme(t);
    assert TrimAll(Tokenize(t))[0] == t;
  }

  /** The text of a negative integer is an atom text that is not all digits. */
  lemma NegativeText(n: int64)
    requires n < 0
    ensures IsAtomText(DecimalString(n)) && !IsDigits(DecimalString(n))
  {
    var t := DecimalString(n);
    forall k | 0 <= k < |t| ensures IsBareChar(t[k]) {
      if k > 0 {
        assert t[k] == t[1..][k - 1];
        assert IsDigit(t[k]);
      }
    }
    assert !IsDigit(t[0]);
  }

  // Spacing is not kept: `(+  1   2)` reads as a three-element list that prints as `(+ 1 2)`.

  lemma SpacingTokensA(s: string, ts: seq<seq<string>>)
    requires s == "(+  1   2)" && TokenTable(s, ts)
    ensures ts[0] == ["(", "+"] + ts[2]
  {
    OneToken(s, ts, 0, 0, "(", 1);
    OneToken(s, ts, 1, 1, "+", 2);
  }

  lemma SpacingTokensB(s: string, ts: seq<seq<string>>)
    requires s == "(+  1   2)" && TokenTable(s, ts)
    ensures ts[2] == ["1", "2"] + ts[9]
  {
    OneToken(s, ts, 2, 4, "1", 5);
    OneToken(s, ts, 5, 8, "2", 9);
  }

  lemma SpacingTokensC(s: string, ts: seq<seq<string>>)
    requires s == "(+  1   2)" && TokenTable(s, ts)
    ensures ts[9] == [")", ""]
  {
    OneToken(s, ts, 9, 9, ")", 10);
    TableAtEnd(s, ts);
  }

  lemma SpacingTokens(s: string)
    requires s == "(+  1   2)"
    ensures TrimAll(Tokenize(s)) == ["(", "+", "1", "2", ")", ""]
  {
    var ts := TokenTableExists(s);
    SpacingTable(s, ts);
  }

  lemma SpacingTable(s: string, ts: seq<seq<string>>)
    requires s == "(+  1   2)" && TokenTable(s, ts)
    ensures ts[0] == ["(", "+", "1", "2", ")", ""]
  {
    SpacingTokensA(s, ts);
    SpacingTokensB(s, ts);
    SpacingTokensC(s, ts);
  }

  lemma SpacingTree()
    ensures var v := List([Atomic(Symbol("+")), Atomic(Int(1)), Atomic(Int(2))]);
            Readable(v) && FormTokens(v) == ["(", "+", "1", "2", ")"]
  {
    var v := List([Atomic(Symbol("+")), Atomic(Int(1)), Atomic(Int(2))]);
    var xs := v.items;
    assert IsAtomText("+") && !IsDigits("+") by {
      assert !IsDigit('+');
    }
    assert forall i :: 0 <= i < |xs| ==> Readable(xs[i]);
    assert DecimalString(1) == "1" && DecimalString(2) == "2";
    var cts := ChildTokens(xs);
    assert cts == [["+"], ["1"], ["2"]];
    FlattenCons(cts);
    FlattenCons(cts[1..]);
    FlattenCons(cts[2..]);
    assert cts[3..] == [];
    FormTokensList(xs);
  }

  lemma SpacingPrint()
    ensures Print(List([Atomic(Symbol("+")), Atomic(Int(1)), Atomic(Int(2))])) == "(+ 1 2)"
  {
    var xs := [Atomic(Symbol("+")), Atomic(Int(1)), Atomic(Int(2))];
    assert DecimalString(1) == "1" && DecimalString(2) == "2";
    var ps := seq(|xs|, i requires 0 <= i < |xs| => Print(xs[i]));
    assert ps == ["+", "1", "2"];
    assert Join(ps) == "+ 1 2" by {
      assert ps[1..] == ["1", "2"] && ps[1..][1..] == ["2"];
      assert Join(ps[1..][1..]) == "2";
      assert Join(ps[1..]) == "1 2";
    }
  }

  lemma SpacingRead(s: string)
    requires s == "(+  1   2)"
    ensures ReadLine(s) == Ok(List([Atomic(Symbol("+")), Atomic(Int(1)), Atomic(Int(2))]))
  {
    SpacingTokens(s);
    SpacingTree();
    var v := List([Atomic(Symbol("+")), Atomic(Int(1)), Atomic(Int(2))]);
    var toks := ["(", "+", "1", "2", ")", ""];
    assert toks[0..5] == FormTokens(v);
    ParseFormTokens(toks, 0, 5, v);
  }
}
