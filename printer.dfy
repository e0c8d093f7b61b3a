/**
 * `pr_str` of cpp2/printer.cpp: a symbol prints as its text, an integer in
 * decimal as `std::to_string` writes it, a list as `(`, its elements each
 * followed by a space, with the last character then overwritten by `)`.
 *
 * For an empty list the overwritten character is the `(` itself, so the
 * empty list prints as `)`. `Print` keeps that; `PrintIntended` is the
 * printer with `()` for the empty list.
 */
module Printer {
  import opened Types
  import opened Lexer

  function DigitChar(d: nat): (c: char)
    requires d < 10
    ensures IsDigit(c) && DigitValue(c) == d
  {
    (d + '0' as int) as char
  }

  /** The decimal digits of `n`, most significant first. */
  function NatDigits(n: nat): (s: string)
    ensures IsDigits(s)
    ensures s[0] == '0' ==> n == 0 && s == "0"
    ensures DecimalValue(s) == n
  {
    if n < 10 then [DigitChar(n)]
    else
      var s := NatDigits(n / 10) + [DigitChar(n % 10)];
      assert s[..|s| - 1] == NatDigits(n / 10);
      s
  }

  /**
   * `std::to_string` of a 64-bit integer: a minus sign exactly for negative
   * values, then the digits of the magnitude without leading zeros.
   */
  function DecimalString(n: int64): (s: string)
    ensures s != [] && (s[0] == '-' <==> n < 0)
    ensures n >= 0 ==> IsDigits(s) && DecimalValue(s) == n
    ensures n < 0 ==> IsDigits(s[1..]) && DecimalValue(s[1..]) == -(n as int) && s[1] != '0'
    ensures s[0] == '0' ==> s == "0"
  {
    if n < 0 then
      var s := "-" + NatDigits(-(n as int));
      assert s[1..] == NatDigits(-(n as int));
      s
    else NatDigits(n)
  }

  /** The text of an atom. */
  function PrintAtom(a: Atom): string {
    match a
    case Symbol(t) => t
    case Int(n) => DecimalString(n)
  }

  /** Strings separated by single spaces. */
  function Join(ps: seq<string>): string {
    if |ps| == 0 then ""
    else if |ps| == 1 then ps[0]
    else ps[0] + " " + Join(ps[1..])
  }

  /**
   * `pr_str` as written: an atom as its text; a list between brackets, but
   * the empty list as the single character `)`.
   */
  function Print(v: MalType): (s: string)
    ensures v.Atomic? ==> s == PrintAtom(v.atom)
    ensures v == List([]) ==> s == ")"
    ensures v.List? && v.items != [] ==> |s| >= 2 && s[0] == '(' && s[|s| - 1] == ')'
  {
    match v
    case Atomic(a) => PrintAtom(a)
    case List(xs) =>
      if xs == [] then ")"
      else "(" + Join(seq(|xs|, i requires 0 <= i < |xs| => Print(xs[i]))) + ")"
  }

  /** `pr_str` with the empty list printed as `()`: every list between brackets. */
  function PrintIntended(v: MalType): (s: string)
    ensures v.Atomic? ==> s == PrintAtom(v.atom)
    ensures v.List? ==> |s| >= 2 && s[0] == '(' && s[|s| - 1] == ')'
    ensures v == List([]) ==> s == "()"
  {
    match v
    case Atomic(a) => PrintAtom(a)
    case List(xs) => "(" + Join(seq(|xs|, i requires 0 <= i < |xs| => PrintIntended(xs[i]))) + ")"
  }

  /** The printed forms of `xs` in order. */
  function PrintAll(xs: seq<MalType>): (ps: seq<string>)
    ensures |ps| == |xs|
  {
    seq(|xs|, i requires 0 <= i < |xs| => Print(xs[i]))
  }

  /** The printed forms, each followed by a space, as the loop streams them. */
  function Terminated(ps: seq<string>): string {
    if ps == [] then "" else Terminated(ps[..|ps| - 1]) + ps[|ps| - 1] + " "
  }

  lemma {:induction false} JoinSnoc(ps: seq<string>, p: string)
    requires ps != []
    ensures Join(ps + [p]) == Join(ps) + " " + p
  {
    if |ps| > 1 {
      assert (ps + [p])[1..] == ps[1..] + [p];
      JoinSnoc(ps[1..], p);
    }
  }

  lemma {:induction false} TerminatedIsJoin(ps: seq<string>)
    requires ps != []
    ensures Terminated(ps) == Join(ps) + " "
  {
    if |ps| > 1 {
      var init := ps[..|ps| - 1];
      TerminatedIsJoin(init);
      JoinSnoc(init, ps[|ps| - 1]);
      assert init + [ps[|ps| - 1]] == ps;
    }
  }

  /**
   * `pr_str`: atoms by their text; a list by streaming `(` and each
   * element's text with a space after it, then overwriting the last
   * character with `)`.
   */
  method PrStr(v: MalType) returns (s: string)
    ensures s == Print(v)
    decreases v
  {
    match v
    case Atomic(Symbol(t)) =>
      s := t;
    case Atomic(Int(n)) =>
      s := DecimalString(n);
    case List(xs) =>
      var ss := "(";
      for i := 0 to |xs|
        invariant ss == "(" + Terminated(PrintAll(xs)[..i])
      {
        var p := PrStr(xs[i]);
        assert PrintAll(xs)[..i + 1][..i] == PrintAll(xs)[..i];
        ss := ss + p + " ";
      }
      assert PrintAll(xs)[..|xs|] == PrintAll(xs);
      if xs != [] {
        TerminatedIsJoin(PrintAll(xs));
      }
      s := ss[|ss| - 1 := ')']; // clobber trailing space
  }
}
