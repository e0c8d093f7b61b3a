/**
 * The token cursor and the recursive-descent reader of cpp2/Reader.h and
 * cpp2/Reader.cpp.
 *
 * The source never checks for the end of the tokens: `peek` and `next`
 * dereference the iterator unconditionally and `read_list` loops until it
 * sees a `)`. Reading past the last token is undefined behaviour there; the
 * model makes it the error `MissingToken`. `std::stoll`'s out-of-range
 * exception is caught nowhere and ends the program; the model makes it the
 * error `IntegerOutOfRange`. Either error stops the read of the line.
 */
module MalReader {
  import opened Types
  import opened Lexer

  datatype ReadError = MissingToken | IntegerOutOfRange(token: string)

  datatype Result<T> = Ok(value: T) | Err(error: ReadError)

  /** The result of reading from a token position: the value and the position after it. */
  datatype Parse<T> = Parsed(value: T, next: nat) | Failed(error: ReadError)

  /** The tokens as the `Reader` constructor leaves them: each one trimmed, in place. */
  function TrimAll(tokens: seq<string>): (r: seq<string>)
    ensures |r| == |tokens|
  {
    seq(|tokens|, i requires 0 <= i < |tokens| => Trim(tokens[i]))
  }

  // ---------------------------------------------------------------------------
  // class Reader (Reader.h:12-22, Reader.cpp:37-49)
  // ---------------------------------------------------------------------------

  /**
   * The cursor: its own copy of the tokens and the index of the current one
   * (the iterator `current_token`). The tokens are private and only `pos`
   * ever changes after construction.
   */
  class Reader {
    var content: seq<string>
    var pos: nat

    ghost predicate Valid()
      reads this
    {
      pos <= |content|
    }

    /** Copies the tokens, trims every one of them in place and points at the first. */
    constructor (input: seq<string>)
      ensures Valid()
      ensures content == TrimAll(input) && pos == 0
    {
      content := input;
      pos := 0;
      new;
      var i := 0;
      while i < |content|
        invariant 0 <= i <= |content| == |input|
        invariant forall k :: 0 <= k < i ==> content[k] == Trim(input[k])
        invariant forall k :: i <= k < |content| ==> content[k] == input[k]
        invariant pos == 0
      {
        var t := TrimToken(content[i]);
        content := content[i := t];
        i := i + 1;
      }
    }

    /** The current token; the cursor stays where it is. */
    method Peek() returns (t: string)
      requires Valid() && pos < |content|
      ensures t == content[pos]
    {
      t := content[pos];
    }

    /** The current token; the cursor moves past it. */
    method Next() returns (t: string)
      requires Valid() && pos < |content|
      modifies this`pos
      ensures Valid()
      ensures t == content[old(pos)] && pos == old(pos) + 1
    {
      t := content[pos];
      pos := pos + 1;
    }
  }

  /** `read_str`: tokenizes the line and builds a cursor over the tokens; it does not parse. */
  method ReadStr(input: string) returns (r: Reader)
    ensures fresh(r) && r.Valid()
    ensures r.content == TrimAll(Tokenize(input)) && r.pos == 0
  {
    r := new Reader(Tokenize(input));
  }

  // ---------------------------------------------------------------------------
  // read_form, read_list, read_atom (Reader.cpp:68-94) as functions of the
  // token list and the cursor position
  // ---------------------------------------------------------------------------

  /** `token[0]`: the first character, or the terminating NUL of an empty `std::string`. */
  function FirstChar(t: string): char {
    if t == [] then '\0' else t[0]
  }

  /**
   * `read_atom` on one token: an integer when the whole token matches
   * `[0-9]+` (an error when `stoll` finds it too large), otherwise a symbol
   * with the token's text.
   */
  function AtomOf(t: string): (r: Result<Atom>)
    ensures r.Ok? && r.value.Int? <==> IsDigits(t) && DecimalValue(t) <= Int64Max
    ensures r.Ok? && r.value.Int? ==> r.value.value as int == DecimalValue(t)
    ensures r.Ok? && r.value.Symbol? <==> !IsDigits(t)
    ensures r.Ok? && r.value.Symbol? ==> r.value.text == t
    ensures r.Err? <==> IsDigits(t) && DecimalValue(t) > Int64Max
    ensures r.Err? ==> r.error == IntegerOutOfRange(t)
  {
    if IsDigits(t) then
      var n := DecimalValue(t);
      if n <= Int64Max then Ok(Int(n)) else Err(IntegerOutOfRange(t))
    else
      Ok(Symbol(t))
  }

  function ParseAtom(tokens: seq<string>, pos: nat): (r: Parse<Atom>)
    requires pos <= |tokens|
    ensures r.Parsed? ==> r.next == pos + 1
  {
    if pos == |tokens| then Failed(MissingToken)
    else match AtomOf(tokens[pos])
      case Ok(a) => Parsed(a, pos + 1)
      case Err(e) => Failed(e)
  }

  /** `read_form`: a list when the current token starts with `(`, an atom otherwise. */
  function ParseForm(tokens: seq<string>, pos: nat): (r: Parse<MalType>)
    requires pos <= |tokens|
    ensures r.Parsed? ==> pos < r.next <= |tokens|
    decreases |tokens| - pos, 0
  {
    if pos == |tokens| then Failed(MissingToken)
    else if FirstChar(tokens[pos]) == '(' then
      match ParseList(tokens, pos + 1)
      case Parsed(xs, q) => Parsed(List(xs), q)
      case Failed(e) => Failed(e)
    else
      match ParseAtom(tokens, pos)
      case Parsed(a, q) => Parsed(Atomic(a), q)
      case Failed(e) => Failed(e)
  }

  /** `read_list`: forms in the order read, up to and including a token that starts with `)`. */
  function ParseList(tokens: seq<string>, pos: nat): (r: Parse<seq<MalType>>)
    requires pos <= |tokens|
    ensures r.Parsed? ==> pos < r.next <= |tokens|
    decreases |tokens| - pos, 1
  {
    if pos == |tokens| then Failed(MissingToken)
    else if FirstChar(tokens[pos]) == ')' then Parsed([], pos + 1)
    else
      match ParseForm(tokens, pos)
      case Failed(e) => Failed(e)
      case Parsed(x, q) =>
        match ParseList(tokens, q)
        case Parsed(xs, q') => Parsed([x] + xs, q')
        case Failed(e) => Failed(e)
  }

  /**
   * `read_form` decides on the first character of the current token alone:
   * a list exactly when it is `(`.
   */
  lemma FormShape(tokens: seq<string>, pos: nat)
    requires pos < |tokens| && ParseForm(tokens, pos).Parsed?
    ensures ParseForm(tokens, pos).value.List? <==> FirstChar(tokens[pos]) == '('
  {
  }

  /** `read_list` stops only after consuming a token that starts with `)`. */
  lemma {:induction false} ListEndsWithClose(tokens: seq<string>, pos: nat)
    requires pos <= |tokens| && ParseList(tokens, pos).Parsed?
    ensures FirstChar(tokens[ParseList(tokens, pos).next - 1]) == ')'
    decreases |tokens| - pos
  {
    if FirstChar(tokens[pos]) != ')' {
      var q := ParseForm(tokens, pos).next;
      ListEndsWithClose(tokens, q);
    }
  }

  /**
   * Reading a form looks at no token after the ones it consumes: tokens
   * appended after them change nothing, which is why the rest of a line
   * after its first form is ignored.
   */
  lemma {:induction false} FormIgnoresLaterTokens(tokens: seq<string>, more: seq<string>, pos: nat)
    requires pos <= |tokens| && ParseForm(tokens, pos).Parsed?
    ensures ParseForm(tokens + more, pos) == ParseForm(tokens, pos)
    decreases |tokens| - pos, 0
  {
    assert (tokens + more)[pos] == tokens[pos];
    if FirstChar(tokens[pos]) == '(' {
      ListIgnoresLaterTokens(tokens, more, pos + 1);
    }
  }

  lemma {:induction false} ListIgnoresLaterTokens(tokens: seq<string>, more: seq<string>, pos: nat)
    requires pos <= |tokens| && ParseList(tokens, pos).Parsed?
    ensures ParseList(tokens + more, pos) == ParseList(tokens, pos)
    decreases |tokens| - pos, 1
  {
    assert (tokens + more)[pos] == tokens[pos];
    if FirstChar(tokens[pos]) != ')' {
      FormIgnoresLaterTokens(tokens, more, pos);
      ListIgnoresLaterTokens(tokens, more, ParseForm(tokens, pos).next);
    }
  }

  /** A parse result seen as the result the reader's methods return. */
  function Outcome<T>(p: Parse<T>): Result<T> {
    match p
    case Parsed(v, _) => Ok(v)
    case Failed(e) => Err(e)
  }

  /** The elements read so far put in front of what the rest of the list parses to. */
  function Prepended(xs: seq<MalType>, p: Parse<seq<MalType>>): Parse<seq<MalType>> {
    match p
    case Parsed(ys, q) => Parsed(xs + ys, q)
    case Failed(e) => Failed(e)
  }

  lemma PrependedNothing(p: Parse<seq<MalType>>)
    ensures Prepended([], p) == p
  {
    if p.Parsed? {
      assert [] + p.value == p.value;
    }
  }

  lemma PrependedTwice(xs: seq<MalType>, ys: seq<MalType>, p: Parse<seq<MalType>>)
    ensures Prepended(xs, Prepended(ys, p)) == Prepended(xs + ys, p)
  {
    if p.Parsed? {
      assert xs + (ys + p.value) == (xs + ys) + p.value;
    }
  }

  // ---------------------------------------------------------------------------
  // read_form, read_list, read_atom (Reader.cpp:68-94) on the shared cursor
  // ---------------------------------------------------------------------------

  method ReadForm(r: Reader) returns (res: Result<MalType>)
    requires r.Valid()
    modifies r`pos
    ensures r.Valid()
    ensures res == Outcome(ParseForm(r.content, old(r.pos)))
    ensures res.Ok? ==> r.pos == ParseForm(r.content, old(r.pos)).next
    decreases |r.content| - r.pos, 0
  {
    if r.pos == |r.content| {
      return Err(MissingToken);
    }
    var t := r.Peek();
    if FirstChar(t) == '(' {
      t := r.Next();
      var lst := ReadList(r);
      res := match lst
        case Ok(xs) => Ok(List(xs))
        case Err(e) => Err(e);
    } else {
      var a := ReadAtom(r);
      res := match a
        case Ok(x) => Ok(Atomic(x))
        case Err(e) => Err(e);
    }
  }

  method ReadList(r: Reader) returns (res: Result<seq<MalType>>)
    requires r.Valid()
    modifies r`pos
    ensures r.Valid()
    ensures res == Outcome(ParseList(r.content, old(r.pos)))
    ensures res.Ok? ==> r.pos == ParseList(r.content, old(r.pos)).next
    decreases |r.content| - r.pos, 1
  {
    var lst: seq<MalType> := [];
    PrependedNothing(ParseList(r.content, r.pos));
    while true
      invariant r.Valid() && old(r.pos) <= r.pos
      invariant r.content == old(r.content)
      invariant ParseList(r.content, old(r.pos)) == Prepended(lst, ParseList(r.content, r.pos))
      decreases |r.content| - r.pos
    {
      if r.pos == |r.content| {
        return Err(MissingToken);
      }
      var t := r.Peek();
      if FirstChar(t) == ')' {
        break;
      }
      ghost var before := r.pos;
      var x := ReadForm(r);
      if x.Err? {
        return Err(x.error);
      }
      assert ParseList(r.content, before) == Prepended([x.value], ParseList(r.content, r.pos));
      PrependedTwice(lst, [x.value], ParseList(r.content, r.pos));
      lst := lst + [x.value];
    }
    // consume ")"
    var t := r.Next();
    assert lst + [] == lst;
    res := Ok(lst);
  }

  method ReadAtom(r: Reader) returns (res: Result<Atom>)
    requires r.Valid()
    modifies r`pos
    ensures r.Valid()
    ensures res == Outcome(ParseAtom(r.content, old(r.pos)))
    ensures res.Ok? ==> r.pos == old(r.pos) + 1
  {
    if r.pos == |r.content| {
      return Err(MissingToken);
    }
    var next := r.Next();
    res := AtomOf(next);
  }
}
