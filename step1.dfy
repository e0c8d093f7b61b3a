/**
 * `read`, `eval` and `print` of cpp2/step1_read_print.cpp: one line read as
 * its first form (later tokens are ignored), evaluated as itself, printed.
 * The loop around them that reads lines and writes the results is not part
 * of this model.
 */
module Step1 {
  import opened Types
  import opened Lexer
  import opened MalReader
  import Printer

  /** What `read` yields for a line: the first form of its trimmed tokens. */
  function ReadLine(line: string): Result<MalType> {
    Outcome(ParseForm(TrimAll(Tokenize(line)), 0))
  }

  /** `read`: builds the cursor with `read_str` and reads one form from it. */
  method Read(line: string) returns (res: Result<MalType>)
    ensures res == ReadLine(line)
  {
    var r := ReadStr(line);
    res := ReadForm(r);
  }

  /** `eval` at this step: the identity. */
  function Eval(v: MalType): (r: MalType)
    ensures r == v
  {
    v
  }

  /** One pass of the loop's body: `print(eval(read(line)))`, or the error that stopped `read`. */
  method Rep(line: string) returns (out: Result<string>)
    ensures ReadLine(line).Ok? ==> out == Ok(Printer.Print(ReadLine(line).value))
    ensures ReadLine(line).Err? ==> out == Err(ReadLine(line).error)
  {
    var v := Read(line);
    match v
    case Ok(x) =>
      var s := Printer.PrStr(Eval(x));
      out := Ok(s);
    case Err(e) =>
      out := Err(e);
  }
}
