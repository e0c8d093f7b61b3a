# mal step 1 (C++): reader and printer

This project models the read/print core of the C++ ("cpp2") implementation of
step 1 of mal, a small Lisp. A line of text is split into matches of a token
regular expression. Each match is trimmed of surrounding whitespace, and a
recursive-descent reader builds a tree of symbols, 64-bit integers and lists
from the first form of the line. The printer renders a tree back to text.

Modules:

- `Types` (types.dfy): the value tree. `Atom` is a symbol or an `int64`, and
  `MalType` is an atom or a list of values.
- `Lexer` (lexer.dfy):
  - `trim`, `ltrim` and `rtrim`, each as a function and as a method that
    scans the way `std::find_if` does;
  - the token regular expression written out as a scanner (longest
    separator run, then the first alternative that matches);
  - the tokenizer, as the list of successive `regex_iterator` matches;
  - the `[0-9]+` test and the value `stoll` gives.
- `MalReader` (reader.dfy):
  - the `Reader` cursor class (its tokens and an index);
  - `read_str`;
  - `read_form`, `read_list` and `read_atom` as methods on the shared
    cursor. Each is proved equal to a function of the token list and the
    position.
- `Printer` (printer.dfy): `pr_str`. It is written as the method that
  streams the elements and overwrites the last character. `Print` is the
  function the method is proved against.
- `Step1` (step1.dfy): `read`, `eval` and `print` composed for one line.
- `RoundTrip` (roundtrip.dfy): reading printed text gives back the tree.
- `Lines` (lines.dfy): what whole lines read as, one lemma per quirk of the
  tokenizer, `trim` and the reader.

Behaviour taken from the code:

- Every token list ends with an empty match. The regular expression's last
  alternative can match nothing, and the iterator reports that empty match
  at the end of the input. So the empty line gives one empty token, which
  reads as the empty symbol. It is not an error and not "no input".
- An unclosed `"` gives an empty match. The iterator then skips that one
  character.
- `trim` removes whitespace only, never commas. Commas are therefore
  insignificant only where whitespace also separates: `,x` reads as the
  symbol `,x`, and `,(` is a symbol, not an opening bracket.
- Running out of tokens is undefined behaviour in the source, because
  `peek` and `next` do not check. The model turns it into the error
  `MissingToken`, which stops the read. An unclosed list is therefore an
  error. It is not replaced by an empty list.
- `stoll` throwing on a digit string too large for 64 bits becomes the error
  `IntegerOutOfRange`.
- Only the first form of a line is read; the rest is ignored.

## Model

| member | source | states |
|---|---|---|
| Lexer.TrimLeft | cpp2/Reader.cpp:12-16 | what `ltrim` leaves is a suffix of the input, everything removed is whitespace, and it is empty or starts with a non-space |
| Lexer.TrimRight | cpp2/Reader.cpp:18-24 | what `rtrim` leaves is a prefix of the input, everything removed is whitespace, and it is empty or ends with a non-space |
| Lexer.Trim | cpp2/Reader.cpp:26-30 | a trimmed token neither starts nor ends with whitespace |
| Lexer.TrimIsInfix | cpp2/Reader.cpp:26-30 | `trim` cuts exactly a whitespace prefix and a whitespace suffix and keeps the interior verbatim |
| Lexer.TrimKeepsNonSpaceEnds | cpp2/Reader.cpp:26-30 | a string whose ends are not whitespace (a comma, say) is left unchanged |
| Lexer.TrimIdempotent | cpp2/Reader.cpp:26-30 | trimming twice is trimming once |
| Lexer.TrimPadded | cpp2/Reader.cpp:26-30 | whitespace padding around a text with non-space ends is exactly what `trim` removes |
| Lexer.LTrim | cpp2/Reader.cpp:13-16 | the front-to-back scan for the first non-space erases exactly the leading whitespace |
| Lexer.RTrim | cpp2/Reader.cpp:19-24 | the back-to-front scan for the last non-space erases exactly the trailing whitespace |
| Lexer.TrimToken | cpp2/Reader.cpp:27-30 | `ltrim` then `rtrim` in place gives the trimmed token |
| Lexer.RunEnd | cpp2/Reader.cpp:33-34 | a greedy character-class loop stops at the end of the longest run |
| Lexer.StringLiteralEnd | cpp2/Reader.cpp:33-34 | a closing quote is found exactly when some prefix is a valid escaped string body ending at a quote, and then the body is valid |
| Lexer.LexemeEnd | cpp2/Reader.cpp:33-34 | the group takes the first alternative that matches: `~@` before `~`; one special character; a string literal up to its closing quote, or nothing when the quote is unclosed; a comment up to the line terminator or the end; otherwise the longest bare run, which is empty only at a separator or the end |
| Lexer.MatchEnd | cpp2/Reader.cpp:33-34 | a match is the longest separator run followed by the lexeme at its end, and it is empty only at an unclosed quote or at the end of the input |
| Lexer.Matches | cpp2/Reader.cpp:51-53 | the iterator's matches are each a whole match of the token expression, and the last is the empty match at the end of input |
| Lexer.MatchesStep | cpp2/Reader.cpp:51-53 | each step of the iterator takes the match at the current position and resumes after it, or one character later after an empty match at an unclosed quote; at the end it gives only the empty match |
| Lexer.Tokenize | cpp2/Reader.cpp:51-62 | the tokens of a line are whole matches of the token expression, and the last is the empty match at the end |
| Lexer.TokenizeCoversInput | cpp2/Reader.cpp:51-53 | the tokens follow the line in order without overlap: the concatenated tokens and the line are equal once every double quote is deleted from both |
| Lexer.TokenizeSpellsInput | cpp2/Reader.cpp:51-53 | on a line without a double quote, the concatenated tokens are exactly the line |
| MalReader.Reader.constructor | cpp2/Reader.cpp:37-42 | the cursor holds the tokens in the same number and order, each trimmed, and points at the first |
| MalReader.Reader.Peek | cpp2/Reader.cpp:47-49 | `peek` returns the current token and does not move |
| MalReader.Reader.Next | cpp2/Reader.cpp:43-45 | `next` returns the current token and advances by exactly one |
| MalReader.ReadStr | cpp2/Reader.cpp:64-66 | `read_str` builds a fresh cursor over the trimmed tokens of the line at position 0 and parses nothing |
| MalReader.AtomOf | cpp2/Reader.cpp:87-94 | a token is an integer exactly when it is all digits and fits in 64 bits, with its decimal value; an error exactly when all digits and too large; otherwise a symbol with the same text |
| MalReader.ParseAtom | cpp2/Reader.cpp:87-94 | `read_atom` consumes exactly one token |
| MalReader.ParseForm | cpp2/Reader.cpp:68-75 | every successful `read_form` consumes at least one token and stays within the tokens |
| MalReader.ParseList | cpp2/Reader.cpp:77-85 | every successful `read_list` consumes at least one token and stays within the tokens |
| MalReader.FormShape | cpp2/Reader.cpp:68-75 | `read_form` yields a list exactly when the current token's first character is `(` |
| MalReader.ListEndsWithClose | cpp2/Reader.cpp:79-83 | `read_list` stops only after consuming a token whose first character is `)` |
| MalReader.FormIgnoresLaterTokens | cpp2/Reader.cpp:68-75 | tokens after those a form consumes do not change what `read_form` reads |
| MalReader.ListIgnoresLaterTokens | cpp2/Reader.cpp:77-85 | tokens after those a list consumes do not change what `read_list` reads |
| MalReader.ReadForm | cpp2/Reader.cpp:68-75 | on the shared cursor, `read_form` returns what the parse of the tokens from the old position gives and leaves the cursor after it |
| MalReader.ReadList | cpp2/Reader.cpp:77-85 | the `while` loop collects the forms in order up to the `)` and consumes it |
| MalReader.ReadAtom | cpp2/Reader.cpp:87-94 | `read_atom` on the cursor classifies the current token and advances by one |
| Printer.NatDigits | cpp2/printer.cpp:8 | the digits of a natural number have no leading zero and denote that number |
| Printer.DecimalString | cpp2/printer.cpp:8 | `std::to_string` puts `-` exactly before negatives, then the magnitude in digits without leading zeros (`0` for zero) |
| Printer.TerminatedIsJoin | cpp2/printer.cpp:12-14 | streaming each element followed by a space is the elements joined by single spaces, plus one space |
| Printer.Print | cpp2/printer.cpp:5-19 | an atom prints as its text; a non-empty list prints between `(` and `)`; the empty list prints as `)` |
| Printer.PrintIntended | cpp2/printer.cpp:5-19 | the corrected printer: an atom prints as its text, and every list, the empty one as `()`, prints between `(` and `)` |
| Printer.PrStr | cpp2/printer.cpp:5-19 | the recursive streaming printer with the final overwrite produces `Print` of the tree |
| Step1.Read | cpp2/step1_read_print.cpp:13-16 | `read` is `read_form` on a fresh cursor over the line |
| Step1.Eval | cpp2/step1_read_print.cpp:18-20 | `eval` returns its argument unchanged |
| Step1.Rep | cpp2/step1_read_print.cpp:36 | one pass prints the value read from the line, evaluated as itself, or stops with the reader's error |
| RoundTrip.LoneLexeme | cpp2/Reader.cpp:33-34 | a line that is one bracket or one bare atom text tokenizes as that token and the final empty match |
| RoundTrip.PrintedTokens | cpp2/Reader.cpp:51-53 | the intended printed text of a readable tree tokenizes, after trimming, to the tree's own tokens |
| RoundTrip.ParseFormTokens | cpp2/Reader.cpp:68-94 | `read_form` on the tokens of a readable tree reads that tree and consumes exactly its tokens |
| RoundTrip.AtomOfPrinted | cpp2/Reader.cpp:87-94 | a readable atom's printed text reads back as that atom |
| RoundTrip.RoundTripIntended | cpp2/printer.cpp:5-19 | reading what the corrected printer prints gives back every readable tree, the empty list included |
| RoundTrip.PrintsAgree | cpp2/printer.cpp:9-18 | the printer as written and the corrected one agree on trees without an empty list |
| RoundTrip.RoundTrip | cpp2/printer.cpp:5-19 | reading what `pr_str` prints gives back every readable tree without an empty list |
| RoundTrip.PrintedLineTokens | cpp2/Reader.cpp:51-62 | the intended printed text of a readable tree, as a whole line, tokenizes to the tree's tokens and the final empty match |
| RoundTrip.EmptyListMisread | cpp2/printer.cpp:15-16 | the empty list prints as `)`, and that text reads back as the symbol `)` |
| Lines.EmptyLine | cpp2/step1_read_print.cpp:13-16 | the empty line reads as the empty symbol, which prints as nothing |
| Lines.LeadingCommaKept | cpp2/Reader.cpp:37-41 | a comma before an atom text stays in the trimmed token, so `,x` reads as the symbol `,x` |
| Lines.CommaBeforeParen | cpp2/Reader.cpp:68-75 | a line starting with `,(` reads as the symbol `,(`, whatever follows |
| Lines.UnclosedList | cpp2/Reader.cpp:77-85 | `(` followed by a printed form runs out of tokens and is an error, not a shorter list |
| Lines.OpenParse | cpp2/Reader.cpp:77-85 | the reader takes the final empty token as one more element of an open list and then runs out |
| Lines.LaterFormsIgnored | cpp2/step1_read_print.cpp:13-16 | a line that starts with a printed readable form and a space reads as that form, whatever follows |
| Lines.NegativeIntReadsAsSymbol | cpp2/Reader.cpp:87-94 | a negative integer prints with `-`, and that text reads back as a symbol, not an integer |
| Lines.SpacingRead | cpp2/Reader.cpp:33-34 | `(+  1   2)` reads as the list of `+`, 1 and 2 |
| Lines.SpacingPrint | cpp2/printer.cpp:9-17 | that list prints as `(+ 1 2)`: the original spacing is not reproduced |

The round trip holds for the "readable" trees. In these:

- integers are non-negative;
- symbols are non-empty runs of characters the bare-run alternative takes;
- symbols are not all digits and do not start with `~`, `^` or `@`.

## Findings

| source | as written | input that shows it | evidently intended | confidence | as-written member | corrected member |
|---|---|---|---|---|---|---|
| cpp2/printer.cpp:15-16 | the last character of the stream is overwritten with `)`; for an empty list that character is the `(` | the empty list prints as `)`, which reads back as the symbol `)` | the empty list prints as `()`, and printed text reads back as the tree | not executed | RoundTrip.EmptyListMisread | RoundTrip.RoundTripIntended |

`Printer.Print` is the printer as written and `Printer.PrintIntended` the
corrected one. `Step1.Rep` and `Printer.PrStr` keep the as-written behaviour.

## Left out

- The debug helpers in cpp2/debug.h are not part of this model. They are
  macros writing to the error stream and type-name demangling, with no
  effect on the result.
- The loop of `main` (prompt, `getline`, writing to `cout`) is input and
  output; `Step1.Rep` models one pass of its body.
- The tokenizer's echo of the tokens to `std::cout` is output only.
- `std::regex` itself is not modelled. The token expression is written out
  as a scanner under ECMAScript leftmost-first rules, and the iterator's
  handling of empty matches is written out explicitly. The combined
  `ECMAScript | extended` flags are taken to mean ECMAScript grammar.
- `isspace` and `\s` use the fixed set space, tab, newline, vertical tab,
  form feed and carriage return. Locales are not modelled, and characters
  stand for bytes.
- `mapbox::variant` and its `match` are replaced by Dafny datatypes and
  `match`. The bodies of `symbol(string)` and `symbol::str()` are not part
  of this model; the text is taken to be kept verbatim.
- MalReader.Reader.Peek: its precondition `pos < |content|` replaces the
  undefined behaviour of dereferencing the end iterator. `ReadForm`,
  `ReadList` and `ReadAtom` check first and return `MissingToken` instead.
- MalReader.Reader.Next: the same precondition replaces the undefined
  behaviour of reading and incrementing past the end.
- `ltrim` and `rtrim` erase inside one string in place. The model returns the
  new string instead. The constructor replaces each token in its sequence
  field.
- Exceptions are not modelled. `stoll` throws `std::out_of_range` on a digit
  string too large for 64 bits, and nothing catches it (`main` has no `try`),
  so the whole program terminates. The model returns the error
  `IntegerOutOfRange` for that line instead.
- `MissingToken` is not an exception of the source: it stands for the
  undefined behaviour of reading past the last token.
- `Reader` is copied by value in `read_str`, with an iterator into the
  copied vector. This lifetime detail is not modelled; the cursor is an index.
- RoundTrip.RoundTrip: stated only for readable trees without an empty list.
  Other trees do not read back: symbols with spaces, brackets or commas,
  negative integers, and the empty list under the printer as written.
