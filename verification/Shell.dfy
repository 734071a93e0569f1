/** Reading a command line the way a POSIX shell does, as far as quoting goes, and
    shellArg of internal/cli/configcmd.go, which writes one word of it.

    The reader is sections 2.2.1 and 2.2.2 of the Shell Command Language in
    IEEE Std 1003.1: backslash outside quotes, and single quotes. Any other character
    that could mean more than itself makes the line unreadable, so a line this reader
    accepts is one where quote removal is all the shell does. */
module Shell {
  import opened Strings

  /** The word being read: none, outside quotes, or inside single quotes. */
  datatype Word = NoWord | Open(text: string) | Quoted(text: string)

  datatype Lexed = Unreadable | Words(words: seq<string>)

  /** Characters that can mean more than themselves outside quotes. */
  predicate Special(c: char) {
    || c == '|' || c == '&' || c == ';' || c == '<' || c == '>' || c == '(' || c == ')' || c == '$' || c == '`'
    || c == '"' || c == '*' || c == '?' || c == '[' || c == ']' || c == '#' || c == '~' || c == '\n'
    || c == '{' || c == '}' || c == '!' || c == '^'
  }

  function TextOf(word: Word): string {
    if word.NoWord? then "" else word.text
  }

  function Lex(s: string, word: Word, done: seq<string>): Lexed
    decreases |s|
  {
    if word.Quoted? then
      if s == "" then Unreadable
      else if s[0] == '\'' then Lex(s[1..], Open(word.text), done)
      else Lex(s[1..], Quoted(word.text + [s[0]]), done)
    else if s == "" then Words(if word.NoWord? then done else done + [word.text])
    else if s[0] == ' ' || s[0] == '\t' then
      Lex(s[1..], NoWord, if word.NoWord? then done else done + [word.text])
    else if s[0] == '\'' then Lex(s[1..], Quoted(TextOf(word)), done)
    else if s[0] == '\\' then
      if |s| == 1 then Unreadable
      else if s[1] == '\n' then Lex(s[2..], word, done)
      else Lex(s[2..], Open(TextOf(word) + [s[1]]), done)
    else if Special(s[0]) then Unreadable
    else Lex(s[1..], Open(TextOf(word) + [s[0]]), done)
  }

  function SplitWords(line: string): Lexed {
    Lex(line, NoWord, [])
  }

  // ---------------------------------------------------------------- the writer

  /** Whether a character beyond ASCII is a letter or a digit, by Unicode's tables. */
  type Letters = char -> bool

  /** What shellArg leaves unquoted. */
  predicate Bare(c: char, letters: Letters) {
    || 'a' <= c <= 'z' || 'A' <= c <= 'Z' || '0' <= c <= '9'
    || c == '@' || c == '%' || c == '+' || c == '=' || c == ':' || c == ',' || c == '.' || c == '/' || c == '-'
    || c == '_'
    || (c > '\U{7F}' && letters(c))
  }

  /** strings.ReplaceAll(value, "'", `'\''`). */
  function EscapeQuotes(value: string): string {
    if value == "" then ""
    else (if value[0] == '\'' then ['\'', '\\', '\'', '\''] else [value[0]]) + EscapeQuotes(value[1..])
  }

  predicate AllBare(value: string, letters: Letters) {
    forall i | 0 <= i < |value| :: Bare(value[i], letters)
  }

  function ShellArg(value: string, letters: Letters): string {
    if value != "" && AllBare(value, letters) then value
    else ['\''] + EscapeQuotes(value) + ['\'']
  }

  /** Of ASCII, exactly the letters, the digits and these ten are left unquoted. */
  lemma BareAscii(c: char, letters: Letters)
    requires c <= '\U{7F}'
    ensures Bare(c, letters) <==>
            || 'a' <= c <= 'z' || 'A' <= c <= 'Z' || '0' <= c <= '9'
            || c in {'@', '%', '+', '=', ':', ',', '.', '/', '-', '_'}
  {
  }

  lemma BareIsNotSpecial(c: char, letters: Letters)
    requires Bare(c, letters)
    ensures !Special(c) && c != ' ' && c != '\t' && c != '\'' && c != '\\'
  {
  }

  lemma LexBareChar(c: char, tail: string, word: Word, done: seq<string>, letters: Letters)
    requires !word.Quoted? && Bare(c, letters)
    ensures Lex([c] + tail, word, done) == Lex(tail, Open(TextOf(word) + [c]), done)
  {
    BareIsNotSpecial(c, letters);
    assert ([c] + tail)[1..] == tail;
  }

  lemma {:induction false} LexBare(value: string, rest: string, word: Word, done: seq<string>, letters: Letters)
    requires !word.Quoted? && value != "" && AllBare(value, letters)
    ensures Lex(value + rest, word, done) == Lex(rest, Open(TextOf(word) + value), done)
  {
    var tail := value[1..];
    assert value + rest == [value[0]] + (tail + rest);
    LexBareChar(value[0], tail + rest, word, done, letters);
    var text := TextOf(word) + [value[0]];
    assert text + tail == TextOf(word) + value;
    if tail == "" {
      assert tail + rest == rest && text + tail == text;
    } else {
      LexBare(tail, rest, Open(text), done, letters);
    }
  }

  lemma LexQuotedChar(c: char, tail: string, text: string, done: seq<string>)
    ensures Lex([c] + tail, Quoted(text), done)
            == if c == '\'' then Lex(tail, Open(text), done) else Lex(tail, Quoted(text + [c]), done)
  {
    assert ([c] + tail)[1..] == tail;
  }

  lemma LexQuoteOpens(tail: string, word: Word, done: seq<string>)
    requires !word.Quoted?
    ensures Lex(['\''] + tail, word, done) == Lex(tail, Quoted(TextOf(word)), done)
  {
    assert (['\''] + tail)[1..] == tail;
  }

  lemma LexEscaped(c: char, tail: string, text: string, done: seq<string>)
    requires c != '\n'
    ensures Lex(['\\', c] + tail, Open(text), done) == Lex(tail, Open(text + [c]), done)
  {
    assert (['\\', c] + tail)[2..] == tail;
  }

  /** What shellArg writes for a quote inside the quotes reads as that quote. */
  lemma LexEmbeddedQuote(tail: string, text: string, done: seq<string>)
    ensures Lex(['\'', '\\', '\'', '\''] + tail, Quoted(text), done) == Lex(tail, Quoted(text + ['\'']), done)
  {
    assert ['\'', '\\', '\'', '\''] + tail == ['\''] + (['\\', '\''] + (['\''] + tail));
    LexQuotedChar('\'', ['\\', '\''] + (['\''] + tail), text, done);
    LexEscaped('\'', ['\''] + tail, text, done);
    LexQuoteOpens(tail, Open(text + ['\'']), done);
  }

  lemma {:induction false} LexQuoted(value: string, rest: string, text: string, done: seq<string>)
    ensures Lex(EscapeQuotes(value) + ['\''] + rest, Quoted(text), done) == Lex(rest, Open(text + value), done)
  {
    var line := EscapeQuotes(value) + ['\''] + rest;
    if value == "" {
      assert line == ['\''] + rest && text + value == text;
      LexQuotedChar('\'', rest, text, done);
    } else {
      var tail := EscapeQuotes(value[1..]) + ['\''] + rest;
      assert text + [value[0]] + value[1..] == text + value;
      if value[0] == '\'' {
        assert line == ['\'', '\\', '\'', '\''] + tail;
        LexEmbeddedQuote(tail, text, done);
      } else {
        assert line == [value[0]] + tail;
        LexQuotedChar(value[0], tail, text, done);
      }
      LexQuoted(value[1..], rest, text + [value[0]], done);
    }
  }

  /** One printed argument reads back as one word, whatever the value holds. */
  lemma ArgReadsAsOneWord(value: string, rest: string, done: seq<string>, letters: Letters)
    ensures Lex(ShellArg(value, letters) + rest, NoWord, done) == Lex(rest, Open(value), done)
  {
    assert "" + value == value;
    if value != "" && AllBare(value, letters) {
      LexBare(value, rest, NoWord, done, letters);
    } else {
      var quoted := EscapeQuotes(value) + ['\''] + rest;
      assert ShellArg(value, letters) + rest == ['\''] + quoted;
      LexQuoteOpens(quoted, NoWord, done);
      LexQuoted(value, rest, "", done);
    }
  }

  function Args(values: seq<string>, letters: Letters): (args: seq<string>)
    ensures |args| == |values|
  {
    if values == [] then [] else [ShellArg(values[0], letters)] + Args(values[1..], letters)
  }

  lemma LexBlank(rest: string, text: string, done: seq<string>)
    ensures Lex([' '] + rest, Open(text), done) == Lex(rest, NoWord, done + [text])
  {
    assert ([' '] + rest)[1..] == rest;
  }

  lemma {:induction false} LineReadsBackFrom(values: seq<string>, done: seq<string>, letters: Letters)
    ensures Lex(Join(Args(values, letters), ' '), NoWord, done) == Words(done + values)
  {
    var args := Args(values, letters);
    if values == [] {
      assert done + values == done;
    } else if |values| == 1 {
      ArgReadsAsOneWord(values[0], "", done, letters);
      assert args[0] + "" == args[0] && values == [values[0]];
    } else {
      var rest := Join(args[1..], ' ');
      assert Join(args, ' ') == args[0] + ([' '] + rest);
      ArgReadsAsOneWord(values[0], [' '] + rest, done, letters);
      LexBlank(rest, values[0], done);
      assert args[1..] == Args(values[1..], letters);
      LineReadsBackFrom(values[1..], done + [values[0]], letters);
      assert done + [values[0]] + values[1..] == done + values;
    }
  }

  /** A line of printed arguments splits into exactly the values they were printed from. */
  lemma LineReadsBack(values: seq<string>, letters: Letters)
    ensures SplitWords(Join(Args(values, letters), ' ')) == Words(values)
  {
    LineReadsBackFrom(values, [], letters);
    assert [] + values == values;
  }
}
