/** The flag command a profile is printed as, and what reading that command back gives.
    Models profileFieldFlags and equivalent of internal/cli/configcmd.go, sayEquivalent
    of internal/cli/setprofilewizard.go, and the flag library's reading of a long flag. */
module ProfileFlags {
  import opened Strings
  import opened Shell

  /** One row of the flag table: its name, and whether it is a boolean. */
  datatype FieldSpec = FieldSpec(name: string, boolean: bool)

  /** The field it locates. */
  datatype Value = Text(s: string) | Flag(b: bool)

  type Table = seq<FieldSpec>
  type Fields = seq<Value>

  const USE := "use"

  ghost predicate Fits(table: Table, fields: Fields) {
    |fields| == |table| && forall i | 0 <= i < |table| :: fields[i].Flag? <==> table[i].boolean
  }

  /** What every flag is before the command line is read. */
  function Unset(table: Table): (fields: Fields)
    ensures Fits(table, fields)
  {
    seq(|table|, i requires 0 <= i < |table| => if table[i].boolean then Flag(false) else Text(""))
  }

  /** Lower-case letters and dashes. */
  predicate PlainName(name: string) {
    forall i | 0 <= i < |name| :: 'a' <= name[i] <= 'z' || name[i] == '-'
  }

  /** A name whose flag prints bare and can be told from --use and from a value. */
  predicate FlagName(name: string) {
    name != "" && name != USE && name[0] != '-' && PlainName(name)
  }

  ghost predicate Distinct(table: Table) {
    forall i, j | 0 <= i < j < |table| :: table[i].name != table[j].name
  }

  ghost predicate WellFormed(table: Table) {
    Distinct(table) && forall i | 0 <= i < |table| :: FlagName(table[i].name)
  }

  // ---------------------------------------------------------------- printing

  function Dashed(name: string): string {
    ['-', '-'] + name
  }

  function FieldWords(spec: FieldSpec, value: Value): seq<string> {
    match value
    case Flag(b) => if b then [Dashed(spec.name)] else []
    case Text(s) => if s != "" then [Dashed(spec.name), s] else []
  }

  function UseWords(use: bool): seq<string> {
    if use then [Dashed(USE)] else []
  }

  /** The words from the i-th row of the table on, before quoting. */
  function FlagWords(table: Table, fields: Fields, i: nat, use: bool): seq<string>
    requires |fields| == |table| && i <= |table|
    decreases |table| - i
  {
    if i == |table| then UseWords(use) else FieldWords(table[i], fields[i]) + FlagWords(table, fields, i + 1, use)
  }

  /** The parts one field adds to the printed command. */
  function FieldParts(spec: FieldSpec, value: Value, letters: Letters): (parts: seq<string>)
    requires FlagName(spec.name)
    ensures parts == Args(FieldWords(spec, value), letters)
  {
    DashedPrintsBare(spec.name, letters);
    match value
    case Flag(b) => if b then [Dashed(spec.name)] else []
    case Text(s) => if s != "" then [Dashed(spec.name), ShellArg(s, letters)] else []
  }

  /** equivalent: command words, then the name and every field that is set. */
  method Equivalent(command: seq<string>, name: string, table: Table, fields: Fields, letters: Letters)
    returns (parts: seq<string>)
    requires WellFormed(table) && Fits(table, fields)
    ensures parts == command + [ShellArg(name, letters)] + Args(FlagWords(table, fields, 0, false), letters)
  {
    parts := command + [ShellArg(name, letters)];
    ghost var all := parts + Args(FlagWords(table, fields, 0, false), letters);
    for i := 0 to |table|
      invariant parts + Args(FlagWords(table, fields, i, false), letters) == all
    {
      var more := FieldParts(table[i], fields[i], letters);
      ArgsOfConcat(FieldWords(table[i], fields[i]), FlagWords(table, fields, i + 1, false), letters);
      Regroup(parts, more, Args(FlagWords(table, fields, i + 1, false), letters));
      parts := parts + more;
    }
  }

  lemma DashedPrintsBare(name: string, letters: Letters)
    requires FlagName(name) || name == USE
    ensures ShellArg(Dashed(name), letters) == Dashed(name)
  {
    assert AllBare(Dashed(name), letters);
  }

  // ---------------------------------------------------------------- reading

  /** A command line as its flags and positional arguments. */
  datatype Line = Refused | Read(fields: Fields, args: seq<string>, use: bool)

  function Find(table: Table, name: string): int
    ensures -1 <= Find(table, name) < |table|
    ensures Find(table, name) >= 0 ==> table[Find(table, name)].name == name
  {
    if table == [] then -1
    else if table[0].name == name then 0
    else var i := Find(table[1..], name); if i < 0 then -1 else i + 1
  }

  /** pflag's rule for what is an argument rather than a flag. */
  predicate IsArgument(word: string) {
    |word| < 2 || word[0] != '-'
  }

  function IndexOfEquals(s: string): nat
    ensures IndexOfEquals(s) <= |s|
  {
    if s == "" || s[0] == '=' then 0 else 1 + IndexOfEquals(s[1..])
  }

  function Assign(table: Table, line: Line, name: string, value: string): (r: Line)
    requires line.Read? && |line.fields| == |table|
    ensures r.Read? ==> r.args == line.args && |r.fields| == |table|
  {
    if name == USE then
      if value == "true" then line.(use := true) else if value == "false" then line.(use := false) else Refused
    else
      var i := Find(table, name);
      if i < 0 then Refused
      else if !table[i].boolean then line.(fields := line.fields[i := Text(value)])
      else if value == "true" then line.(fields := line.fields[i := Flag(true)])
      else if value == "false" then line.(fields := line.fields[i := Flag(false)])
      else Refused
  }

  predicate TakesNoValue(table: Table, name: string) {
    name == USE || (Find(table, name) >= 0 && table[Find(table, name)].boolean)
  }

  /** What reading one more word leaves: the line so far, and the words still to read. */
  datatype Progress = Progress(line: Line, rest: seq<string>)

  function ReadFlag(table: Table, body: string, rest: seq<string>, line: Line): (p: Progress)
    requires line.Read? && |line.fields| == |table| && body != ""
    ensures |p.rest| <= |rest|
  {
    var eq := IndexOfEquals(body);
    if body[0] == '-' || body[0] == '=' then Progress(Refused, [])
    else if eq < |body| then Progress(Assign(table, line, body[..eq], body[eq + 1..]), rest)
    else if TakesNoValue(table, body) then Progress(Assign(table, line, body, "true"), rest)
    else if rest == [] then Progress(Refused, [])
    else Progress(Assign(table, line, body, rest[0]), rest[1..])
  }

  function ReadWord(table: Table, words: seq<string>, line: Line): (p: Progress)
    requires line.Read? && |line.fields| == |table| && words != []
    ensures |p.rest| < |words|
  {
    var word, rest := words[0], words[1..];
    if IsArgument(word) then Progress(line.(args := line.args + [word]), rest)
    else if word[1] != '-' then Progress(Refused, [])
    else if |word| == 2 then Progress(line.(args := line.args + rest), [])
    else ReadFlag(table, word[2..], rest, line)
  }

  function ReadLine(table: Table, words: seq<string>, line: Line): Line
    decreases |words|
  {
    if line.Refused? || |line.fields| != |table| then Refused
    else if words == [] then line
    else var p := ReadWord(table, words, line); ReadLine(table, p.rest, p.line)
  }

  function ReadCommand(table: Table, words: seq<string>): Line {
    ReadLine(table, words, Read(Unset(table), [], false))
  }

  // ---------------------------------------------------------------- the round trip

  lemma {:induction false} NoEquals(s: string)
    requires '=' !in s
    ensures IndexOfEquals(s) == |s|
  {
    if s != "" {
      NoEquals(s[1..]);
    }
  }

  lemma {:induction false} FindsItself(table: Table, i: nat)
    requires i < |table| && Distinct(table)
    ensures Find(table, table[i].name) == i
  {
    if i > 0 {
      FindsItself(table[1..], i - 1);
    }
  }

  /** One long flag, whatever it is called. */
  lemma ReadLong(table: Table, word: string, rest: seq<string>, line: Line)
    requires line.Read? && |line.fields| == |table|
    requires |word| > 2 && word[0] == '-' && word[1] == '-'
    ensures var p := ReadFlag(table, word[2..], rest, line);
            ReadLine(table, [word] + rest, line) == ReadLine(table, p.rest, p.line)
  {
    assert ([word] + rest)[1..] == rest;
    assert ReadWord(table, [word] + rest, line) == ReadFlag(table, word[2..], rest, line);
  }

  /** A long flag that is understood adds no argument, and takes at most the next word,
      which it does only where its table row holds text. */
  lemma LongFlagTakesAtMostOne(table: Table, body: string, rest: seq<string>, line: Line)
    requires line.Read? && |line.fields| == |table| && body != ""
    ensures var p := ReadFlag(table, body, rest, line);
            p.line.Read? ==>
              && p.line.args == line.args && |p.line.fields| == |table|
              && (|| p.rest == rest
                  || (&& rest != [] && p.rest == rest[1..]
                      && Find(table, body) >= 0 && !table[Find(table, body)].boolean))
  {
  }

  lemma ReadDashed(table: Table, name: string, rest: seq<string>, line: Line)
    requires line.Read? && |line.fields| == |table|
    requires FlagName(name) || name == USE
    ensures ReadLine(table, [Dashed(name)] + rest, line) ==
            if TakesNoValue(table, name) then ReadLine(table, rest, Assign(table, line, name, "true"))
            else if rest == [] then Refused
            else ReadLine(table, rest[1..], Assign(table, line, name, rest[0]))
  {
    assert Dashed(name)[2..] == name;
    assert '=' !in name;
    NoEquals(name);
    ReadLong(table, Dashed(name), rest, line);
  }

  /** The fields read so far: the first i as printed, the others still unset. */
  function Halfway(table: Table, fields: Fields, i: nat): (r: Fields)
    requires Fits(table, fields) && i <= |table|
    ensures |r| == |table|
  {
    fields[..i] + Unset(table)[i..]
  }

  lemma HalfwayStep(table: Table, fields: Fields, i: nat)
    requires Fits(table, fields) && i < |table|
    ensures Halfway(table, fields, i)[i := fields[i]] == Halfway(table, fields, i + 1)
    ensures fields[i] == Unset(table)[i] ==> Halfway(table, fields, i) == Halfway(table, fields, i + 1)
  {
  }

  lemma FieldReadsBack(table: Table, fields: Fields, i: nat, args: seq<string>, rest: seq<string>)
    requires WellFormed(table) && Fits(table, fields) && i < |table|
    ensures ReadLine(table, FieldWords(table[i], fields[i]) + rest, Read(Halfway(table, fields, i), args, false))
            == ReadLine(table, rest, Read(Halfway(table, fields, i + 1), args, false))
  {
    var name, line := table[i].name, Read(Halfway(table, fields, i), args, false);
    assert FlagName(name);
    FindsItself(table, i);
    HalfwayStep(table, fields, i);
    match fields[i]
    case Flag(b) =>
      if b {
        ReadDashed(table, name, rest, line);
      } else {
        assert [] + rest == rest;
      }
    case Text(v) =>
      if v != "" {
        assert [Dashed(name), v] + rest == [Dashed(name)] + ([v] + rest);
        ReadDashed(table, name, [v] + rest, line);
        assert ([v] + rest)[1..] == rest;
      } else {
        assert [] + rest == rest;
      }
  }

  lemma ReadArgument(table: Table, word: string, rest: seq<string>, line: Line)
    requires line.Read? && |line.fields| == |table| && IsArgument(word)
    ensures ReadLine(table, [word] + rest, line) == ReadLine(table, rest, line.(args := line.args + [word]))
  {
    assert ([word] + rest)[1..] == rest;
  }

  lemma ReadTerminator(table: Table, word: string, rest: seq<string>, line: Line)
    requires line.Read? && |line.fields| == |table| && |word| == 2 && word[0] == '-' && word[1] == '-'
    ensures ReadLine(table, [word] + rest, line) == line.(args := line.args + rest)
  {
    assert ([word] + rest)[1..] == rest;
  }

  /** No profile flag has a one-letter form. */
  lemma ReadShort(table: Table, word: string, rest: seq<string>, line: Line)
    requires line.Read? && |line.fields| == |table| && !IsArgument(word) && word[1] != '-'
    ensures ReadLine(table, [word] + rest, line) == Refused
  {
    assert ReadWord(table, [word] + rest, line) == Progress(Refused, []);
  }

  lemma UseReadsBack(table: Table, fields: Fields, args: seq<string>, use: bool)
    requires |fields| == |table|
    ensures ReadLine(table, UseWords(use), Read(fields, args, false)) == Read(fields, args, use)
  {
    if use {
      assert [Dashed(USE)] + [] == [Dashed(USE)];
      ReadDashed(table, USE, [], Read(fields, args, false));
    }
  }

  /** The flags read back as the fields and the activation, and add no argument. */
  lemma {:induction false} FlagsReadBack(table: Table, fields: Fields, i: nat, args: seq<string>, use: bool)
    requires WellFormed(table) && Fits(table, fields) && i <= |table|
    ensures ReadLine(table, FlagWords(table, fields, i, use), Read(Halfway(table, fields, i), args, false))
            == Read(fields, args, use)
    decreases |table| - i
  {
    if i == |table| {
      assert Halfway(table, fields, i) == fields;
      UseReadsBack(table, fields, args, use);
    } else {
      FieldReadsBack(table, fields, i, args, FlagWords(table, fields, i + 1, use));
      FlagsReadBack(table, fields, i + 1, args, use);
    }
  }

  // Names that start with a dash are the ones that do not read back.

  /** Printed flags never turn into arguments, whatever was read before them. */
  lemma {:induction false} FlagsAddNoArguments(table: Table, fields: Fields, i: nat, use: bool, line: Line)
    requires WellFormed(table) && Fits(table, fields) && i <= |table| && line.Read? && |line.fields| == |table|
    ensures var result := ReadLine(table, FlagWords(table, fields, i, use), line);
            result.Read? ==> result.args == line.args
    decreases |table| - i
  {
    if i == |table| {
      UseAddsNoArguments(table, use, line);
    } else {
      var next := SkipField(table, fields, i, FlagWords(table, fields, i + 1, use), line);
      if next.Read? {
        FlagsAddNoArguments(table, fields, i + 1, use, next);
      }
    }
  }

  lemma UseAddsNoArguments(table: Table, use: bool, line: Line)
    requires line.Read? && |line.fields| == |table|
    ensures var result := ReadLine(table, UseWords(use), line); result.Read? ==> result.args == line.args
  {
    if use {
      assert [Dashed(USE)] + [] == [Dashed(USE)];
      ReadDashed(table, USE, [], line);
    }
  }

  /** One printed field, read in step. */
  lemma SkipField(table: Table, fields: Fields, i: nat, rest: seq<string>, line: Line) returns (next: Line)
    requires WellFormed(table) && Fits(table, fields) && i < |table| && line.Read? && |line.fields| == |table|
    ensures ReadLine(table, FieldWords(table[i], fields[i]) + rest, line) == ReadLine(table, rest, next)
    ensures next.Read? ==> next.args == line.args && |next.fields| == |table|
  {
    var name := table[i].name;
    assert FlagName(name);
    FindsItself(table, i);
    match fields[i]
    case Flag(b) =>
      if b {
        ReadDashed(table, name, rest, line);
        next := Assign(table, line, name, "true");
      } else {
        assert [] + rest == rest;
        next := line;
      }
    case Text(v) =>
      if v != "" {
        assert [Dashed(name), v] + rest == [Dashed(name)] + ([v] + rest);
        ReadDashed(table, name, [v] + rest, line);
        assert ([v] + rest)[1..] == rest;
        next := Assign(table, line, name, v);
      } else {
        assert [] + rest == rest;
        next := line;
      }
  }

  /** A printed tail of one word is --use or a boolean flag, never a flag with a value. */
  lemma {:induction false} OneWordIsBoolean(table: Table, fields: Fields, i: nat, use: bool, k: nat)
    requires WellFormed(table) && Fits(table, fields) && i <= |table|
    requires k < |table| && !table[k].boolean
    ensures FlagWords(table, fields, i, use) != [Dashed(table[k].name)]
    decreases |table| - i
  {
    var words := FlagWords(table, fields, i, use);
    assert FlagName(table[k].name) && Dashed(table[k].name)[2..] == table[k].name;
    if i == |table| {
      assert Dashed(USE)[2..] == USE;
    } else if FieldWords(table[i], fields[i]) == [] {
      OneWordIsBoolean(table, fields, i + 1, use, k);
      assert words == FlagWords(table, fields, i + 1, use);
    } else {
      assert words[0] == Dashed(table[i].name) && Dashed(table[i].name)[2..] == table[i].name;
      assert fields[i].Text? ==> |words| >= 2;
    }
  }

  ghost predicate Lost(result: Line, name: string) {
    result.Read? ==> result.args != [name]
  }

  /** Once a flag has swallowed the flag after it, the reading is one word out of step;
      it still never yields the flag that started it as the one argument. */
  lemma {:induction false} OutOfStep(
    table: Table, fields: Fields, i: nat, use: bool, v: string, line: Line, k: nat)
    requires WellFormed(table) && Fits(table, fields) && i <= |table|
    requires k < |table| && !table[k].boolean
    requires line.Read? && line.args == [] && |line.fields| == |table|
    ensures Lost(ReadLine(table, [v] + FlagWords(table, fields, i, use), line), Dashed(table[k].name))
    decreases |table| - i, 2
  {
    var name, rest := Dashed(table[k].name), FlagWords(table, fields, i, use);
    if IsArgument(v) {
      ReadArgument(table, v, rest, line);
      FlagsAddNoArguments(table, fields, i, use, line.(args := line.args + [v]));
      assert line.args + [v] == [v] && !IsArgument(name);
      assert [v][0] != [name][0];
    } else if v[1] == '-' && |v| == 2 {
      ReadTerminator(table, v, rest, line);
      OneWordIsBoolean(table, fields, i, use, k);
      assert line.args + rest == rest;
    } else if v[1] == '-' {
      ReadLong(table, v, rest, line);
      AfterALongFlag(table, fields, i, use, v[2..], line, k);
    } else {
      ReadShort(table, v, rest, line);
    }
  }

  /** The reading after a long flag met in place of a value or a name. */
  lemma {:induction false} AfterALongFlag(
    table: Table, fields: Fields, i: nat, use: bool, body: string, line: Line, k: nat)
    requires WellFormed(table) && Fits(table, fields) && i <= |table| && body != ""
    requires k < |table| && !table[k].boolean
    requires line.Read? && line.args == [] && |line.fields| == |table|
    ensures var p := ReadFlag(table, body, FlagWords(table, fields, i, use), line);
            Lost(ReadLine(table, p.rest, p.line), Dashed(table[k].name))
    decreases |table| - i, 1
  {
    var rest := FlagWords(table, fields, i, use);
    var p := ReadFlag(table, body, rest, line);
    LongFlagTakesAtMostOne(table, body, rest, line);
    if p.line.Read? {
      if p.rest == rest {
        FlagsAddNoArguments(table, fields, i, use, p.line);
      } else {
        SwallowsTheNext(table, fields, i, use, p.line, k);
      }
    }
  }

  /** The reading after the first word of the printed tail has been taken as a value. */
  lemma {:induction false} SwallowsTheNext(table: Table, fields: Fields, i: nat, use: bool, line: Line, k: nat)
    requires WellFormed(table) && Fits(table, fields) && i <= |table| && FlagWords(table, fields, i, use) != []
    requires k < |table| && !table[k].boolean
    requires line.Read? && line.args == [] && |line.fields| == |table|
    ensures Lost(ReadLine(table, FlagWords(table, fields, i, use)[1..], line), Dashed(table[k].name))
    decreases |table| - i, 0
  {
    if i < |table| {
      var head, after := FieldWords(table[i], fields[i]), FlagWords(table, fields, i + 1, use);
      DropFirst(head, after);
      if head == [] {
        SwallowsTheNext(table, fields, i + 1, use, line, k);
      } else if fields[i].Flag? {
        FlagsAddNoArguments(table, fields, i + 1, use, line);
      } else {
        OutOfStep(table, fields, i + 1, use, fields[i].s, line, k);
      }
    }
  }

  lemma DropFirst<T>(head: seq<T>, after: seq<T>)
    ensures head == [] ==> head + after == after
    ensures |head| == 1 ==> (head + after)[1..] == after
    ensures |head| == 2 ==> (head + after)[1..] == [head[1]] + after
  {
  }

  lemma {:induction false} FirstWordIsLong(table: Table, fields: Fields, i: nat, use: bool)
    requires WellFormed(table) && Fits(table, fields) && i <= |table|
    ensures FlagWords(table, fields, i, use) != [] ==> |FlagWords(table, fields, i, use)[0]| > 2
    decreases |table| - i
  {
    if i < |table| {
      FirstWordIsLong(table, fields, i + 1, use);
      assert FlagName(table[i].name);
      if FieldWords(table[i], fields[i]) == [] {
        assert FlagWords(table, fields, i, use) == FlagWords(table, fields, i + 1, use);
      } else {
        assert FlagWords(table, fields, i, use)[0] == Dashed(table[i].name);
      }
    }
  }

  lemma DashedNameIsLost(table: Table, fields: Fields, use: bool, name: string)
    requires WellFormed(table) && Fits(table, fields) && !IsArgument(name)
    ensures Lost(ReadCommand(table, [name] + FlagWords(table, fields, 0, use)), name)
  {
    var rest, line := FlagWords(table, fields, 0, use), Read(Unset(table), [], false);
    if name[1] != '-' {
      ReadShort(table, name, rest, line);
    } else if |name| == 2 {
      ReadTerminator(table, name, rest, line);
      assert line.args + rest == rest;
      FirstWordIsLong(table, fields, 0, use);
    } else {
      ReadLong(table, name, rest, line);
      LongNameIsLost(table, fields, use, name, line);
    }
  }

  lemma LongNameIsLost(table: Table, fields: Fields, use: bool, name: string, line: Line)
    requires WellFormed(table) && Fits(table, fields) && |name| > 2 && name[0] == name[1] == '-'
    requires line.Read? && line.args == [] && |line.fields| == |table|
    ensures var p := ReadFlag(table, name[2..], FlagWords(table, fields, 0, use), line);
            Lost(ReadLine(table, p.rest, p.line), name)
  {
    var rest := FlagWords(table, fields, 0, use);
    var p := ReadFlag(table, name[2..], rest, line);
    LongFlagTakesAtMostOne(table, name[2..], rest, line);
    if p.line.Read? {
      if p.rest == rest {
        FlagsAddNoArguments(table, fields, 0, use, p.line);
      } else {
        assert name == Dashed(name[2..]);
        SwallowsTheNext(table, fields, 0, use, p.line, Find(table, name[2..]));
      }
    }
  }

  /** Reading the printed words gives the name, the fields and the activation back
      exactly when the name is not itself read as a flag. */
  lemma WordsReadBackIff(table: Table, fields: Fields, use: bool, name: string)
    requires WellFormed(table) && Fits(table, fields)
    ensures ReadCommand(table, [name] + FlagWords(table, fields, 0, use)) == Read(fields, [name], use)
            <==> IsArgument(name)
  {
    if IsArgument(name) {
      ReadArgument(table, name, FlagWords(table, fields, 0, use), Read(Unset(table), [], false));
      assert [] + [name] == [name] && Halfway(table, fields, 0) == Unset(table);
      FlagsReadBack(table, fields, 0, [name], use);
    } else {
      DashedNameIsLost(table, fields, use, name);
    }
  }

  // ---------------------------------------------------------------- the printed line

  /** The line sayEquivalent writes: the parts, and --use when the write activated. */
  function PrintedLine(
    command: seq<string>, name: string, table: Table, fields: Fields, use: bool, letters: Letters): string
    requires |fields| == |table|
  {
    Join(command + [ShellArg(name, letters)] + Args(FlagWords(table, fields, 0, false), letters) + UseWords(use), ' ')
  }

  /** sayEquivalent as it runs. */
  method SayEquivalent(command: seq<string>, name: string, table: Table, fields: Fields, use: bool, letters: Letters)
    returns (line: string)
    requires WellFormed(table) && Fits(table, fields)
    ensures line == PrintedLine(command, name, table, fields, use, letters)
  {
    var parts := Equivalent(command, name, table, fields, letters);
    if use {
      parts := parts + [Dashed(USE)];
    } else {
      assert parts + UseWords(false) == parts;
    }
    return Join(parts, ' ');
  }

  /** From the printed line to the profile: the shell splits it into the command's own
      words and the words above, and the flags read back as what was written. */
  lemma PrintedLineReadsBack(
    command: seq<string>, name: string, table: Table, fields: Fields, use: bool, letters: Letters)
    requires WellFormed(table) && Fits(table, fields)
    requires forall word | word in command :: word != "" && AllBare(word, letters)
    ensures SplitWords(PrintedLine(command, name, table, fields, use, letters))
            == Words(command + ([name] + FlagWords(table, fields, 0, use)))
    ensures ReadCommand(table, [name] + FlagWords(table, fields, 0, use)) == Read(fields, [name], use)
            <==> IsArgument(name)
  {
    WordsReadBackIff(table, fields, use, name);
    PartsAreArgs(command, name, table, fields, use, letters);
    LineReadsBack(command + ([name] + FlagWords(table, fields, 0, use)), letters);
  }

  lemma {:induction false} ArgsOfConcat(a: seq<string>, b: seq<string>, letters: Letters)
    ensures Args(a + b, letters) == Args(a, letters) + Args(b, letters)
  {
    if a == [] {
      assert a + b == b;
    } else {
      assert (a + b)[1..] == a[1..] + b;
      ArgsOfConcat(a[1..], b, letters);
      Regroup([ShellArg(a[0], letters)], Args(a[1..], letters), Args(b, letters));
    }
  }

  lemma Regroup<T>(a: seq<T>, b: seq<T>, c: seq<T>)
    ensures a + b + c == a + (b + c)
  {
  }

  lemma {:induction false} BareArgs(words: seq<string>, letters: Letters)
    requires forall word | word in words :: word != "" && AllBare(word, letters)
    ensures Args(words, letters) == words
  {
    if words != [] {
      assert words[0] in words;
      assert forall word | word in words[1..] :: word in words;
      BareArgs(words[1..], letters);
      assert words == [words[0]] + words[1..];
    }
  }

  lemma {:induction false} UseComesLast(table: Table, fields: Fields, i: nat, use: bool)
    requires |fields| == |table| && i <= |table|
    ensures FlagWords(table, fields, i, use) == FlagWords(table, fields, i, false) + UseWords(use)
    decreases |table| - i
  {
    if i < |table| {
      UseComesLast(table, fields, i + 1, use);
    }
  }

  lemma PartsAreArgs(command: seq<string>, name: string, table: Table, fields: Fields, use: bool, letters: Letters)
    requires |fields| == |table|
    requires forall word | word in command :: word != "" && AllBare(word, letters)
    ensures command + [ShellArg(name, letters)] + Args(FlagWords(table, fields, 0, false), letters) + UseWords(use)
            == Args(command + ([name] + FlagWords(table, fields, 0, use)), letters)
  {
    UseComesLast(table, fields, 0, use);
    UsePrintsBare(use, letters);
    BareArgs(command, letters);
    ConcatFour(command, name, FlagWords(table, fields, 0, false), UseWords(use), letters);
  }

  lemma UsePrintsBare(use: bool, letters: Letters)
    ensures Args(UseWords(use), letters) == UseWords(use)
  {
    DashedPrintsBare(USE, letters);
  }

  lemma ConcatFour(command: seq<string>, name: string, flags: seq<string>, tail: seq<string>, letters: Letters)
    requires Args(command, letters) == command && Args(tail, letters) == tail
    ensures command + [ShellArg(name, letters)] + Args(flags, letters) + tail
            == Args(command + ([name] + (flags + tail)), letters)
  {
    ArgsOfConcat(flags, tail, letters);
    ArgsOfConcat([name], flags + tail, letters);
    ArgsOfConcat(command, [name] + (flags + tail), letters);
    var arg, rest := [ShellArg(name, letters)], Args(flags, letters);
    assert Args([name], letters) == arg;
    Regroup(command + arg, rest, tail);
    Regroup(command, arg, rest + tail);
  }
}
