/** How the hub's command loop (Hub.CmdLine) reads one line of operator input: the line is
    trimmed, split on single spaces, and dispatched on its first field. Ids are read with
    strconv.Atoi and its error is discarded, so a field that is not a number names child 0. */
module Commands {
  import Text

  /** What one input line asks the hub to do. */
  datatype Command =
    | Example(from: int, to: int)           // "example <from> <to>"
    | Create(program: string, args: seq<string>)  // "create <program> <args>..."
    | Kill(id: int)                         // "kill <id>"
    | List                                  // "list"
    | Exit                                  // "exit"
    | WrongArgumentCount                    // "example" or "kill" with the wrong number of fields
    | MissingBinary                         // "create" alone
    | Unrecognised                          // any other first field: the loop prompts again

  /** strings.Split(strings.TrimSpace(input), " "). */
  function Tokens(input: string): (command: seq<string>)
    ensures |command| >= 1
  {
    Text.Split(Text.TrimSpace(input))
  }

  /** The switch on the first field, with the argument-count checks of each case. Ids are
      whatever Atoi makes of their fields, its error dropped, so always 64-bit values. */
  function Dispatch(command: seq<string>): (r: Command)
    ensures r.Example? <==> |command| == 3 && command[0] == "example"
    ensures r.Example? ==> r.from == Text.Atoi(command[1]) && r.to == Text.Atoi(command[2])
    ensures r.Example? ==>
              Text.MinInt64 <= r.from <= Text.MaxInt64 && Text.MinInt64 <= r.to <= Text.MaxInt64
    ensures r.Kill? <==> |command| == 2 && command[0] == "kill"
    ensures r.Kill? ==> r.id == Text.Atoi(command[1]) && Text.MinInt64 <= r.id <= Text.MaxInt64
    ensures r.Create? <==> |command| >= 2 && command[0] == "create"
    ensures r.Create? ==> r.program == command[1] && r.args == command[2..]
    ensures r == WrongArgumentCount <==>
              command != [] &&
              ((command[0] == "example" && |command| != 3) || (command[0] == "kill" && |command| != 2))
    ensures r == MissingBinary <==> command == ["create"]
    ensures r == List <==> command != [] && command[0] == "list"
    ensures r == Exit <==> command != [] && command[0] == "exit"
  {
    var clen := |command|;
    if clen == 0 then Unrecognised  // the `clen == 0` guard; Split never returns no fields
    else if command[0] == "example" then
      if clen != 3 then WrongArgumentCount
      else Example(Text.Atoi(command[1]), Text.Atoi(command[2]))
    else if command[0] == "create" then
      if clen < 2 then MissingBinary else Create(command[1], command[2..])
    else if command[0] == "kill" then
      if clen != 2 then WrongArgumentCount else Kill(Text.Atoi(command[1]))
    else if command[0] == "list" then List
    else if command[0] == "exit" then Exit
    else Unrecognised
  }

  /** One line of operator input read as a command: no field of it holds a space, and the ids
      are 64-bit values. */
  function Parse(input: string): (r: Command)
    ensures r.Create? ==> ' ' !in r.program && forall i | 0 <= i < |r.args| :: ' ' !in r.args[i]
    ensures r.Example? ==> Text.MinInt64 <= r.from <= Text.MaxInt64 && Text.MinInt64 <= r.to <= Text.MaxInt64
    ensures r.Kill? ==> Text.MinInt64 <= r.id <= Text.MaxInt64
  {
    Dispatch(Tokens(input))
  }

  /** A field fit to stand in a command line: non-empty, no space, and no white space at
      either end (so trimming the line cannot eat into it). */
  predicate IsField(f: string) {
    f != [] && ' ' !in f && !Text.IsSpace(f[0]) && !Text.IsSpace(f[|f| - 1])
  }

  /** A line made of space-separated fields and ended by a newline is read back as those
      fields, provided its first and last fields are fit to stand at its ends. */
  lemma TokensOfLine(fields: seq<string>)
    requires |fields| >= 1
    requires forall i | 0 <= i < |fields| :: ' ' !in fields[i]
    requires IsField(fields[0]) && IsField(fields[|fields| - 1])
    ensures Tokens(Text.Join(fields) + "\n") == fields
  {
    var line := Text.Join(fields);
    JoinEnds(fields);
    Text.TrimSpaceDropsNewline(line);
    Text.SplitJoin(fields);
  }

  /** A join starts with its first field and ends with its last one. */
  lemma {:induction false} JoinEnds(fields: seq<string>)
    requires |fields| >= 1 && fields[0] != [] && fields[|fields| - 1] != []
    ensures var line := Text.Join(fields);
            line != [] && line[0] == fields[0][0] &&
            line[|line| - 1] == fields[|fields| - 1][|fields[|fields| - 1]| - 1]
  {
    if |fields| > 1 {
      JoinLast(fields[1..]);
    }
  }

  lemma {:induction false} JoinLast(fields: seq<string>)
    requires |fields| >= 1 && fields[|fields| - 1] != []
    ensures var line := Text.Join(fields);
            line != [] && line[|line| - 1] == fields[|fields| - 1][|fields[|fields| - 1]| - 1]
    decreases |fields|
  {
    if |fields| > 1 {
      JoinLast(fields[1..]);
    }
  }

  /** Joining a field in front of at least one more puts a space between. */
  lemma JoinCons(f: string, rest: seq<string>)
    requires |rest| >= 1
    ensures Text.Join([f] + rest) == f + " " + Text.Join(rest)
  {
    assert ([f] + rest)[1..] == rest;
  }

  /** Itoa's output is a field: digits after an optional minus sign. */
  lemma ItoaIsField(n: int)
    ensures IsField(Text.Itoa(n))
  {
    var s := Text.Itoa(n);
    var d := Text.Decimal(if n < 0 then -n else n);
    assert forall i | 0 <= i < |d| :: d[i] != ' ';
    if n < 0 {
      assert s == "-" + d;
      assert forall i | 1 <= i < |s| :: s[i] == d[i - 1];
    }
  }

  /** "example <a> <b>" reads as an example between whatever Atoi makes of the two words, their
      errors dropped: "example abc 1" is Example(0, 1). */
  lemma ParseExampleWords(a: string, b: string)
    requires IsField(a) && IsField(b)
    ensures Parse("example " + a + " " + b + "\n") == Example(Text.Atoi(a), Text.Atoi(b))
  {
    var fields := ["example", a, b];
    JoinCons(a, [b]);
    JoinCons("example", [a, b]);
    assert fields == ["example"] + [a, b];
    assert Text.Join(fields) == "example " + a + " " + b;
    TokensOfLine(fields);
    assert Tokens("example " + a + " " + b + "\n") == fields;
  }

  /** A word that is not a number names child 0. */
  lemma ParseExampleNonNumeric()
    ensures Parse("example abc 1\n") == Example(0, 1)
  {
    var abc, one := "abc", "1";
    assert IsField(abc) && IsField(one);
    ParseExampleWords(abc, one);
    assert "example " + abc + " " + one + "\n" == "example abc 1\n";
    assert !Text.IsDigit(abc[0]) && abc[0] != '+' && abc[0] != '-';
    Text.AtoiNonNumeric(abc);
    assert Text.Itoa(1) == one;
    Text.AtoiItoa(1);
  }

  /** "example <from> <to>" written with %d reads back as Example(from, to). */
  lemma ParseExample(from: int, to: int)
    requires Text.MinInt64 <= from <= Text.MaxInt64 && Text.MinInt64 <= to <= Text.MaxInt64
    ensures Parse("example " + Text.Itoa(from) + " " + Text.Itoa(to) + "\n") == Example(from, to)
  {
    ItoaIsField(from);
    ItoaIsField(to);
    ParseExampleWords(Text.Itoa(from), Text.Itoa(to));
    Text.AtoiItoa(from);
    Text.AtoiItoa(to);
  }

  /** "kill <word>" reads as a kill of whatever Atoi makes of the word. */
  lemma ParseKillWord(word: string)
    requires IsField(word)
    ensures Parse("kill " + word + "\n") == Kill(Text.Atoi(word))
  {
    var fields := ["kill", word];
    JoinCons("kill", [word]);
    assert fields == ["kill"] + [word];
    assert Text.Join(fields) == "kill " + word;
    TokensOfLine(fields);
    assert Tokens("kill " + word + "\n") == fields;
  }

  /** "kill <id>" written with %d reads back as Kill(id). */
  lemma ParseKill(id: int)
    requires Text.MinInt64 <= id <= Text.MaxInt64
    ensures Parse("kill " + Text.Itoa(id) + "\n") == Kill(id)
  {
    ItoaIsField(id);
    ParseKillWord(Text.Itoa(id));
    Text.AtoiItoa(id);
  }

  /** "kill <word>" with a word that is not a number kills child 0: the Atoi error is dropped. */
  lemma ParseKillNonNumeric(word: string)
    requires IsField(word) && |word| <= 18 && !Text.IsSignedDecimal(word)
    ensures Parse("kill " + word + "\n") == Kill(0)
  {
    ParseKillWord(word);
    Text.AtoiNonNumeric(word);
  }

  /** "create <program> <args>..." reads back as Create(program, args): the program is the
      second field and the arguments are all the fields after it. */
  lemma ParseCreate(fields: seq<string>)
    requires |fields| >= 2 && fields[0] == "create"
    requires forall i | 0 <= i < |fields| :: ' ' !in fields[i]
    requires IsField(fields[|fields| - 1])
    ensures Parse(Text.Join(fields) + "\n") == Create(fields[1], fields[2..])
  {
    TokensOfLine(fields);
  }

  /** A line with the wrong number of fields for "kill" is refused, whatever the fields. */
  lemma ParseKillArgumentCount(fields: seq<string>)
    requires |fields| != 2 && |fields| >= 1 && fields[0] == "kill"
    requires forall i | 0 <= i < |fields| :: ' ' !in fields[i]
    requires IsField(fields[|fields| - 1])
    ensures Parse(Text.Join(fields) + "\n") == WrongArgumentCount
  {
    TokensOfLine(fields);
  }

  /** Likewise for "example", which needs exactly two ids. */
  lemma ParseExampleArgumentCount(fields: seq<string>)
    requires |fields| != 3 && |fields| >= 1 && fields[0] == "example"
    requires forall i | 0 <= i < |fields| :: ' ' !in fields[i]
    requires IsField(fields[|fields| - 1])
    ensures Parse(Text.Join(fields) + "\n") == WrongArgumentCount
  {
    TokensOfLine(fields);
  }
}
