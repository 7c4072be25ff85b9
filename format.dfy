/** What Go's fmt.Errorf(format) returns as error text when it is given a format string and
    no operands, as the hub's Wait does with a child's captured stderr. Outside a directive
    the text is copied; every '%' starts a directive (flags, an optional [n] argument index,
    width, precision, verb) and, with no operands to format, a directive prints "%" for the
    verb '%' and a diagnostic such as "%!d(MISSING)" otherwise. */
module Format {

  /** The state of fmt's scanner inside one directive. */
  datatype Cursor = Cursor(rest: string, out: string, goodArgNum: bool, afterIndex: bool)

  predicate IsFlag(c: char) { c in {'#', '0', '+', '-', ' '} }

  predicate IsDigit(c: char) { '0' <= c <= '9' }

  /** The flags loop: '#', '0', '+', '-' and ' ' are consumed. */
  function SkipFlags(s: string): (r: string)
    ensures |r| <= |s| && r == s[|s| - |r|..]
    ensures r == [] || !IsFlag(r[0])
  {
    if s != [] && IsFlag(s[0]) then SkipFlags(s[1..]) else s
  }

  /** fmt's parsenum: reads leading digits; a number past 10^6 abandons the rest of the
      format (the scanner jumps to its end). Returns whether a number was read and the
      unread remainder. */
  function ParseNum(s: string, num: nat, isNum: bool): (r: (bool, string))
    ensures |r.1| <= |s|
    decreases |s|
  {
    if s == [] || !IsDigit(s[0]) then (isNum, s)
    else if num > 1_000_000 then (false, [])
    else ParseNum(s[1..], num * 10 + (s[0] as int - '0' as int), true)
  }

  /** Index of the first ']' in s at or after i, or |s| when there is none. */
  function CloseBracket(s: string, i: nat): (j: nat)
    requires i <= |s|
    ensures i <= j <= |s|
    ensures j < |s| ==> s[j] == ']'
    ensures forall k | i <= k < j :: s[k] != ']'
    decreases |s| - i
  {
    if i == |s| || s[i] == ']' then i else CloseBracket(s, i + 1)
  }

  /** fmt's parseArgNumber on a text starting with '[': how many characters the index takes
      and whether it was a well-formed number in brackets. */
  function ArgNumber(s: string): (r: (nat, bool))
    requires s != [] && s[0] == '['
    ensures 1 <= r.0 <= |s|
  {
    if |s| < 3 then (1, false)
    else
      var j := CloseBracket(s, 1);
      if j == |s| then (1, false)
      else
        var n := ParseNum(s[1..j], 0, false);
        (j + 1, n.0 && n.1 == [])
  }

  /** fmt's argNumber: an explicit index "[n]". With no operands every index is out of range,
      so any '[' spoils the directive's argument number. */
  function Index(c: Cursor): (r: Cursor)
    ensures |r.rest| <= |c.rest|
  {
    if c.rest == [] || c.rest[0] != '[' then c.(afterIndex := false)
    else
      var a := ArgNumber(c.rest);
      c.(rest := c.rest[a.0..], goodArgNum := false, afterIndex := a.1)
  }

  /** The width: '*' asks for a missing operand and prints "%!(BADWIDTH)". */
  function Width(c: Cursor): (r: Cursor)
    ensures |r.rest| <= |c.rest|
  {
    if c.rest != [] && c.rest[0] == '*' then
      c.(rest := c.rest[1..], out := c.out + "%!(BADWIDTH)", afterIndex := false)
    else
      var n := ParseNum(c.rest, 0, false);
      c.(rest := n.1, goodArgNum := c.goodArgNum && !(c.afterIndex && n.0))
  }

  /** The precision, only when a '.' is followed by at least one more character. */
  function Precision(c: Cursor): (r: Cursor)
    ensures |r.rest| <= |c.rest|
  {
    if |c.rest| >= 2 && c.rest[0] == '.' then
      var c1 := Index(c.(rest := c.rest[1..], goodArgNum := c.goodArgNum && !c.afterIndex));
      if c1.rest != [] && c1.rest[0] == '*' then
        c1.(rest := c1.rest[1..], out := c1.out + "%!(BADPREC)", afterIndex := false)
      else
        c1.(rest := ParseNum(c1.rest, 0, false).1)
    else c
  }

  /** One directive, given the text after its '%': what it prints and the text after it. */
  function Directive(s: string): (r: (string, string))
    ensures |r.1| <= |s|
  {
    AfterFlags(SkipFlags(s))
  }

  /** The rest of a directive once its flags are consumed. */
  function AfterFlags(s: string): (r: (string, string))
    ensures |r.1| <= |s|
  {
    var c1 := Index(Cursor(s, "", true, false));
    var c2 := Precision(Width(c1));
    var c3 := if c2.afterIndex then c2 else Index(c2);
    if c3.rest == [] then (c3.out + "%!(NOVERB)", [])
    else
      var verb := c3.rest[0];
      var text :=
        if verb == '%' then "%"
        else if !c3.goodArgNum then "%!" + [verb] + "(BADINDEX)"
        else Missing(verb);
      (c3.out + text, c3.rest[1..])
  }

  /** What a verb prints when its operand is missing. */
  function Missing(verb: char): string {
    "%!" + [verb] + "(MISSING)"
  }

  /** The text of fmt.Errorf(format) with no operands: a text without '%' comes out unchanged. */
  function Errorf(format: string): (r: string)
    ensures '%' !in format ==> r == format
    decreases |format|, 1
  {
    if format == [] then []
    else if format[0] != '%' then
      assert [format[0]] + format[1..] == format;
      [format[0]] + Errorf(format[1..])
    else ErrorfDirectiveAt(format)
  }

  /** Errorf on a text that starts with '%': the directive's output, then the rest formatted. */
  function ErrorfDirectiveAt(format: string): string
    requires format != [] && format[0] == '%'
    decreases |format|, 0
  {
    var d := Directive(format[1..]);
    d.0 + Errorf(d.1)
  }

  /** A character other than '%' is copied. */
  lemma ErrorfPlainStep(s: string)
    requires s != [] && s[0] != '%'
    ensures Errorf(s) == [s[0]] + Errorf(s[1..])
  {
  }

  /** A cursor at the end of the text, or at a character that starts no index, width or
      precision, passes those three stages unchanged. */
  lemma PlainCursor(c: Cursor)
    requires !c.afterIndex
    requires c.rest == [] || (!IsDigit(c.rest[0]) && c.rest[0] !in {'[', '*', '.'})
    ensures Index(c) == c && Width(c) == c && Precision(c) == c
  {
    assert ParseNum(c.rest, 0, false) == (false, c.rest);
  }

  /** After the flags, a directive without index, width or precision prints "%!(NOVERB)" at the
      end of the text, "%" for the verb '%' and the missing-operand diagnostic for any other verb. */
  lemma AfterFlagsPlain(s: string)
    requires s == [] || (!IsDigit(s[0]) && s[0] !in {'[', '*', '.'})
    ensures s == [] ==> AfterFlags(s) == ("%!(NOVERB)", [])
    ensures s != [] ==> AfterFlags(s) == (if s[0] == '%' then "%" else Missing(s[0]), s[1..])
  {
    var c := Cursor(s, "", true, false);
    PlainCursor(c);
    var c3 := if c.afterIndex then c else Index(c);
    assert c3 == c;
    if s == [] {
      assert c3.out + "%!(NOVERB)" == "%!(NOVERB)";
    } else {
      var text := if s[0] == '%' then "%" else Missing(s[0]);
      assert c3.rest[0] == s[0];
      assert c3.out + text == text;
    }
  }

  /** A bare verb (no index, width or precision) prints "%" for '%' and the missing-operand
      diagnostic for any other verb. */
  lemma AfterFlagsBareVerb(verb: char, rest: string)
    requires !IsFlag(verb) && !IsDigit(verb) && verb !in {'[', '*', '.'}
    ensures AfterFlags([verb] + rest) ==
            (if verb == '%' then "%" else Missing(verb), rest)
  {
    var t := [verb] + rest;
    assert t[0] == verb && t[1..] == rest;
    AfterFlagsPlain(t);
  }

  /** Flags are skipped up to the first character that is not a flag. */
  lemma {:induction false} SkipFlagsPrefix(flags: string, t: string)
    requires forall i | 0 <= i < |flags| :: IsFlag(flags[i])
    requires t != [] && !IsFlag(t[0])
    ensures SkipFlags(flags + t) == t
    decreases |flags|
  {
    if flags != [] {
      assert (flags + t)[1..] == flags[1..] + t;
      SkipFlagsPrefix(flags[1..], t);
    } else {
      assert flags + t == t;
    }
  }

  /** A '%' hands the text after it to Directive and formats what Directive leaves. */
  lemma ErrorfDirective(after: string)
    ensures Errorf("%" + after) == Directive(after).0 + Errorf(Directive(after).1)
  {
    var format := "%" + after;
    assert format[0] == '%' && format[1..] == after;
    assert Errorf(format) == ErrorfDirectiveAt(format);
  }

  /** Text before the first '%' is copied and the rest is formatted on its own. */
  lemma {:induction false} ErrorfAppendPlain(plain: string, rest: string)
    requires '%' !in plain
    ensures Errorf(plain + rest) == plain + Errorf(rest)
    decreases |plain|
  {
    if plain == [] {
      assert plain + rest == rest;
    } else {
      var s := plain + rest;
      assert s[0] == plain[0] && s[1..] == plain[1..] + rest;
      ErrorfPlainStep(s);
      ErrorfAppendPlain(plain[1..], rest);
      ConsAppend(plain, Errorf(rest));
    }
  }

  lemma ConsAppend(a: string, b: string)
    requires a != []
    ensures [a[0]] + (a[1..] + b) == a + b
  {
    assert [a[0]] + a[1..] == a;
  }

  /** A doubled '%' comes out as a single one. */
  lemma ErrorfPercentPercent()
    ensures Errorf("%%") == "%"
  {
    AfterFlagsBareVerb('%', "");
    assert SkipFlags("%") == ['%'] + "";
    ErrorfDirective("%");
  }

  /** A '%' before flags and a verb other than '%' becomes a diagnostic in place of that
      text: the captured text is not reproduced. */
  lemma ErrorfMissingOperand(flags: string, verb: char, tail: string)
    requires '%' !in tail
    requires forall i | 0 <= i < |flags| :: IsFlag(flags[i])
    requires !IsFlag(verb) && !IsDigit(verb) && verb !in {'[', '*', '.', '%'}
    ensures Errorf("%" + (flags + ([verb] + tail))) == Missing(verb) + tail
  {
    var after := flags + ([verb] + tail);
    SkipFlagsPrefix(flags, [verb] + tail);
    AfterFlagsBareVerb(verb, tail);
    ErrorfDirective(after);
  }
}
