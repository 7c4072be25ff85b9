/** The parts of Go's `strings` and `strconv` packages that the hub's command line relies on:
    strings.TrimSpace, strings.Split(s, " "), strconv.Atoi (on a 64-bit platform) and the
    decimal rendering of an `int` that `%d` produces. Strings are sequences of Unicode code
    points; Go works on UTF-8 bytes, which agrees for valid UTF-8 input. */
module Text {

  /* ---------------- strings.TrimSpace ---------------- */

  /** unicode.IsSpace: the Latin-1 spaces and the other code points with the White_Space property. */
  predicate IsSpace(c: char) {
    c in {'\t', '\n', '\U{0B}', '\U{0C}', '\r', ' ', '\U{85}', '\U{A0}',
          '\U{1680}', '\U{2028}', '\U{2029}', '\U{202F}', '\U{205F}', '\U{3000}'}
    || ('\U{2000}' <= c <= '\U{200A}')
  }

  /** Drops leading white space. */
  function TrimLeft(s: string): (r: string)
    ensures |r| <= |s| && r == s[|s| - |r|..]
    ensures forall i | 0 <= i < |s| - |r| :: IsSpace(s[i])
    ensures r == [] || !IsSpace(r[0])
  {
    if s != [] && IsSpace(s[0]) then TrimLeft(s[1..]) else s
  }

  /** Drops trailing white space. */
  function TrimRight(s: string): (r: string)
    ensures |r| <= |s| && r == s[..|r|]
    ensures forall i | |r| <= i < |s| :: IsSpace(s[i])
    ensures r == [] || !IsSpace(r[|r| - 1])
  {
    if s != [] && IsSpace(s[|s| - 1]) then TrimRight(s[..|s| - 1]) else s
  }

  /** Every character is white space. */
  predicate AllSpace(t: string) {
    forall j | 0 <= j < |t| :: IsSpace(t[j])
  }

  /** How many white-space characters s starts with. */
  function Leading(s: string): (n: nat)
    ensures n <= |s|
  {
    |s| - |TrimLeft(s)|
  }

  /** Drops white space at both ends: the result is the slice of s between its leading and its
      trailing white space, so it is empty exactly when s is all white space, it neither starts nor
      ends with white space, and a string without white space at its ends is its own trim. */
  function TrimSpace(s: string): (r: string)
    ensures Leading(s) + |r| <= |s| && r == s[Leading(s)..Leading(s) + |r|]
    ensures AllSpace(s[..Leading(s)]) && AllSpace(s[Leading(s) + |r|..])
    ensures r == [] <==> AllSpace(s)
    ensures r == [] || (!IsSpace(r[0]) && !IsSpace(r[|r| - 1]))
    ensures s == [] || (!IsSpace(s[0]) && !IsSpace(s[|s| - 1])) ==> r == s
  {
    TrimRight(TrimLeft(s))
  }

  /** A trailing line break (as bufio.Reader.ReadString('\n') leaves it) is trimmed away. */
  lemma {:induction false} TrimSpaceDropsNewline(s: string)
    requires s != [] && !IsSpace(s[0]) && !IsSpace(s[|s| - 1])
    ensures TrimSpace(s + "\n") == s
  {
    assert TrimLeft(s + "\n") == s + "\n";
    assert (s + "\n")[..|s|] == s;
    assert TrimRight(s + "\n") == TrimRight(s);
  }

  /* ---------------- strings.Split(s, " ") ---------------- */

  /** strings.Split with the separator " ": every single space separates two fields, so
      consecutive spaces give empty fields and the empty string gives one empty field. */
  function Split(s: string): (parts: seq<string>)
    ensures |parts| >= 1
    ensures forall i | 0 <= i < |parts| :: ' ' !in parts[i]
    decreases |s|
  {
    if s == [] then [""]
    else
      var rest := Split(s[1..]);
      if s[0] == ' ' then [""] + rest
      else [[s[0]] + rest[0]] + rest[1..]
  }

  /** strings.Join(parts, " "). */
  function Join(parts: seq<string>): string
    decreases |parts|
  {
    if |parts| == 0 then ""
    else if |parts| == 1 then parts[0]
    else parts[0] + " " + Join(parts[1..])
  }

  /** Joining the fields again gives back the split string. */
  lemma {:induction false} JoinSplit(s: string)
    ensures Join(Split(s)) == s
    decreases |s|
  {
    if s != [] {
      var rest := Split(s[1..]);
      JoinSplit(s[1..]);
      if s[0] == ' ' {
        assert Split(s) == [""] + rest;
        assert Join(Split(s)) == "" + " " + Join(rest);
        assert s == [' '] + s[1..];
      } else {
        var parts := Split(s);
        assert parts == [[s[0]] + rest[0]] + rest[1..];
        if |rest| == 1 {
          assert Join(parts) == [s[0]] + rest[0];
          assert Join(rest) == rest[0];
        } else {
          assert parts[1..] == rest[1..];
          assert Join(parts) == [s[0]] + rest[0] + " " + Join(rest[1..]);
          assert Join(rest) == rest[0] + " " + Join(rest[1..]);
        }
        assert s == [s[0]] + s[1..];
      }
    }
  }

  /** A field without spaces is split into itself. */
  lemma {:induction false} SplitField(p: string)
    requires ' ' !in p
    ensures Split(p) == [p]
    decreases |p|
  {
    if p != [] {
      SplitField(p[1..]);
      assert [p[0]] + p[1..] == p;
    }
  }

  /** A field without spaces followed by a space and a tail is split off as the first field. */
  lemma {:induction false} SplitFieldThenSpace(p: string, tail: string)
    requires ' ' !in p
    ensures Split(p + " " + tail) == [p] + Split(tail)
    decreases |p|
  {
    var s := p + " " + tail;
    if p == [] {
      assert s[1..] == tail;
    } else {
      assert s[1..] == p[1..] + " " + tail;
      SplitFieldThenSpace(p[1..], tail);
      assert [p[0]] + p[1..] == p;
    }
  }

  /** Splitting a join of space-free fields gives the fields back. */
  lemma {:induction false} SplitJoin(parts: seq<string>)
    requires |parts| >= 1
    requires forall i | 0 <= i < |parts| :: ' ' !in parts[i]
    ensures Split(Join(parts)) == parts
    decreases |parts|
  {
    if |parts| == 1 {
      SplitField(parts[0]);
    } else {
      SplitFieldThenSpace(parts[0], Join(parts[1..]));
      SplitJoin(parts[1..]);
      assert [parts[0]] + parts[1..] == parts;
    }
  }

  /* ---------------- decimal rendering (%d, strconv.Itoa) ---------------- */

  predicate IsDigit(c: char) { '0' <= c <= '9' }

  function DigitChar(d: nat): (c: char)
    requires d < 10
    ensures IsDigit(c) && c as int - '0' as int == d
  {
    ('0' as int + d) as char
  }

  /** The decimal digits of n, most significant first, without leading zeros. */
  function Decimal(n: nat): (s: string)
    ensures |s| >= 1
    ensures forall i | 0 <= i < |s| :: IsDigit(s[i])
  {
    if n < 10 then [DigitChar(n)] else Decimal(n / 10) + [DigitChar(n % 10)]
  }

  /** How `%d` (and strconv.Itoa) render an int: a minus sign for negative values. */
  function Itoa(n: int): string {
    if n < 0 then "-" + Decimal(-n) else Decimal(n)
  }

  /* ---------------- strconv.Atoi ---------------- */

  const MaxUint64: int := 0xFFFF_FFFF_FFFF_FFFF
  const MaxInt64: int := 0x7FFF_FFFF_FFFF_FFFF
  const MinInt64: int := -0x8000_0000_0000_0000

  /** Outcome of strconv.ParseUint's digit loop. */
  datatype Scan = SyntaxError | RangeError | Value(n: nat)

  /** ParseUint's loop in base 10 from accumulator acc: a non-digit is a syntax error, a value
      past 2^64 - 1 is a range error reported at once (later characters are not looked at). */
  function ScanDigits(s: string, acc: nat): Scan
    decreases |s|
  {
    if s == [] then Value(acc)
    else if !IsDigit(s[0]) then SyntaxError
    else
      var n := acc * 10 + (s[0] as int - '0' as int);
      if n > MaxUint64 then RangeError else ScanDigits(s[1..], n)
  }

  /** strconv.Atoi's value with its error discarded, as the hub does: a syntax error gives 0,
      a range error gives the nearest 64-bit bound. */
  function Atoi(s: string): (n: int)
    ensures MinInt64 <= n <= MaxInt64
  {
    if s == [] then 0
    else
      var neg := s[0] == '-';
      var digits := if s[0] == '+' || s[0] == '-' then s[1..] else s;
      if digits == [] then 0
      else
        match ScanDigits(digits, 0)
        case SyntaxError => 0
        case RangeError => if neg then MinInt64 else MaxInt64
        case Value(u) =>
          if !neg && u > MaxInt64 then MaxInt64
          else if neg && u > -MinInt64 then MinInt64
          else if neg then 0 - u else u
  }

  /** Scanning a concatenation scans the first part, then continues from its value. */
  lemma {:induction false} ScanDigitsAppend(a: string, b: string, acc: nat)
    ensures ScanDigits(a + b, acc) ==
            match ScanDigits(a, acc)
            case Value(x) => ScanDigits(b, x)
            case other => other
    decreases |a|
  {
    if a != [] {
      assert (a + b)[0] == a[0] && (a + b)[1..] == a[1..] + b;
      if IsDigit(a[0]) {
        var n := acc * 10 + (a[0] as int - '0' as int);
        if n <= MaxUint64 {
          ScanDigitsAppend(a[1..], b, n);
        }
      }
    } else {
      assert a + b == b;
    }
  }

  /** The digit loop reads back the value whose decimal digits it is given. */
  lemma {:induction false} ScanDecimal(n: nat)
    requires n <= MaxUint64
    ensures ScanDigits(Decimal(n), 0) == Value(n)
  {
    if n >= 10 {
      ScanDecimal(n / 10);
      ScanDigitsAppend(Decimal(n / 10), [DigitChar(n % 10)], 0);
      assert ScanDigits([DigitChar(n % 10)], n / 10) == Value(n / 10 * 10 + n % 10);
    }
  }

  /** Round trip: Atoi reads back what Itoa writes, for every 64-bit int. */
  lemma AtoiItoa(n: int)
    requires MinInt64 <= n <= MaxInt64
    ensures Atoi(Itoa(n)) == n
  {
    if n < 0 {
      ScanDecimal(-n);
      assert Itoa(n)[1..] == Decimal(-n);
    } else {
      ScanDecimal(n);
    }
  }

  /** Non-empty and made of decimal digits only. */
  predicate AllDigits(digits: string) {
    digits != [] && forall i | 0 <= i < |digits| :: IsDigit(digits[i])
  }

  /** A decimal number with an optional sign, the syntax Atoi accepts. */
  predicate IsSignedDecimal(s: string) {
    if s != [] && (s[0] == '+' || s[0] == '-') then AllDigits(s[1..]) else AllDigits(s)
  }

  function Pow10(k: nat): (p: nat)
    ensures p >= 1
  {
    if k == 0 then 1 else 10 * Pow10(k - 1)
  }

  /** Below the overflow bound, the digit loop fails exactly when it meets a non-digit. */
  lemma {:induction false} ScanShortNonDigit(s: string, acc: nat, k: nat)
    requires |s| + k <= 18 && acc < Pow10(k)
    requires exists i | 0 <= i < |s| :: !IsDigit(s[i])
    ensures ScanDigits(s, acc) == SyntaxError
    decreases |s|
  {
    if IsDigit(s[0]) {
      var n := acc * 10 + (s[0] as int - '0' as int);
      assert n < Pow10(k + 1);
      ShortFits(k + 1);
      var i :| 0 <= i < |s| && !IsDigit(s[i]);
      assert i > 0 && !IsDigit(s[1..][i - 1]);
      ScanShortNonDigit(s[1..], n, k + 1);
    }
  }

  /** Numbers of at most 18 digits fit the digit loop without overflow. */
  lemma ShortFits(k: nat)
    requires k <= 18
    ensures Pow10(k) <= MaxUint64
  {
    Pow10Monotone(k, 18);
    Pow10Eighteen();
  }

  lemma Pow10Eighteen()
    ensures Pow10(18) == 1_000_000_000_000_000_000
  {
    assert Pow10(6) == 1_000_000;
    assert Pow10(12) == 1_000_000_000_000;
  }

  lemma {:induction false} Pow10Monotone(j: nat, k: nat)
    requires j <= k
    ensures Pow10(j) <= Pow10(k)
    decreases k
  {
    if j < k {
      Pow10Monotone(j, k - 1);
    }
  }

  /** A field that is not a plain decimal number, at most 18 characters long (so the digit loop
      cannot overflow), reads as 0: the hub then acts on child 0. */
  lemma AtoiNonNumeric(s: string)
    requires |s| <= 18 && !IsSignedDecimal(s)
    ensures Atoi(s) == 0
  {
    if s != [] {
      var digits := if s[0] == '+' || s[0] == '-' then s[1..] else s;
      if digits != [] {
        assert exists i | 0 <= i < |digits| :: !IsDigit(digits[i]);
        ScanShortNonDigit(digits, 0, 0);
      }
    }
  }
}
