/** Text helpers shared by the index format and the integrity strings:
    splitting and joining on a separator (Rust's `str::split`), the lines of
    a file (`BufRead::lines`), decimal numbers and quoted strings. */
module Text {
  import opened Wrappers

  /** Position of the first occurrence of `c` in `s`. */
  function IndexOf(s: string, c: char): (i: nat)
    requires c in s
    ensures i < |s| && s[i] == c
    ensures forall k :: 0 <= k < i ==> s[k] != c
  {
    if s[0] == c then 0 else IndexOf(s[1..], c) + 1
  }

  /** The first occurrence is unique: any position holding `c` with no
      earlier `c` is `IndexOf`. */
  lemma {:induction false} IndexOfIs(s: string, c: char, i: nat)
    requires i < |s| && s[i] == c
    requires forall k :: 0 <= k < i ==> s[k] != c
    ensures IndexOf(s, c) == i
  {
    if i > 0 {
      IndexOfIs(s[1..], c, i - 1);
    }
  }

  /** The pieces of `s` between occurrences of `sep`, as Rust's
      `s.split(sep)` yields them: always at least one piece, and no piece
      contains the separator. */
  function Split(s: string, sep: char): (parts: seq<string>)
    ensures |parts| >= 1
    ensures forall p <- parts :: sep !in p
    decreases |s|
  {
    if sep !in s then [s]
    else
      var i := IndexOf(s, sep);
      [s[..i]] + Split(s[i + 1..], sep)
  }

  /** A position holding the first separator is where `Split` cuts. */
  lemma SplitAt(s: string, sep: char, i: nat)
    requires i < |s| && s[i] == sep
    requires forall k :: 0 <= k < i ==> s[k] != sep
    ensures Split(s, sep) == [s[..i]] + Split(s[i + 1..], sep)
  {
    IndexOfIs(s, sep, i);
  }

  /** Splitting at one more separator splits each side independently. */
  lemma {:induction false} SplitAppend(a: string, sep: char, b: string)
    ensures Split(a + [sep] + b, sep) == Split(a, sep) + Split(b, sep)
    decreases |a|
  {
    if sep !in a {
      SplitAppendPlain(a, sep, b);
    } else {
      var i := IndexOf(a, sep);
      var rest := a[i + 1..];
      SplitAppendStep(a, sep, b, i);
      SplitAppend(rest, sep, b);
      SplitFirst(a, sep, i);
      AppendAssoc([a[..i]], Split(rest, sep), Split(b, sep));
    }
  }

  lemma AppendAssoc<T>(x: seq<T>, y: seq<T>, z: seq<T>)
    ensures x + (y + z) == (x + y) + z
  {
  }

  lemma SplitFirst(a: string, sep: char, i: nat)
    requires sep in a && i == IndexOf(a, sep)
    ensures Split(a, sep) == [a[..i]] + Split(a[i + 1..], sep)
  {
  }

  /** A first piece free of the separator is cut off whole. */
  lemma SplitAppendPlain(a: string, sep: char, b: string)
    requires sep !in a
    ensures Split(a + [sep] + b, sep) == Split(a, sep) + Split(b, sep)
  {
    var s := a + [sep] + b;
    forall k | 0 <= k < |a|
      ensures s[k] != sep
    {
      assert s[k] == a[k];
    }
    SplitAt(s, sep, |a|);
    assert s[..|a|] == a;
    assert s[|a| + 1..] == b;
  }

  /** The first separator of `a` is also the first of `a + [sep] + b`. */
  lemma SplitAppendStep(a: string, sep: char, b: string, i: nat)
    requires sep in a && i == IndexOf(a, sep)
    ensures Split(a + [sep] + b, sep) == [a[..i]] + Split(a[i + 1..] + [sep] + b, sep)
  {
    var s := a + [sep] + b;
    forall k | 0 <= k < i
      ensures s[k] != sep
    {
      assert s[k] == a[..i][k];
    }
    SplitAt(s, sep, i);
    assert s[..i] == a[..i];
    assert s[i + 1..] == a[i + 1..] + [sep] + b;
  }

  /** The pieces joined back with the separator between them. */
  function Join(parts: seq<string>, sep: char): string
    requires |parts| >= 1
  {
    if |parts| == 1 then parts[0] else parts[0] + [sep] + Join(parts[1..], sep)
  }

  /** Joining pieces free of the separator and splitting again gives the
      pieces back. */
  lemma {:induction false} SplitJoin(parts: seq<string>, sep: char)
    requires |parts| >= 1
    requires forall p <- parts :: sep !in p
    ensures Split(Join(parts, sep), sep) == parts
  {
    if |parts| > 1 {
      SplitAppend(parts[0], sep, Join(parts[1..], sep));
      SplitJoin(parts[1..], sep);
    }
  }

  /** Splitting and joining again gives the text back. */
  lemma {:induction false} JoinSplit(s: string, sep: char)
    ensures Join(Split(s, sep), sep) == s
    decreases |s|
  {
    if sep in s {
      var i := IndexOf(s, sep);
      var rest := s[i + 1..];
      JoinSplit(rest, sep);
      SplitFirst(s, sep, i);
      JoinCons(s[..i], Split(rest, sep), sep);
      CutAt(s, i);
    }
  }

  /** A string is what comes before position `i`, the character there and
      what comes after. */
  lemma CutAt(s: string, i: nat)
    requires i < |s|
    ensures s == s[..i] + [s[i]] + s[i + 1..]
  {
  }

  lemma JoinCons(x: string, parts: seq<string>, sep: char)
    requires |parts| >= 1
    ensures Join([x] + parts, sep) == x + [sep] + Join(parts, sep)
  {
    assert ([x] + parts)[1..] == parts;
  }

  /** The lines of a file as `BufRead::lines` yields them: the text split at
      each newline, where a final newline does not start another line and an
      empty file has no lines. */
  function Lines(s: string): seq<string> {
    var parts := Split(s, '\n');
    if parts[|parts| - 1] == "" then parts[..|parts| - 1] else parts
  }

  /** `Lines` differs from the raw split only by a trailing empty piece. */
  lemma LinesOfSplit(s: string)
    ensures Split(s, '\n') == Lines(s) || Split(s, '\n') == Lines(s) + [""]
  {
  }

  // ---------------------------------------------------------------------
  // Decimal numbers

  predicate IsDigit(c: char) {
    '0' <= c <= '9'
  }

  function DigitChar(d: nat): (c: char)
    requires d < 10
    ensures IsDigit(c)
  {
    (('0' as int) + d) as char
  }

  function DigitValue(c: char): (d: nat)
    requires IsDigit(c)
    ensures d < 10
  {
    (c as int) - ('0' as int)
  }

  /** The decimal rendering of a number, most significant digit first. */
  function Decimal(n: nat): (s: string)
    ensures |s| >= 1
    ensures forall c <- s :: IsDigit(c)
  {
    if n < 10 then [DigitChar(n)] else Decimal(n / 10) + [DigitChar(n % 10)]
  }

  /** The number a run of digits denotes. */
  function DigitsValue(s: string): nat
    requires forall c <- s :: IsDigit(c)
  {
    if s == [] then 0 else DigitsValue(s[..|s| - 1]) * 10 + DigitValue(s[|s| - 1])
  }

  lemma {:induction false} DecimalValue(n: nat)
    ensures DigitsValue(Decimal(n)) == n
  {
    if n >= 10 {
      var s := Decimal(n);
      assert s[..|s| - 1] == Decimal(n / 10);
      DecimalValue(n / 10);
    }
  }

  /** Length of the run of digits that starts `s`. */
  function DigitRun(s: string): (n: nat)
    ensures n <= |s|
    ensures forall k :: 0 <= k < n ==> IsDigit(s[k])
    ensures n < |s| ==> !IsDigit(s[n])
  {
    if s == [] || !IsDigit(s[0]) then 0 else 1 + DigitRun(s[1..])
  }

  lemma DigitRunIs(s: string, n: nat)
    requires n <= |s|
    requires forall k :: 0 <= k < n ==> IsDigit(s[k])
    requires n < |s| ==> !IsDigit(s[n])
    ensures DigitRun(s) == n
  {
  }

  /** Reads a non-empty run of digits at the start of `s` and returns its
      value with the remaining text. */
  function ScanNat(s: string): (r: Option<(nat, string)>)
    ensures r.Some? ==> |r.value.1| < |s| && s == s[..|s| - |r.value.1|] + r.value.1
  {
    var n := DigitRun(s);
    if n == 0 then None else Some((DigitsValue(s[..n]), s[n..]))
  }

  /** Reading back a rendered number stops at the first non-digit. */
  lemma ScanDecimal(n: nat, rest: string)
    requires rest == [] || !IsDigit(rest[0])
    ensures ScanNat(Decimal(n) + rest) == Some((n, rest))
  {
    var d := Decimal(n);
    var s := d + rest;
    DigitRunIs(s, |d|);
    assert s[..|d|] == d;
    assert s[|d|..] == rest;
    DecimalValue(n);
  }

  // ---------------------------------------------------------------------
  // Quoted strings

  /** The escaped form of one character inside a quoted string. */
  function EscapeChar(c: char): (e: string)
    ensures |e| >= 1 && '\t' !in e && '\n' !in e && '\r' !in e && '"' != e[0]
  {
    if c == '"' then "\\\""
    else if c == '\\' then "\\\\"
    else if c == '\n' then "\\n"
    else if c == '\t' then "\\t"
    else if c == '\r' then "\\r"
    else [c]
  }

  /** The body of a quoted string: special characters are escaped, so the
      result holds no raw tab, newline, carriage return or unescaped quote. */
  function Escape(s: string): (e: string)
    ensures '\t' !in e && '\n' !in e && '\r' !in e
  {
    if s == [] then [] else EscapeChar(s[0]) + Escape(s[1..])
  }

  /** The character an escape sequence `\c` stands for. */
  function Unescape(c: char): Option<char> {
    if c == '"' then Some('"')
    else if c == '\\' then Some('\\')
    else if c == 'n' then Some('\n')
    else if c == 't' then Some('\t')
    else if c == 'r' then Some('\r')
    else None
  }

  /** Reads the body of a quoted string up to its closing quote; returns the
      unescaped body and the text after the quote. */
  function ScanString(s: string): Option<(string, string)>
    decreases |s|
  {
    if s == [] then None
    else if s[0] == '"' then Some(([], s[1..]))
    else if s[0] == '\\' then
      if |s| < 2 then None
      else
        match Unescape(s[1])
        case None => None
        case Some(c) =>
          match ScanString(s[2..])
          case None => None
          case Some((body, rest)) => Some(([c] + body, rest))
    else
      match ScanString(s[1..])
      case None => None
      case Some((body, rest)) => Some(([s[0]] + body, rest))
  }

  /** A plain character in front of a quoted body is kept as it is. */
  lemma ScanPlain(c: char, t: string, body: string, rest: string)
    requires c != '"' && c != '\\'
    requires ScanString(t) == Some((body, rest))
    ensures ScanString([c] + t) == Some(([c] + body, rest))
  {
    assert ([c] + t)[1..] == t;
  }

  /** An escape sequence in front of a quoted body stands for one character. */
  lemma ScanEscapeSequence(d: char, t: string, body: string, rest: string)
    requires Unescape(d).Some?
    requires ScanString(t) == Some((body, rest))
    ensures ScanString(['\\', d] + t) == Some(([Unescape(d).value] + body, rest))
  {
    assert (['\\', d] + t)[2..] == t;
  }

  /** One escaped character in front of a quoted body reads back as that
      character. */
  lemma ScanEscapedChar(c: char, t: string, body: string, rest: string)
    requires ScanString(t) == Some((body, rest))
    ensures ScanString(EscapeChar(c) + t) == Some(([c] + body, rest))
  {
    if c == '"' {
      ScanEscapeSequence('"', t, body, rest);
    } else if c == '\\' {
      ScanEscapeSequence('\\', t, body, rest);
    } else if c == '\n' {
      ScanEscapeSequence('n', t, body, rest);
    } else if c == '\t' {
      ScanEscapeSequence('t', t, body, rest);
    } else if c == '\r' {
      ScanEscapeSequence('r', t, body, rest);
    } else {
      ScanPlain(c, t, body, rest);
    }
  }

  /** An escaped body followed by the closing quote reads back as the
      original string. */
  lemma {:induction false} ScanEscaped(x: string, rest: string)
    ensures ScanString(Escape(x) + "\"" + rest) == Some((x, rest))
  {
    if x == [] {
      assert Escape(x) + "\"" + rest == ['"'] + rest;
    } else {
      var c := x[0];
      var tail := Escape(x[1..]) + "\"" + rest;
      assert Escape(x) == EscapeChar(c) + Escape(x[1..]);
      AppendAssoc(EscapeChar(c), Escape(x[1..]) + "\"", rest);
      AppendAssoc(EscapeChar(c), Escape(x[1..]), "\"");
      ScanEscaped(x[1..], rest);
      ScanEscapedChar(c, tail, x[1..], rest);
      assert x == [c] + x[1..];
    }
  }
}
