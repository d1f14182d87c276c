// The REPL of libfskit/repl.c: the statement tokenizer, the numeric
// argument parsers, the fixed-size descriptor tables and the argument
// counts each command demands.
module Repl {
  import opened Opt
  import opened Errno
  import opened Strs
  import opened Slots

  /** FSKIT_REPL_ARGC_MAX: no statement has this many arguments. */
  const ARGC_MAX: nat := 10
  /** FSKIT_REPL_FILE_HANDLE_MAX: the size of each descriptor table. */
  const HANDLE_MAX: nat := 1024
  /** The delimiters between the words of a statement. */
  const WS: set<char> := {' ', '\t'}

  /** A parsed statement: the command word and its arguments; argc is |argv|. */
  datatype Stmt = Stmt(cmd: string, argv: seq<string>)

  /**
   * What getline hands the parser: a line of at least one character (its
   * last one, normally the newline, is overwritten), the end of the
   * stream, or a stream error.
   */
  datatype Input = Line(raw: string) | Eof | StreamError

  // ---------------------------------------------------------------------
  // Tokenizing

  /** strspn: the length of the leading run of s made of characters in cs. */
  function Span(s: string, cs: set<char>): (n: nat)
    ensures n <= |s|
    ensures forall k :: 0 <= k < n ==> s[k] in cs
    ensures n == |s| || s[n] !in cs
  {
    if |s| == 0 || s[0] !in cs then 0 else 1 + Span(s[1..], cs)
  }

  /**
   * One strtok_r call on the text left in the save pointer: skip the
   * delimiters, take the token up to the next delimiter, and step over
   * that delimiter. No token once only delimiters are left, and then the
   * save pointer is at the end.
   */
  function Strtok(s: string, delims: set<char>): (res: (Option<string>, string))
    ensures res.0.Some? ==> |res.0.value| > 0
  {
    var t := s[Span(s, delims)..];
    if |t| == 0 then (None, t)
    else
      var n := RunLen(t, delims);
      (Some(t[..n]), if n < |t| then t[n + 1..] else t[n..])
  }

  /** Leading delimiters do not change the fields. */
  lemma {:induction false} FieldsSkip(s: string, seps: set<char>, k: nat)
    requires k <= |s| && forall i :: 0 <= i < k ==> s[i] in seps
    ensures Fields(s, seps) == Fields(s[k..], seps)
  {
    if k > 0 {
      FieldsSkip(s[1..], seps, k - 1);
      assert s[1..][k - 1..] == s[k..];
    }
  }

  /**
   * strtok_r hands out the fields one at a time: no token exactly when
   * there are no fields (the save pointer then at the end), else the
   * first field, with the rest of the fields left behind.
   */
  lemma StrtokFields(s: string, delims: set<char>)
    ensures Strtok(s, delims).0.None? <==> Fields(s, delims) == []
    ensures Strtok(s, delims).0.None? ==> Strtok(s, delims).1 == []
    ensures Strtok(s, delims).0.Some? ==>
              Fields(s, delims) == [Strtok(s, delims).0.value] + Fields(Strtok(s, delims).1, delims)
  {
    var k := Span(s, delims);
    FieldsSkip(s, delims, k);
    var t := s[k..];
    if |t| > 0 {
      var n := RunLen(t, delims);
      assert t[0] !in delims;
      assert Fields(t, delims) == [t[..n]] + Fields(t[n..], delims);
      if n < |t| {
        RunLenStops(t, delims);
        assert t[n..][0] in delims;
        assert t[n..][1..] == t[n + 1..];
      }
    }
  }

  /**
   * The literal last argument of write and setxattr: strtok_r with no
   * delimiters, called after strtok_r found no more words, finds nothing.
   */
  lemma LiteralAfterLastWord(s: string)
    requires Strtok(s, WS).0.None?
    ensures Strtok(Strtok(s, WS).1, {}).0.None?
  {
    StrtokFields(s, WS);
  }

  /**
   * The text the tokenizer sees: the last character read is overwritten
   * by a NUL, and the C string ends at the first NUL.
   */
  function LineOf(raw: string): (line: string)
    requires |raw| > 0
    ensures |line| < |raw| && line == raw[..|line|]
    ensures forall k :: 0 <= k < |line| ==> line[k] != NUL
    ensures |line| == |raw| - 1 || raw[|line|] == NUL
  {
    var body := raw[..|raw| - 1];
    RunLenStops(body, {NUL});
    body[..RunLen(body, {NUL})]
  }

  /** write and setxattr keep their last argument as a literal. */
  predicate LiteralLast(cmd: string)
  {
    cmd == "write" || cmd == "setxattr"
  }

  /** FSKIT_REPL_ARGC_MAX - last_arg_is_literal: the argument count that is refused. */
  function MaxArgs(cmd: string): (m: nat)
    ensures m == ARGC_MAX - 1 || m == ARGC_MAX
    ensures m == ARGC_MAX - 1 <==> LiteralLast(cmd)
  {
    if LiteralLast(cmd) then ARGC_MAX - 1 else ARGC_MAX
  }

  /**
   * What fskit_repl_stmt_parse gives back: -ENODATA at the end of the
   * stream, -EBADF on a stream error, no statement and 0 for a line with
   * no words, -EINVAL when the words after the command reach the
   * command's limit, and otherwise the statement made of the line's words.
   */
  function ParseSpec(input: Input): (res: (int, Option<Stmt>))
    requires input.Line? ==> |input.raw| > 0
    ensures input.Eof? ==> res == (-ENODATA, None)
    ensures input.StreamError? ==> res == (-EBADF, None)
    ensures input.Line? ==> (res == (0, None) <==> Fields(LineOf(input.raw), WS) == [])
    ensures input.Line? && res.0 != 0 ==>
              && res == (-EINVAL, None)
              && var f := Fields(LineOf(input.raw), WS);
                 |f| > 0 && |f| - 1 >= MaxArgs(f[0])
    ensures res.1.Some? ==>
              && input.Line? && res.0 == 0
              && Fields(LineOf(input.raw), WS) == [res.1.value.cmd] + res.1.value.argv
              && |res.1.value.argv| < MaxArgs(res.1.value.cmd)
  {
    match input
    case Eof => (-ENODATA, None)
    case StreamError => (-EBADF, None)
    case Line(raw) => WordsSpec(Fields(LineOf(raw), WS))
  }

  /** The statement made of a line's words, or 0 for no words, or -EINVAL past the command's limit. */
  function WordsSpec(f: seq<string>): (int, Option<Stmt>)
  {
    if |f| == 0 then (0, None)
    else if |f| - 1 >= MaxArgs(f[0]) then (-EINVAL, None)
    else (0, Some(Stmt(f[0], f[1..])))
  }

  /** One more strtok_r call hands out the next of the remaining words, or nothing when none is left. */
  lemma NextWord(rest: string, words: seq<string>, i: nat)
    requires i <= |words| && Fields(rest, WS) == words[i..]
    ensures var next := Strtok(rest, WS);
      && (next.0.None? <==> i == |words|)
      && (next.0.None? ==> next.1 == [])
      && (next.0.Some? ==> next.0.value == words[i] && Fields(next.1, WS) == words[i + 1..])
  {
    StrtokFields(rest, WS);
    if i < |words| {
      assert words[i..][0] == words[i];
      assert words[i..][1..] == words[i + 1..];
    }
  }

  /** fskit_repl_stmt_parse: the strtok_r loop that fills argv. */
  method StmtParse(input: Input) returns (rc: int, stmt: Option<Stmt>)
    requires input.Line? ==> |input.raw| > 0
    ensures (rc, stmt) == ParseSpec(input)
  {
    if input.Eof? {
      return -ENODATA, None;
    }
    if input.StreamError? {
      return -EBADF, None;
    }
    rc, stmt := ParseLine(LineOf(input.raw));
  }

  /** The strtok_r loop of fskit_repl_stmt_parse over the text of one line. */
  method ParseLine(line: string) returns (rc: int, stmt: Option<Stmt>)
    ensures (rc, stmt) == WordsSpec(Fields(line, WS))
  {
    if |line| == 0 {
      return 0, None;
    }
    var first := Strtok(line, WS);
    StrtokFields(line, WS);
    if first.0.None? {
      return 0, None;
    }
    var cmd := first.0.value;
    var rest := first.1;
    var literal: nat := if cmd == "write" || cmd == "setxattr" then 1 else 0;
    var max: nat := ARGC_MAX - literal;
    ghost var words := Fields(line, WS)[1..];
    var argv: seq<string> := [];
    var i: nat := 0;
    while i < max
      invariant i <= max && i <= |words|
      invariant argv == words[..i]
      invariant Fields(rest, WS) == words[i..]
    {
      var next := Strtok(rest, WS);
      NextWord(rest, words, i);
      rest := next.1;
      if next.0.None? {
        break;
      }
      assert words[..i + 1] == words[..i] + [words[i]];
      argv := argv + [next.0.value];
      i := i + 1;
    }
    if i == max {
      return -EINVAL, None;
    }
    if literal != 0 {
      // the argv[i] slot after the last word; it never holds anything
      var last := Strtok(rest, {});
      assert last.0.None?;
    }
    assert words[..i] == words;
    return 0, Some(Stmt(cmd, argv));
  }

  // ---------------------------------------------------------------------
  // Statements as text

  /** A word the tokenizer can hand out: non-empty, no space, tab or NUL. */
  predicate Word(w: string)
  {
    |w| > 0 && forall k :: 0 <= k < |w| ==> w[k] !in WS && w[k] != NUL
  }

  /** Words joined by single spaces. */
  function Unwords(ws: seq<string>): string
  {
    if |ws| == 0 then "" else if |ws| == 1 then ws[0] else ws[0] + " " + Unwords(ws[1..])
  }

  lemma UnwordsCons(w: string, ws: seq<string>)
    requires |ws| > 0
    ensures Unwords([w] + ws) == w + " " + Unwords(ws)
  {
    assert ([w] + ws)[1..] == ws;
  }

  /** A statement written as one input line. */
  function Unparse(st: Stmt): (raw: string)
    ensures |raw| > 0 && raw[|raw| - 1] == '\n'
  {
    Unwords([st.cmd] + st.argv) + "\n"
  }

  /** Joining adds only spaces, so a character no word holds is absent from the line. */
  lemma {:induction false} UnwordsAvoids(ws: seq<string>, c: char)
    requires c != ' '
    requires forall i, k :: 0 <= i < |ws| && 0 <= k < |ws[i]| ==> ws[i][k] != c
    ensures forall k :: 0 <= k < |Unwords(ws)| ==> Unwords(ws)[k] != c
  {
    if |ws| > 1 {
      var u := Unwords(ws[1..]);
      assert forall i, k :: 0 <= i < |ws[1..]| && 0 <= k < |ws[1..][i]| ==> ws[1..][i][k] != c by {
        forall i, k | 0 <= i < |ws[1..]| && 0 <= k < |ws[1..][i]| ensures ws[1..][i][k] != c {
          assert ws[1..][i] == ws[i + 1];
        }
      }
      UnwordsAvoids(ws[1..], c);
      forall k | 0 <= k < |Unwords(ws)| ensures Unwords(ws)[k] != c {
        if k < |ws[0]| {
          assert Unwords(ws)[k] == ws[0][k];
        } else if k == |ws[0]| {
          assert Unwords(ws)[k] == ' ';
        } else {
          assert Unwords(ws)[k] == u[k - |ws[0]| - 1];
        }
      }
    }
  }

  /** Tokenizing words joined by spaces gives the words back. */
  lemma {:induction false} FieldsUnwords(ws: seq<string>)
    requires forall i :: 0 <= i < |ws| ==> Word(ws[i])
    ensures Fields(Unwords(ws), WS) == ws
  {
    if |ws| == 1 {
      FieldsWord(ws[0], WS);
    } else if |ws| > 1 {
      FieldsWordSep(ws[0], ' ', WS);
      FieldsConcat(ws[0] + " ", Unwords(ws[1..]), WS);
      FieldsUnwords(ws[1..]);
    }
  }

  /**
   * Round trip: a statement of words, with fewer arguments than its
   * command's limit, written as a line, parses back to itself; with as
   * many or more, the line is refused with -EINVAL.
   */
  lemma ParseUnparse(st: Stmt)
    requires Word(st.cmd) && forall i :: 0 <= i < |st.argv| ==> Word(st.argv[i])
    ensures |st.argv| < MaxArgs(st.cmd) ==> ParseSpec(Line(Unparse(st))) == (0, Some(st))
    ensures |st.argv| >= MaxArgs(st.cmd) ==> ParseSpec(Line(Unparse(st))) == (-EINVAL, None)
  {
    var ws := [st.cmd] + st.argv;
    assert forall i :: 0 <= i < |ws| ==> Word(ws[i]);
    UnwordsAvoids(ws, NUL);
    var u := Unwords(ws);
    var raw := Unparse(st);
    assert raw[..|raw| - 1] == u;
    RunLenIs(u, {NUL}, |u|);
    assert u[..|u|] == u;
    assert LineOf(raw) == u;
    FieldsUnwords(ws);
    assert ws[1..] == st.argv;
  }

  // ---------------------------------------------------------------------
  // Numeric arguments

  const U32: nat := 0x1_0000_0000
  const U64: nat := 0x1_0000_0000_0000_0000
  /** The characters isspace accepts in the C locale. */
  const SPACES: set<char> := {' ', '\t', '\n', '\U{0B}', '\U{0C}', '\r'}
  const OCTAL: set<char> := {'0', '1', '2', '3', '4', '5', '6', '7'}
  const DECIMAL: set<char> := OCTAL + {'8', '9'}

  function DigitsOf(base: nat): set<char>
    requires base == 8 || base == 10
  {
    if base == 8 then OCTAL else DECIMAL
  }

  function DigitValue(c: char): nat
  {
    if '0' <= c <= '9' then c as int - '0' as int else 0
  }

  /** The value of a digit string, most significant digit first. */
  function Horner(d: string, base: nat): nat
  {
    if |d| == 0 then 0 else Horner(d[..|d| - 1], base) * base + DigitValue(d[|d| - 1])
  }

  /**
   * strtoull / strtoul on a 64-bit target (value, index where parsing
   * stopped) in base 8 or 10: leading white space, an optional sign, the
   * longest digit run; an out-of-range magnitude saturates, a '-' negates
   * modulo 2^64, and with no digits the value is 0 and nothing is used.
   */
  function StrToUll(s: string, base: nat): (res: (nat, nat))
    requires base == 8 || base == 10
    ensures res.0 < U64 && res.1 <= |s|
    ensures res.1 == 0 ==> res.0 == 0
  {
    var i := Span(s, SPACES);
    var signed := i < |s| && (s[i] == '+' || s[i] == '-');
    var j := if signed then i + 1 else i;
    var n := Span(s[j..], DigitsOf(base));
    if n == 0 then (0, 0)
    else
      var v := Horner(s[j..j + n], base);
      if v >= U64 then (U64 - 1, j + n)
      else if signed && s[i] == '-' then ((U64 - v) % U64, j + n)
      else (v, j + n)
  }

  /**
   * fskit_repl_stmt_parse_uint64: the value is strtoull's, and it fails
   * with -EINVAL exactly when that value is 0 and characters were left
   * unparsed.
   */
  function ParseUint64(s: string): (res: (int, nat))
    ensures res.0 == 0 || res.0 == -EINVAL
    ensures res.1 == StrToUll(s, 10).0
    ensures res.0 == -EINVAL <==> StrToUll(s, 10).0 == 0 && StrToUll(s, 10).1 < |s|
  {
    var (v, end) := StrToUll(s, 10);
    if v == 0 && end < |s| then (-EINVAL, v) else (0, v)
  }

  /**
   * fskit_repl_stmt_parse_mode: strtoul in base 8 stored in a 32-bit
   * mode_t; it fails with -EINVAL exactly when the stored value is 0 and
   * characters were left unparsed.
   */
  function ParseMode(s: string): (res: (int, nat))
    ensures res.0 == 0 || res.0 == -EINVAL
    ensures res.1 == StrToUll(s, 8).0 % U32
    ensures res.0 == -EINVAL <==> StrToUll(s, 8).0 % U32 == 0 && StrToUll(s, 8).1 < |s|
  {
    var (v, end) := StrToUll(s, 8);
    var mode := v % U32;
    if mode == 0 && end < |s| then (-EINVAL, mode) else (0, mode)
  }

  /** fskit_repl_stmt_parse_user_group: the user and group at argv[offset] and argv[offset + 1]. */
  function ParseUserGroup(argv: seq<string>, offset: nat): (res: (int, nat, nat))
    ensures res.0 == 0 || res.0 == -EINVAL
    ensures |argv| < offset + 2 ==> res.0 == -EINVAL
    ensures res.0 == 0 <==>
              |argv| >= offset + 2 && ParseUint64(argv[offset]).0 == 0 && ParseUint64(argv[offset + 1]).0 == 0
    ensures res.0 == 0 ==> res.1 == StrToUll(argv[offset], 10).0 && res.2 == StrToUll(argv[offset + 1], 10).0
  {
    if |argv| < offset + 2 then (-EINVAL, 0, 0)
    else
      var user := ParseUint64(argv[offset]);
      if user.0 != 0 then (user.0, user.1, 0)
      else
        var group := ParseUint64(argv[offset + 1]);
        (group.0, user.1, group.1)
  }

  /** A number written in base 8 or 10, most significant digit first. */
  function Render(n: nat, base: nat): (s: string)
    requires base == 8 || base == 10
    ensures |s| > 0
    decreases n
  {
    var d := [DigitOf(n % base)];
    if n < base then d else Render(n / base, base) + d
  }

  function DigitOf(d: nat): char
    requires d < 10
  {
    ('0' as int + d) as char
  }

  lemma DigitChar(d: nat, base: nat)
    requires (base == 8 || base == 10) && d < base
    ensures DigitOf(d) in DigitsOf(base) && DigitValue(DigitOf(d)) == d
  {
    if d == 0 { assert DigitOf(d) == '0'; }
    else if d == 1 { assert DigitOf(d) == '1'; }
    else if d == 2 { assert DigitOf(d) == '2'; }
    else if d == 3 { assert DigitOf(d) == '3'; }
    else if d == 4 { assert DigitOf(d) == '4'; }
    else if d == 5 { assert DigitOf(d) == '5'; }
    else if d == 6 { assert DigitOf(d) == '6'; }
    else if d == 7 { assert DigitOf(d) == '7'; }
    else if d == 8 { assert DigitOf(d) == '8'; }
    else { assert DigitOf(d) == '9'; }
  }

  lemma AllDigitsAppend(p: string, c: char, base: nat)
    requires base == 8 || base == 10
    requires (forall k :: 0 <= k < |p| ==> p[k] in DigitsOf(base)) && c in DigitsOf(base)
    ensures forall k :: 0 <= k < |p + [c]| ==> (p + [c])[k] in DigitsOf(base)
  {
    forall k | 0 <= k < |p + [c]| ensures (p + [c])[k] in DigitsOf(base) {
      if k < |p| {
        assert (p + [c])[k] == p[k];
      }
    }
  }

  /** A rendered number is all digits of its base. */
  lemma {:induction false} RenderDigits(n: nat, base: nat)
    requires base == 8 || base == 10
    ensures forall k :: 0 <= k < |Render(n, base)| ==> Render(n, base)[k] in DigitsOf(base)
    decreases n
  {
    DigitChar(n % base, base);
    if n >= base {
      RenderDigits(n / base, base);
      AllDigitsAppend(Render(n / base, base), DigitOf(n % base), base);
    }
  }

  /** A rendered number reads back as itself. */
  lemma {:induction false} RenderValue(n: nat, base: nat)
    requires base == 8 || base == 10
    ensures Horner(Render(n, base), base) == n
    decreases n
  {
    var q, r := n / base, n % base;
    assert n == q * base + r && r < base;
    DigitChar(r, base);
    var c := DigitOf(r);
    if n < base {
      assert [c][..0] == [];
    } else {
      var p := Render(q, base);
      RenderValue(q, base);
      var s := p + [c];
      assert s[..|s| - 1] == p && s[|s| - 1] == c;
      assert Horner(s, base) == q * base + r;
    }
  }

  lemma DigitIsNotSpace(c: char, base: nat)
    requires (base == 8 || base == 10) && c in DigitsOf(base)
    ensures c !in SPACES && c != '+' && c != '-'
  {
    assert c in DECIMAL;
    assert '0' <= c <= '9';
  }

  /**
   * strtoull on a digit run below 2^64 followed by a non-digit (or
   * nothing): the run's value, with parsing stopped right after it.
   */
  lemma StrToUllDigits(d: string, junk: string, base: nat)
    requires base == 8 || base == 10
    requires |d| > 0 && forall k :: 0 <= k < |d| ==> d[k] in DigitsOf(base)
    requires |junk| == 0 || junk[0] !in DigitsOf(base)
    requires Horner(d, base) < U64
    ensures StrToUll(d + junk, base) == (Horner(d, base), |d|)
  {
    var s := d + junk;
    assert s[0] == d[0];
    DigitIsNotSpace(d[0], base);
    assert Span(s, SPACES) == 0;
    assert s[0..] == s;
    assert !(s[0] == '+' || s[0] == '-');
    assert Span(s, DigitsOf(base)) == |d| by {
      assert forall k :: 0 <= k < |d| ==> s[k] == d[k];
      assert |d| < |s| ==> s[|d|] == junk[0];
    }
    assert s[0..|d|] == d;
  }

  /** strtoull reads a rendered number whole. */
  lemma StrToUllRender(n: nat, base: nat)
    requires (base == 8 || base == 10) && n < U64
    ensures StrToUll(Render(n, base), base) == (n, |Render(n, base)|)
  {
    RenderDigits(n, base);
    RenderValue(n, base);
    StrToUllDigits(Render(n, base), "", base);
    assert Render(n, base) + "" == Render(n, base);
  }

  /** Round trip: a decimal number below 2^64 parses back to itself. */
  lemma ParseUint64Render(n: nat)
    requires n < U64
    ensures ParseUint64(Render(n, 10)) == (0, n)
  {
    StrToUllRender(n, 10);
  }

  /**
   * Round trip through the 32-bit mode_t: an octal number parses back to
   * itself modulo 2^32, so any mode below 2^32 is read exactly, and a
   * longer one is truncated without an error.
   */
  lemma ParseModeRender(m: nat)
    requires m < U64
    ensures ParseMode(Render(m, 8)) == (0, m % U32)
  {
    StrToUllRender(m, 8);
  }

  /** Two rendered numbers at argv[offset] give that user and group. */
  lemma ParseUserGroupRender(before: seq<string>, user: nat, group: nat, after: seq<string>)
    requires user < U64 && group < U64
    ensures ParseUserGroup(before + [Render(user, 10), Render(group, 10)] + after, |before|) == (0, user, group)
  {
    var argv := before + [Render(user, 10), Render(group, 10)] + after;
    assert argv[|before|] == Render(user, 10) && argv[|before| + 1] == Render(group, 10);
    ParseUint64Render(user);
    ParseUint64Render(group);
  }

  /** A word that does not start with a digit, a sign or white space is refused. */
  lemma ParseUint64NoDigits(s: string)
    requires |s| > 0 && s[0] !in DECIMAL && s[0] !in SPACES && s[0] != '+' && s[0] != '-'
    ensures ParseUint64(s) == (-EINVAL, 0)
  {
    assert Span(s, SPACES) == 0;
    assert s[0..] == s;
  }

  /** Trailing junk after a non-zero number goes unnoticed. */
  lemma ParseUint64TrailingJunk(n: nat, junk: string)
    requires 0 < n < U64 && |junk| > 0 && junk[0] !in DECIMAL
    ensures ParseUint64(Render(n, 10) + junk) == (0, n)
  {
    RenderDigits(n, 10);
    RenderValue(n, 10);
    StrToUllDigits(Render(n, 10), junk, 10);
  }

  // ---------------------------------------------------------------------
  // Descriptor tables

  /**
   * fskit_repl_filedes_insert / fskit_repl_dirdes_insert on the table's
   * contents: the lowest empty slot takes the handle, or -ENFILE when
   * every slot is in use; the other slots are unchanged.
   */
  function InsertIn<H>(s: seq<Option<H>>, h: H): (res: (int, seq<Option<H>>))
    ensures res.0 == -ENFILE <==> forall j :: 0 <= j < |s| ==> s[j].Some?
    ensures res.0 < 0 ==> res == (-ENFILE, s)
    ensures res.0 >= 0 ==>
              && res.0 < |s| && s[res.0].None?
              && (forall j :: 0 <= j < res.0 ==> s[j].Some?)
              && res.1 == s[res.0 := Some(h)]
  {
    FreeSlotSpec(s);
    var k := FreeSlot(s);
    if k < |s| then (k, s[k := Some(h)]) else (-ENFILE, s)
  }

  /**
   * fskit_repl_filedes_close / fskit_repl_dirdes_close on the table's
   * contents, given what closing the handle returns: -EBADF for an index
   * out of range or an empty slot; otherwise the close's status, and the
   * slot is emptied only when that status is 0.
   */
  function CloseIn<H>(s: seq<Option<H>>, fd: int, closeRc: int): (res: (int, seq<Option<H>>))
    ensures !(0 <= fd < |s|) ==> res == (-EBADF, s)
    ensures 0 <= fd < |s| ==>
              && (s[fd].None? ==> res == (-EBADF, s))
              && (s[fd].Some? ==> res.0 == closeRc)
              && |res.1| == |s|
              && (forall j :: 0 <= j < |s| && j != fd ==> res.1[j] == s[j])
              && (res.1[fd].None? <==> s[fd].None? || closeRc == 0)
              && (res.1[fd].Some? ==> res.1[fd] == s[fd])
  {
    if fd < 0 || fd >= |s| || s[fd].None? then (-EBADF, s)
    else (closeRc, if closeRc == 0 then s[fd := None] else s)
  }

  /** A descriptor just handed out and then closed successfully leaves the table as it was. */
  lemma InsertThenClose<H>(s: seq<Option<H>>, h: H)
    requires InsertIn(s, h).0 >= 0
    ensures CloseIn(InsertIn(s, h).1, InsertIn(s, h).0, 0) == (0, s)
  {
    var k := InsertIn(s, h).0;
    assert s[k := Some(h)][k := None] == s;
  }

  /** After a successful close, the next insert succeeds at that slot or below it. */
  lemma CloseThenInsert<H>(s: seq<Option<H>>, fd: int, h: H)
    requires 0 <= fd < |s| && s[fd].Some?
    ensures var s1 := CloseIn(s, fd, 0).1;
      0 <= InsertIn(s1, h).0 <= fd
  {
    var s1 := CloseIn(s, fd, 0).1;
    assert s1[fd].None?;
  }

  /** A table of descriptors: repl->filedes or repl->dirdes. */
  class Descriptors<H> {
    const slots: array<Option<H>>

    ghost predicate Valid()
      reads this
    {
      slots.Length == HANDLE_MAX
    }

    /** fskit_repl_new: every slot starts empty. */
    constructor ()
      ensures Valid() && fresh(slots)
      ensures forall i :: 0 <= i < slots.Length ==> slots[i].None?
    {
      slots := new Option<H>[HANDLE_MAX](_ => None);
    }

    /** The insert's scan for the lowest empty slot. */
    method Insert(h: H) returns (fd: int)
      requires Valid()
      modifies slots
      ensures (fd, slots[..]) == InsertIn(old(slots[..]), h)
    {
      var i := 0;
      while i < slots.Length
        invariant 0 <= i <= slots.Length
        invariant forall j :: 0 <= j < i ==> slots[j].Some?
      {
        if slots[i].None? {
          FreeSlotIs(slots[..], i);
          slots[i] := Some(h);
          return i;
        }
        i := i + 1;
      }
      FreeSlotIs(slots[..], i);
      return -ENFILE;
    }

    /** The close of one slot; closeRc is what fskit_close or fskit_closedir returns for its handle. */
    method Close(fd: int, closeRc: int) returns (rc: int)
      requires Valid()
      modifies slots
      ensures (rc, slots[..]) == CloseIn(old(slots[..]), fd, closeRc)
    {
      if fd < 0 || fd >= slots.Length {
        return -EBADF;
      }
      if slots[fd].None? {
        return -EBADF;
      }
      rc := closeRc;
      if rc == 0 {
        slots[fd] := None;
      }
    }

    /** fskit_repl_filedes_lookup / fskit_repl_dirdes_lookup: nothing for an index out of range. */
    function Lookup(fd: int): (h: Option<H>)
      requires Valid()
      reads this, slots
      ensures !(0 <= fd < HANDLE_MAX) ==> h.None?
      ensures 0 <= fd < HANDLE_MAX ==> h == slots[fd]
    {
      if fd < 0 || fd >= slots.Length then None else slots[fd]
    }
  }

  // ---------------------------------------------------------------------
  // Dispatch

  /** The exact argument count each command of fskit_repl_stmt_dispatch demands. */
  const ARITY: map<string, nat> := map[
    "access" := 4, "chmod" := 4, "chown" := 5, "close" := 1, "closedir" := 1,
    "create" := 4, "getxattr" := 4, "link" := 4, "listxattr" := 3, "mkdir" := 4,
    "mknod" := 5, "open" := 4, "opendir" := 3, "read" := 3, "readdir" := 2,
    "readlink" := 3, "removexattr" := 4, "rename" := 4, "rmdir" := 3,
    "setxattr" := 6, "stat" := 3, "statvfs" := 3, "symlink" := 4, "sync" := 1,
    "trunc" := 4, "unlink" := 3, "utime" := 7, "write" := 4]

  /** The dispatch's first test: -EINVAL for an unknown command or a wrong argument count. */
  function CheckArity(st: Stmt): (rc: int)
    ensures rc == 0 || rc == -EINVAL
    ensures rc == 0 <==> st.cmd in ARITY && |st.argv| == ARITY[st.cmd]
  {
    if st.cmd in ARITY && |st.argv| == ARITY[st.cmd] then 0 else -EINVAL
  }

  /** Every command's argument count is below its parse limit, so each can be written. */
  lemma ArityParses()
    ensures forall cmd :: cmd in ARITY ==> ARITY[cmd] < MaxArgs(cmd)
  {
    forall cmd | cmd in ARITY ensures ARITY[cmd] < MaxArgs(cmd) {
      assert ARITY[cmd] <= 7;
    }
  }

  /** A command line with the right number of words parses and passes the count test. */
  lemma WellFormedLineAccepted(cmd: string, argv: seq<string>)
    requires Word(cmd) && (forall i :: 0 <= i < |argv| ==> Word(argv[i]))
    requires cmd in ARITY && |argv| == ARITY[cmd]
    ensures ParseSpec(Line(Unparse(Stmt(cmd, argv)))) == (0, Some(Stmt(cmd, argv)))
    ensures CheckArity(Stmt(cmd, argv)) == 0
  {
    ArityParses();
    ParseUnparse(Stmt(cmd, argv));
  }

  /**
   * The literal last argument of write is never kept whole: data with a
   * space in it is split into words like any other argument, and the
   * statement then has one argument too many.
   */
  lemma WriteDataSplit(fd: string, offset: string, len: string, d1: string, d2: string)
    requires Word(fd) && Word(offset) && Word(len) && Word(d1) && Word(d2)
    ensures var st := Stmt("write", [fd, offset, len, d1, d2]);
      && Unparse(st) == Unwords(["write", fd, offset, len, d1 + " " + d2]) + "\n"
      && ParseSpec(Line(Unparse(st))) == (0, Some(st))
      && CheckArity(st) == -EINVAL
  {
    var st := Stmt("write", [fd, offset, len, d1, d2]);
    UnwordsCons(d1, [d2]);
    UnwordsCons(len, [d1, d2]);
    UnwordsCons(len, [d1 + " " + d2]);
    UnwordsCons(offset, [len, d1, d2]);
    UnwordsCons(offset, [len, d1 + " " + d2]);
    UnwordsCons(fd, [offset, len, d1, d2]);
    UnwordsCons(fd, [offset, len, d1 + " " + d2]);
    UnwordsCons("write", [fd, offset, len, d1, d2]);
    UnwordsCons("write", [fd, offset, len, d1 + " " + d2]);
    assert Word("write");
    assert forall i :: 0 <= i < |st.argv| ==> Word(st.argv[i]);
    ParseUnparse(st);
  }

  /**
   * C's conversion of the parsed 64-bit descriptor into an int: the low
   * 32 bits, read as a two's-complement number.
   */
  function AsInt(v: nat): (x: int)
    ensures -0x8000_0000 <= x < 0x8000_0000
    ensures (v - x) % U32 == 0
  {
    var w := v % U32;
    if w >= 0x8000_0000 then w - U32 else w
  }

  /**
   * The close and closedir commands on a table's contents: the count
   * test, the descriptor's parse, then the close of the slot its int
   * conversion names.
   */
  function CloseCommand<H>(s: seq<Option<H>>, argv: seq<string>, closeRc: int): (res: (int, seq<Option<H>>))
    ensures |argv| != 1 ==> res == (-EINVAL, s)
    ensures |argv| == 1 && ParseUint64(argv[0]).0 != 0 ==> res == (-EINVAL, s)
    ensures |argv| == 1 && ParseUint64(argv[0]).0 == 0 ==> res == CloseIn(s, AsInt(ParseUint64(argv[0]).1), closeRc)
  {
    if |argv| != 1 then (-EINVAL, s)
    else
      var p := ParseUint64(argv[0]);
      if p.0 != 0 then (p.0, s) else CloseIn(s, AsInt(p.1), closeRc)
  }

  /** "close 4294967296" closes descriptor 0. */
  lemma CloseWraps<H>(s: seq<Option<H>>)
    requires |s| > 0 && s[0].Some?
    ensures CloseCommand(s, [Render(U32, 10)], 0) == (0, s[0 := None])
  {
    ParseUint64Render(U32);
  }
}
