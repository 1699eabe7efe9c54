/**
  The two quotings the executor writes: single arguments of a POSIX shell command
  line, and TOML basic strings.  Each is undone by the reader it is meant for.
 */
module Quoting {
  import opened Wrappers
  import opened Sequences

  const NUL := '\0'

  /** Every occurrence of one character, replaced. */
  function ReplaceAll(s: string, c: char, text: string): string {
    if s == [] then []
    else (if s[0] == c then text else [s[0]]) + ReplaceAll(s[1..], c, text)
  }

  lemma {:induction false} ReplaceAllConcat(a: string, b: string, c: char, text: string)
    ensures ReplaceAll(a + b, c, text) == ReplaceAll(a, c, text) + ReplaceAll(b, c, text)
  {
    if a == [] {
      assert a + b == b;
    } else {
      ReplaceAllConcat(a[1..], b, c, text);
      assert (a + b)[1..] == a[1..] + b && (a + b)[0] == a[0];
      Associates(if a[0] == c then text else [a[0]], ReplaceAll(a[1..], c, text), ReplaceAll(b, c, text));
    }
  }

  // ---- Shell ----

  /** A quote inside single quotes is closed, written in double quotes and reopened. */
  const QUOTE_ESCAPE: string := "'\"'\"'"

  function ShQuote(s: string): string {
    "'" + ReplaceAll(s, '\'', QUOTE_ESCAPE) + "'"
  }

  function CommandLine(argv: seq<string>): string {
    if argv == [] then ""
    else if |argv| == 1 then ShQuote(argv[0])
    else ShQuote(argv[0]) + " " + CommandLine(argv[1..])
  }

  datatype Mode = Unquoted | SingleQuoted | DoubleQuoted

  /** Characters that mean something to the shell outside quotes. */
  const SPECIAL: string := "|&;<>()$`\\*?[#~=%\n"

  function Append(word: Option<string>, c: string): Option<string> {
    Some(if word.Some? then word.value + c else c)
  }

  /**
    The words of one simple command, by sections 2.2 and 2.3 of the Shell Command
    Language of IEEE Std 1003.1.  `None` means the line is not just quoted words:
    it is unterminated, holds a NUL, or asks for an expansion or operator.
   */
  function Lex(s: string, mode: Mode, word: Option<string>, words: seq<string>): Option<seq<string>>
    decreases |s|
  {
    if s == [] then
      if !mode.Unquoted? then None else Some(if word.Some? then words + [word.value] else words)
    else if s[0] == NUL then None
    else match mode
      case Unquoted =>
        if s[0] == '\'' then Lex(s[1..], SingleQuoted, Append(word, ""), words)
        else if s[0] == '"' then Lex(s[1..], DoubleQuoted, Append(word, ""), words)
        else if s[0] == ' ' || s[0] == '\t' then
          Lex(s[1..], Unquoted, None, if word.Some? then words + [word.value] else words)
        else if s[0] in SPECIAL then None
        else Lex(s[1..], Unquoted, Append(word, [s[0]]), words)
      case SingleQuoted =>
        if s[0] == '\'' then Lex(s[1..], Unquoted, word, words)
        else Lex(s[1..], SingleQuoted, Append(word, [s[0]]), words)
      case DoubleQuoted =>
        if s[0] == '"' then Lex(s[1..], Unquoted, word, words)
        else if s[0] == '$' || s[0] == '`' then None
        else if s[0] == '\\' && |s| > 1 && s[1] in "$`\"\\" then Lex(s[2..], DoubleQuoted, Append(word, [s[1]]), words)
        else Lex(s[1..], DoubleQuoted, Append(word, [s[0]]), words)
  }

  predicate NulFree(s: string) { NUL !in s }

  /** Inside single quotes an escaped quote reads as one quote. */
  lemma LexEscapedQuote(rest: string, word: string, words: seq<string>)
    ensures Lex(QUOTE_ESCAPE + rest, SingleQuoted, Some(word), words) ==
            Lex(rest, SingleQuoted, Some(word + "'"), words)
  {
    var s := QUOTE_ESCAPE + rest;
    assert s[1..] == "\"'\"'" + rest;
    assert s[1..][1..] == "'\"'" + rest;
    assert s[1..][1..][1..] == "\"'" + rest;
    assert s[1..][1..][1..][1..] == "'" + rest;
    assert s[1..][1..][1..][1..][1..] == rest;
    assert Lex(s, SingleQuoted, Some(word), words) == Lex(s[1..], Unquoted, Some(word), words);
    assert word + "" == word && word + "'" + "" == word + "'";
    assert Lex(s[1..], Unquoted, Some(word), words) == Lex(s[1..][1..], DoubleQuoted, Some(word), words);
    assert Lex(s[1..][1..], DoubleQuoted, Some(word), words) == Lex(s[1..][1..][1..], DoubleQuoted, Some(word + "'"), words);
    assert Lex(s[1..][1..][1..], DoubleQuoted, Some(word + "'"), words) ==
           Lex(s[1..][1..][1..][1..], Unquoted, Some(word + "'"), words);
  }

  lemma {:induction false} LexQuotedBody(a: string, rest: string, word: string, words: seq<string>)
    requires NulFree(a)
    ensures Lex(ReplaceAll(a, '\'', QUOTE_ESCAPE) + "'" + rest, SingleQuoted, Some(word), words) ==
            Lex(rest, Unquoted, Some(word + a), words)
  {
    var body := ReplaceAll(a, '\'', QUOTE_ESCAPE);
    if a == [] {
      assert body + "'" + rest == "'" + rest;
      assert ("'" + rest)[1..] == rest;
      assert word + a == word;
    } else {
      var tail := ReplaceAll(a[1..], '\'', QUOTE_ESCAPE) + "'" + rest;
      assert word + a == word + [a[0]] + a[1..];
      LexQuotedBody(a[1..], rest, word + [a[0]], words);
      if a[0] == '\'' {
        assert body + "'" + rest == QUOTE_ESCAPE + tail;
        LexEscapedQuote(tail, word, words);
        assert word + "'" == word + [a[0]];
      } else {
        assert body + "'" + rest == [a[0]] + tail;
        assert ([a[0]] + tail)[1..] == tail;
      }
    }
  }

  lemma LexQuoted(a: string, rest: string, words: seq<string>)
    requires NulFree(a)
    ensures Lex(ShQuote(a) + rest, Unquoted, None, words) == Lex(rest, Unquoted, Some(a), words)
  {
    var body := ReplaceAll(a, '\'', QUOTE_ESCAPE);
    assert ShQuote(a) + rest == "'" + (body + "'" + rest);
    assert ("'" + (body + "'" + rest))[1..] == body + "'" + rest;
    LexQuotedBody(a, rest, "", words);
    assert "" + a == a;
  }

  lemma HeadFirst(words: seq<string>, argv: seq<string>)
    requires argv != []
    ensures words + argv == words + [argv[0]] + argv[1..]
    ensures |argv| == 1 ==> words + argv == words + [argv[0]]
  {
  }

  lemma LexSpace(rest: string, word: string, words: seq<string>)
    ensures Lex(" " + rest, Unquoted, Some(word), words) == Lex(rest, Unquoted, None, words + [word])
  {
    assert (" " + rest)[1..] == rest;
  }

  lemma {:induction false} LexCommandLine(argv: seq<string>, words: seq<string>)
    requires forall a :: a in argv ==> NulFree(a)
    ensures Lex(CommandLine(argv), Unquoted, None, words) == Some(words + argv)
  {
    if argv == [] {
      assert words + argv == words;
    } else {
      var rest := if |argv| == 1 then "" else " " + CommandLine(argv[1..]);
      assert CommandLine(argv) == ShQuote(argv[0]) + rest;
      LexQuoted(argv[0], rest, words);
      HeadFirst(words, argv);
      if |argv| > 1 {
        LexSpace(CommandLine(argv[1..]), argv[0], words);
        LexCommandLine(argv[1..], words + [argv[0]]);
      }
    }
  }

  lemma {:induction false} NulStopsLexing(s: string, mode: Mode, word: Option<string>, words: seq<string>)
    requires NUL in s
    ensures Lex(s, mode, word, words) == None
    decreases |s|
  {
    if s[0] != NUL {
      assert s == [s[0]] + s[1..];
      forall m, w, ws ensures Lex(s[1..], m, w, ws) == None { NulStopsLexing(s[1..], m, w, ws); }
      if mode.DoubleQuoted? && s[0] == '\\' && |s| > 1 && s[1] in "$`\"\\" {
        assert s[1..] == [s[1]] + s[2..];
        NulStopsLexing(s[2..], DoubleQuoted, Append(word, [s[1]]), words);
      }
    }
  }

  lemma {:induction false} ReplaceKeepsNul(s: string)
    requires NUL in s
    ensures NUL in ShQuote(s)
  {
    KeepsOthers(s, '\'', QUOTE_ESCAPE, NUL);
  }

  lemma {:induction false} KeepsOthers(s: string, c: char, text: string, x: char)
    requires x in s && x != c
    ensures x in ReplaceAll(s, c, text)
  {
    if s[0] != x {
      assert s == [s[0]] + s[1..];
      KeepsOthers(s[1..], c, text, x);
    }
  }

  lemma {:induction false} CommandLineHasNul(argv: seq<string>, a: string)
    requires a in argv && NUL in a
    ensures NUL in CommandLine(argv)
  {
    if argv[0] == a {
      ReplaceKeepsNul(a);
    } else {
      CommandLineHasNul(argv[1..], a);
    }
  }

  /** The shell reads back exactly the arguments that were quoted, if and only if none holds a NUL. */
  lemma ShellReadsBackExactly(argv: seq<string>)
    ensures Lex(CommandLine(argv), Unquoted, None, []) == Some(argv) <==> forall a :: a in argv ==> NulFree(a)
  {
    if forall a :: a in argv ==> NulFree(a) {
      LexCommandLine(argv, []);
      assert [] + argv == argv;
    } else {
      var a :| a in argv && NUL in a;
      CommandLineHasNul(argv, a);
      NulStopsLexing(CommandLine(argv), Unquoted, None, []);
    }
  }

  // ---- TOML ----

  /** The replacements of the source, one after the other. */
  function Chain(s: string): string {
    var t := ReplaceAll(s, '\\', "\\\\");
    var u := ReplaceAll(t, '"', "\\\"");
    var v := ReplaceAll(u, '\n', "\\n");
    var w := ReplaceAll(v, '\r', "\\r");
    ReplaceAll(w, '\t', "\\t")
  }

  function TomlQuote(s: string): string {
    "\"" + Chain(s) + "\""
  }

  function Escaped(c: char): string {
    if c == '\\' then "\\\\"
    else if c == '"' then "\\\""
    else if c == '\n' then "\\n"
    else if c == '\r' then "\\r"
    else if c == '\t' then "\\t"
    else [c]
  }

  function EscapeAll(s: string): string {
    if s == [] then [] else Escaped(s[0]) + EscapeAll(s[1..])
  }

  lemma ChainConcat(a: string, b: string)
    ensures Chain(a + b) == Chain(a) + Chain(b)
  {
    var a1, b1 := ReplaceAll(a, '\\', "\\\\"), ReplaceAll(b, '\\', "\\\\");
    var a2, b2 := ReplaceAll(a1, '"', "\\\""), ReplaceAll(b1, '"', "\\\"");
    var a3, b3 := ReplaceAll(a2, '\n', "\\n"), ReplaceAll(b2, '\n', "\\n");
    var a4, b4 := ReplaceAll(a3, '\r', "\\r"), ReplaceAll(b3, '\r', "\\r");
    ReplaceAllConcat(a, b, '\\', "\\\\");
    ReplaceAllConcat(a1, b1, '"', "\\\"");
    ReplaceAllConcat(a2, b2, '\n', "\\n");
    ReplaceAllConcat(a3, b3, '\r', "\\r");
    ReplaceAllConcat(a4, b4, '\t', "\\t");
  }

  lemma ReplaceOne(x: char, c: char, text: string)
    ensures ReplaceAll([x], c, text) == if x == c then text else [x]
  {
    assert [x][1..] == [];
  }

  lemma ReplaceTwo(x: char, y: char, c: char, text: string)
    requires x != c && y != c
    ensures ReplaceAll([x, y], c, text) == [x, y]
  {
    assert [x, y][1..] == [y];
    ReplaceOne(y, c, text);
  }

  lemma ChainOne(c: char)
    ensures Chain([c]) == Escaped(c)
  {
    ReplaceOne(c, '\\', "\\\\");
    ReplaceOne(c, '"', "\\\"");
    ReplaceOne(c, '\n', "\\n");
    ReplaceOne(c, '\r', "\\r");
    ReplaceOne(c, '\t', "\\t");
    if c == '\\' {
      PairIsLeft('\\');
      ReplaceTwo('\\', '\\', '"', "\\\"");
    } else if c == '"' {
      PairIsLeft('"');
    } else if c == '\n' {
      PairIsLeft('n');
    } else if c == '\r' {
      PairIsLeft('r');
    }
  }

  lemma PairIsLeft(x: char)
    requires x !in "\n\r\t"
    ensures ReplaceAll(['\\', x], '\n', "\\n") == ['\\', x]
    ensures ReplaceAll(['\\', x], '\r', "\\r") == ['\\', x]
    ensures ReplaceAll(['\\', x], '\t', "\\t") == ['\\', x]
  {
    ReplaceTwo('\\', x, '\n', "\\n");
    ReplaceTwo('\\', x, '\r', "\\r");
    ReplaceTwo('\\', x, '\t', "\\t");
  }

  /** The five replacements in a row are one pass: none rewrites what another wrote. */
  lemma {:induction false} ChainIsOnePass(s: string)
    ensures Chain(s) == EscapeAll(s)
  {
    if s != [] {
      ChainIsOnePass(s[1..]);
      assert s == [s[0]] + s[1..];
      ChainConcat([s[0]], s[1..]);
      ChainOne(s[0]);
    }
  }

  /** Control characters that TOML v1.0.0 forbids unescaped in a basic string. */
  predicate Forbidden(c: char) {
    c <= '\U{0008}' || '\n' <= c <= '\U{001F}' || c == '\U{007F}'
  }

  /** The value of one short escape of TOML v1.0.0; the numeric forms are not read here. */
  function Unescape(c: char): Option<char> {
    match c
    case 'b' => Some('\U{0008}')
    case 't' => Some('\t')
    case 'n' => Some('\n')
    case 'f' => Some('\U{000C}')
    case 'r' => Some('\r')
    case '"' => Some('"')
    case '\\' => Some('\\')
    case _ => None
  }

  function Prepend(c: char, rest: Option<string>): Option<string> {
    if rest.Some? then Some([c] + rest.value) else None
  }

  /** The text up to the closing quote, which must be the last character. */
  function ReadBasic(s: string): Option<string>
    decreases |s|
  {
    if s == [] then None
    else if s[0] == '"' then (if |s| == 1 then Some("") else None)
    else if s[0] == '\\' then
      if |s| == 1 || Unescape(s[1]).None? then None else Prepend(Unescape(s[1]).value, ReadBasic(s[2..]))
    else if Forbidden(s[0]) then None
    else Prepend(s[0], ReadBasic(s[1..]))
  }

  function TomlRead(s: string): Option<string> {
    if s == [] || s[0] != '"' then None else ReadBasic(s[1..])
  }

  /** By code point: every control character but tab, newline and carriage return. */
  predicate IsRawControl(c: char) {
    c as int <= 0x8 || c as int in {0xB, 0xC, 0x7F} || 0xE <= c as int <= 0x1F
  }

  predicate HasRawControl(s: string) {
    exists i :: 0 <= i < |s| && IsRawControl(s[i])
  }

  lemma ReadOne(c: char, rest: string)
    ensures ReadBasic(Escaped(c) + rest) ==
            if IsRawControl(c) then None else Prepend(c, ReadBasic(rest))
  {
    var s := Escaped(c) + rest;
    if |Escaped(c)| == 2 {
      assert s[2..] == rest;
    } else {
      assert s[1..] == rest;
    }
  }

  lemma {:induction false} ReadEscaped(s: string)
    ensures ReadBasic(EscapeAll(s) + "\"") == if HasRawControl(s) then None else Some(s)
  {
    if s == [] {
      assert EscapeAll(s) + "\"" == "\"";
    } else {
      var rest := EscapeAll(s[1..]) + "\"";
      assert EscapeAll(s) + "\"" == Escaped(s[0]) + rest;
      ReadOne(s[0], rest);
      ReadEscaped(s[1..]);
      assert s == [s[0]] + s[1..];
      HasRawControlSplits(s);
    }
  }

  lemma HasRawControlSplits(s: string)
    requires s != []
    ensures HasRawControl(s) <==> IsRawControl(s[0]) || HasRawControl(s[1..])
  {
    if i :| 0 <= i < |s[1..]| && IsRawControl(s[1..][i]) {
      assert s[i + 1] == s[1..][i];
    }
    if i :| 0 < i < |s| && IsRawControl(s[i]) {
      assert s[1..][i - 1] == s[i];
    }
  }

  /** TOML reads back exactly the string that was quoted, if and only if it has no other control character. */
  lemma TomlReadsBackExactly(s: string)
    ensures TomlRead(TomlQuote(s)) == if HasRawControl(s) then None else Some(s)
  {
    ChainIsOnePass(s);
    assert TomlQuote(s)[1..] == EscapeAll(s) + "\"";
    ReadEscaped(s);
  }

  /** A string with a bell character comes back from TOML as an error. */
  lemma RawControlIsRefused()
    ensures TomlRead(TomlQuote("\U{0007}")) == None
  {
    TomlReadsBackExactly("\U{0007}");
    assert IsRawControl("\U{0007}"[0]);
  }
}
