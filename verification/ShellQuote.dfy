/**
 The command line that `doctor exec` hands to `sh -lc` inside the gateway container
 (`shell_escape` and `doctor_exec` in crates/clustershell-cli/src/run.rs), read back by the
 quoting and token rules of sections 2.2 and 2.3 of the POSIX Shell Command Language.
 */
module ShellQuote {
  import opened Text

  // ---------------------------------------------------------------- what is written

  predicate IsCleanChar(c: char) {
    || 'a' <= c <= 'z' || 'A' <= c <= 'Z' || '0' <= c <= '9'
    || c == '-' || c == '_' || c == '.' || c == '/' || c == ',' || c == ':' || c == '=' || c == '@'
  }

  predicate IsClean(s: string) {
    forall i | 0 <= i < |s| :: IsCleanChar(s[i])
  }

  /** `s.replace('\'', "'\\''")` */
  function EscapeQuotes(s: string): string {
    if s == "" then "" else (if s[0] == '\'' then "'\\''" else [s[0]]) + EscapeQuotes(s[1..])
  }

  function ShellEscape(s: string): string {
    if s == "" then "''"
    else if IsClean(s) then s
    else "'" + EscapeQuotes(s) + "'"
  }

  function JoinEscaped(args: seq<string>): string {
    if args == [] then ""
    else if |args| == 1 then ShellEscape(args[0])
    else ShellEscape(args[0]) + " " + JoinEscaped(args[1..])
  }

  const KUBECONFIG_WORD := "KUBECONFIG" + "=/etc/rancher/k3s/k3s.yaml"

  function InnerCommand(command: seq<string>): string {
    KUBECONFIG_WORD + " " + if command == [] then "sh" else JoinEscaped(command)
  }

  // ------------------------------------------------------------------- how sh reads it

  /** A word: the text after quote removal, and the characters it was written with. */
  datatype Token = Token(text: string, raw: string)

  datatype Mode = Plain | Quoted | Escaped

  /** Characters that, unquoted, are not just part of a word. */
  predicate IsSpecial(c: char) {
    || c == '|' || c == '&' || c == ';' || c == '<' || c == '>' || c == '(' || c == ')' || c == '$'
    || c == '`' || c == '"' || c == '*' || c == '?' || c == '[' || c == '~' || c == '%' || c == '\n'
  }

  function Extend(word: Option<Token>, text: string, raw: string): Option<Token> {
    match word
    case None => Some(Token(text, raw))
    case Some(t) => Some(Token(t.text + text, t.raw + raw))
  }

  function Emit(word: Option<Token>, rest: Option<seq<Token>>): Option<seq<Token>> {
    match (word, rest)
    case (None, _) => rest
    case (Some(t), None) => None
    case (Some(t), Some(tokens)) => Some([t] + tokens)
  }

  /** After one character: give up, or go on with a mode, the word so far and the word just finished. */
  datatype Next = Stop | Go(mode: Mode, word: Option<Token>, done: Option<Token>)

  function Step(c: char, mode: Mode, word: Option<Token>): Next {
    match mode
    case Plain =>
      if c == ' ' || c == '\t' then Go(Plain, None, word)
      else if c == '\'' then Go(Quoted, Extend(word, "", [c]), None)
      else if c == '\\' then Go(Escaped, Extend(word, "", [c]), None)
      else if IsSpecial(c) || (c == '#' && word.None?) then Stop
      else Go(Plain, Extend(word, [c], [c]), None)
    case Quoted =>
      if c == '\'' then Go(Plain, Extend(word, "", [c]), None)
      else Go(Quoted, Extend(word, [c], [c]), None)
    case Escaped =>
      // an escaped newline is a line continuation and leaves nothing behind
      Go(Plain, Extend(word, if c == '\n' then "" else [c], [c]), None)
  }

  /**
   The words of a line. There is no answer when a quote is left open or when an unquoted special
   character would make the shell do more than split words.
   */
  function Lex(s: string, mode: Mode, word: Option<Token>): Option<seq<Token>> {
    if s == "" then
      if mode.Plain? then Emit(word, Some([])) else None
    else
      match Step(s[0], mode, word)
      case Stop => None
      case Go(next, grown, done) => Emit(done, Lex(s[1..], next, grown))
  }

  function Tokenize(line: string): Option<seq<Token>> {
    Lex(line, Plain, None)
  }

  predicate IsShellName(s: string) {
    && s != ""
    && !('0' <= s[0] <= '9')
    && forall i | 0 <= i < |s| ::
         'a' <= s[i] <= 'z' || 'A' <= s[i] <= 'Z' || '0' <= s[i] <= '9' || s[i] == '_'
  }

  /** A word written as `name=...` with the name and the sign unquoted. */
  predicate IsAssignment(raw: string) {
    exists k | 1 <= k < |raw| :: raw[k] == '=' && IsShellName(raw[..k])
  }

  /** The command name and its arguments: what is left after the leading assignments. */
  function CommandWords(tokens: seq<Token>): seq<string> {
    if tokens == [] then []
    else if IsAssignment(tokens[0].raw) then CommandWords(tokens[1..])
    else Texts(tokens)
  }

  function Texts(tokens: seq<Token>): seq<string> {
    seq(|tokens|, i requires 0 <= i < |tokens| => tokens[i].text)
  }

  // ------------------------------------------------------------------------ proofs

  lemma ExtendTwice(word: Option<Token>, a: string, b: string)
    ensures Extend(Extend(word, a, a), b, b) == Extend(word, a + b, a + b)
  {
    if word.Some? {
      var t := word.value;
      assert t.text + a + b == t.text + (a + b) && t.raw + a + b == t.raw + (a + b);
    }
  }

  lemma {:induction false} LexClean(w: string, rest: string, word: Option<Token>)
    requires IsClean(w) && w != ""
    ensures Lex(w + rest, Plain, word) == Lex(rest, Plain, Extend(word, w, w))
  {
    var tail := w[1..];
    assert w == [w[0]] + tail && w + rest == [w[0]] + (tail + rest);
    assert IsCleanChar(w[0]);
    LexOne(w[0], tail + rest, Plain, word);
    if tail == "" {
      assert tail + rest == rest && w == [w[0]];
    } else {
      LexClean(tail, rest, Extend(word, [w[0]], [w[0]]));
      ExtendTwice(word, [w[0]], tail);
    }
  }

  /** Inside single quotes every character stands for itself until the closing quote. */
  lemma {:induction false} LexQuoted(s: string, rest: string, t: Token)
    ensures Lex(EscapeQuotes(s) + "'" + rest, Quoted, Some(t)) ==
            Lex(rest, Plain, Some(Token(t.text + s, t.raw + EscapeQuotes(s) + "'")))
  {
    if s == "" {
      assert EscapeQuotes(s) + "'" + rest == "'" + rest;
      LexOne('\'', rest, Quoted, Some(t));
      assert t.text + "" == t.text && t.raw + "" == t.raw;
    } else {
      var tail := EscapeQuotes(s[1..]);
      var after := tail + "'" + rest;
      var written := if s[0] == '\'' then "'\\''" else [s[0]];
      assert EscapeQuotes(s) + "'" + rest == written + after;
      var next := Token(t.text + [s[0]], t.raw + written);
      if s[0] == '\'' {
        QuoteStep(after, t);
      } else {
        LexOne(s[0], after, Quoted, Some(t));
      }
      LexQuoted(s[1..], rest, next);
      assert next.text + s[1..] == t.text + s;
      assert next.raw + tail + "'" == t.raw + EscapeQuotes(s) + "'";
    }
  }

  lemma LexOne(c: char, rest: string, mode: Mode, word: Option<Token>)
    requires Step(c, mode, word).Go?
    ensures Lex([c] + rest, mode, word) ==
            Emit(Step(c, mode, word).done, Lex(rest, Step(c, mode, word).mode, Step(c, mode, word).word))
  {
    assert ([c] + rest)[1..] == rest;
  }

  lemma QuoteStepWord(t: Token)
    ensures t.text + "" + "" + "'" + "" == t.text + "'"
    ensures t.raw + "'" + "\\" + "'" + "'" == t.raw + "'\\''"
  {}

  /** `'\''` inside quotes: close, an escaped quote, open again. */
  lemma QuoteStep(after: string, t: Token)
    ensures Lex("'\\''" + after, Quoted, Some(t)) ==
            Lex(after, Quoted, Some(Token(t.text + "'", t.raw + "'\\''")))
  {
    var l3 := "'" + after;
    var l2 := "'" + l3;
    var l1 := "\\" + l2;
    assert "'\\''" + after == "'" + l1;
    var t1 := Token(t.text + "", t.raw + "'");
    var t2 := Token(t1.text + "", t1.raw + "\\");
    var t3 := Token(t2.text + "'", t2.raw + "'");
    var t4 := Token(t3.text + "", t3.raw + "'");
    assert Lex("'" + l1, Quoted, Some(t)) == Lex(l1, Plain, Some(t1)) by {
      LexOne('\'', l1, Quoted, Some(t));
    }
    assert Lex(l1, Plain, Some(t1)) == Lex(l2, Escaped, Some(t2)) by {
      LexOne('\\', l2, Plain, Some(t1));
    }
    assert Lex(l2, Escaped, Some(t2)) == Lex(l3, Plain, Some(t3)) by {
      LexOne('\'', l3, Escaped, Some(t2));
    }
    assert Lex(l3, Plain, Some(t3)) == Lex(after, Quoted, Some(t4)) by {
      LexOne('\'', after, Plain, Some(t3));
    }
    QuoteStepWord(t);
  }

  /** One escaped argument is read as one word whose text is the argument. */
  lemma LexEscaped(arg: string, rest: string)
    ensures Lex(ShellEscape(arg) + rest, Plain, None) ==
            Lex(rest, Plain, Some(Token(arg, ShellEscape(arg))))
  {
    if arg != "" && IsClean(arg) {
      LexClean(arg, rest, None);
    } else {
      var inner := EscapeQuotes(arg) + "'" + rest;
      var line := ShellEscape(arg) + rest;
      assert line == "'" + inner;
      LexOne('\'', inner, Plain, None);
      LexQuoted(arg, rest, Token("", "'"));
      assert "" + arg == arg && "'" + EscapeQuotes(arg) + "'" == ShellEscape(arg);
    }
  }

  function Written(args: seq<string>): seq<Token> {
    seq(|args|, i requires 0 <= i < |args| => Token(args[i], ShellEscape(args[i])))
  }

  lemma LexBeforeSpace(arg: string, rest: string)
    ensures Tokenize(ShellEscape(arg) + " " + rest) ==
            Emit(Some(Token(arg, ShellEscape(arg))), Tokenize(rest))
  {
    var word := Token(arg, ShellEscape(arg));
    assert word.raw + " " + rest == word.raw + (" " + rest);
    LexEscaped(arg, " " + rest);
    LexOne(' ', rest, Plain, Some(word));
  }

  /** Round trip: the joined line splits into exactly the arguments. */
  lemma {:induction false} JoinEscapedRoundTrip(args: seq<string>)
    ensures Tokenize(JoinEscaped(args)) == Some(Written(args))
  {
    if args == [] {
    } else {
      var word := Token(args[0], ShellEscape(args[0]));
      assert Written(args) == [word] + Written(args[1..]);
      if |args| == 1 {
        LexEscaped(args[0], "");
        assert word.raw + "" == word.raw;
        assert [word] + [] == [word];
      } else {
        LexBeforeSpace(args[0], JoinEscaped(args[1..]));
        JoinEscapedRoundTrip(args[1..]);
      }
    }
  }

  lemma KubeconfigWord()
    ensures IsClean(KUBECONFIG_WORD) && KUBECONFIG_WORD != ""
    ensures IsAssignment(KUBECONFIG_WORD)
  {
    var name := "KUBECONFIG";
    assert forall i | 0 <= i < |name| :: 'A' <= name[i] <= 'Z';
    assert IsShellName(name);
    assert KUBECONFIG_WORD[..10] == name && KUBECONFIG_WORD[10] == '=';
  }

  lemma LineTokens(first: string, words: seq<string>)
    requires IsClean(first) && first != ""
    ensures Tokenize(first + " " + JoinEscaped(words)) == Some([Token(first, first)] + Written(words))
  {
    var line := JoinEscaped(words);
    assert first + " " + line == first + (" " + line);
    LexClean(first, " " + line, None);
    LexOne(' ', line, Plain, Some(Token(first, first)));
    JoinEscapedRoundTrip(words);
  }

  /** The whole line: the kubeconfig assignment followed by the given words. */
  lemma InnerCommandTokens(command: seq<string>)
    ensures Tokenize(InnerCommand(command)) ==
            Some([Token(KUBECONFIG_WORD, KUBECONFIG_WORD)] + Written(if command == [] then ["sh"] else command))
  {
    KubeconfigWord();
    if command == [] {
      assert IsClean("sh");
      assert JoinEscaped(["sh"]) == "sh";
      LineTokens(KUBECONFIG_WORD, ["sh"]);
    } else {
      LineTokens(KUBECONFIG_WORD, command);
    }
  }

  /** Quoting an argument keeps it from being an assignment; an argument left bare can be one. */
  lemma EscapedAssignment(arg: string)
    ensures IsAssignment(ShellEscape(arg)) <==> IsClean(arg) && IsAssignment(arg)
  {
    var raw := ShellEscape(arg);
    if arg == "" || !IsClean(arg) {
      assert raw[0] == '\'';
      forall k | 1 <= k < |raw|
        ensures !IsShellName(raw[..k])
      {
        assert raw[..k][0] == '\'';
      }
    }
  }

  /**
   What the shell runs. The words after the leading assignments are the requested command exactly
   when its first word is not itself an unquoted assignment.
   */
  lemma DoctorExecRunsCommand(command: seq<string>)
    requires command != []
    ensures Tokenize(InnerCommand(command)).Some?
    ensures CommandWords(Tokenize(InnerCommand(command)).value) == command <==>
            !(IsClean(command[0]) && IsAssignment(command[0]))
  {
    InnerCommandTokens(command);
    EscapedAssignment(command[0]);
    var tokens, head := Written(command), Token(KUBECONFIG_WORD, KUBECONFIG_WORD);
    KubeconfigWord();
    assert ([head] + tokens)[1..] == tokens;
    assert tokens[0].raw == ShellEscape(command[0]);
    if IsAssignment(tokens[0].raw) {
      CommandWordsShorter(tokens[1..]);
    } else {
      assert Texts(tokens) == command;
    }
  }

  /** `doctor exec A=b ls` runs `ls`. */
  lemma AssignmentIsNotRun()
    ensures Tokenize(InnerCommand(["A=b", "ls"])).Some?
    ensures CommandWords(Tokenize(InnerCommand(["A=b", "ls"])).value) == ["ls"]
  {
    var command := ["A=b", "ls"];
    InnerCommandTokens(command);
    KubeconfigWord();
    assert IsClean("A=b") && IsClean("ls");
    var first, second := Token("A=b", "A=b"), Token("ls", "ls");
    assert Written(command) == [first, second];
    assert IsAssignment("A=b") by {
      assert "A=b"[..1] == "A" && IsShellName("A");
    }
    assert !IsAssignment("ls");
  }

  lemma {:induction false} CommandWordsShorter(tokens: seq<Token>)
    ensures |CommandWords(tokens)| <= |tokens|
  {
    if tokens == [] {
    } else {
      CommandWordsShorter(tokens[1..]);
    }
  }
}
