/** The console's command language: a sequence of commands separated by ';' outside
    quotes, each command a sequence of words separated by spaces outside quotes. */
module CommandLine {
  import opened Strings

  /** What executing one command comes to. */
  datatype Dispatch = Command(tokens: seq<string>) | HalfLife(text: string)

  // ----- What splitting and tokenizing compute, from the rest of the input on

  /** A closing quote that is the last character of the input does not close. */
  function QuotesAfter(c: char, quoted: bool, last: bool): bool {
    if c == '"' then !quoted || last else quoted
  }

  /** The pieces between separators. The last character always belongs to the last
      piece, even if it is a separator. */
  function Pieces(s: string, quoted: bool, current: string): seq<string> {
    if s == [] then []
    else
      var (c, last) := (s[0], |s| == 1);
      var q := QuotesAfter(c, quoted, last);
      if last then [current + [c]]
      else if c == ';' && !q then [current] + Pieces(s[1..], q, [])
      else Pieces(s[1..], q, current + [c])
  }

  /** The words of one command. The last character ends the last word; it belongs to
      it only outside quotes. */
  function Tokens(s: string, quoted: bool, current: string): seq<string> {
    if s == [] then []
    else
      var (c, last) := (s[0], |s| == 1);
      if c == '"' && !quoted then Tokens(s[1..], true, current)
      else if c == '"' && !last then Tokens(s[1..], false, current)
      else if last then [if quoted then current else current + [c]]
      else if c == ' ' && !quoted then [current] + Tokens(s[1..], quoted, [])
      else Tokens(s[1..], quoted, current + [c])
  }

  function Dispatches(command: string): seq<Dispatch> {
    if "hl " <= command then [HalfLife(command[3..])]
    else
      var tokens := Tokens(command, false, []);
      if tokens == [] then [] else [Command(tokens)]
  }

  function DispatchAll(pieces: seq<string>): seq<Dispatch> {
    if pieces == [] then []
    else Dispatches(SkipSpace(pieces[0])) + DispatchAll(pieces[1..])
  }

  function Interpret(s: string): seq<Dispatch> {
    if s == " " then [] else DispatchAll(Pieces(s, false, []))
  }

  // ----- The program

  class CommandInterpreter {
    var currentTokens: seq<string>
    /** The commands handed on so far, in order. */
    var dispatched: seq<Dispatch>

    constructor ()
      ensures dispatched == []
    {
      currentTokens, dispatched := [], [];
    }

    method TokenizeCommand(command: string)
      modifies this`currentTokens
      ensures currentTokens == Tokens(command, false, [])
    {
      currentTokens := [];
      var currentToken: string := [];
      var inQuotes := false;
      for i := 0 to |command|
        invariant Tokens(command, false, [])
               == currentTokens + Tokens(command[i..], inQuotes, currentToken)
      {
        var c := command[i];
        var last := i == |command| - 1;
        assert command[i..][1..] == command[i + 1..];
        if c == '"' && !inQuotes {
          inQuotes := true;
          continue;
        } else if inQuotes && c == '"' {
          if !last {
            inQuotes := false;
            continue;
          }
        }
        if (c == ' ' && !inQuotes) || last {
          if last && !inQuotes {
            currentToken := currentToken + [c];
          }
          currentTokens := currentTokens + [currentToken];
          currentToken := [];
        } else {
          currentToken := currentToken + [c];
        }
      }
    }

    method ExecuteInternal(command: string)
      modifies this
      ensures dispatched == old(dispatched) + Dispatches(command)
    {
      if "hl " <= command {
        dispatched := dispatched + [HalfLife(command[3..])];
        return;
      }
      TokenizeCommand(command);
      if currentTokens == [] {
        return;
      }
      dispatched := dispatched + [Command(currentTokens)];
    }

    method ExecuteCommand(sequence: string)
      modifies this
      ensures dispatched == old(dispatched) + Interpret(sequence)
    {
      if sequence == " " {
        return;
      }
      var currentCommand: string := [];
      var inQuotes := false;
      for i := 0 to |sequence|
        invariant old(dispatched) + DispatchAll(Pieces(sequence, false, []))
               == dispatched + DispatchAll(Pieces(sequence[i..], inQuotes, currentCommand))
      {
        var c := sequence[i];
        var last := i == |sequence| - 1;
        assert sequence[i..][1..] == sequence[i + 1..];
        if c == '"' && !inQuotes {
          inQuotes := true;
        } else if inQuotes && c == '"' {
          if !last {
            inQuotes := false;
          }
        }
        if (c == ';' && !inQuotes) || last {
          if last {
            currentCommand := currentCommand + [c];
          }
          DispatchFirst(currentCommand, Pieces(sequence[i + 1..], inQuotes, []));
          currentCommand := SkipSpace(currentCommand);
          ExecuteInternal(currentCommand);
          currentCommand := [];
        } else {
          currentCommand := currentCommand + [c];
        }
      }
    }
  }

  lemma DispatchFirst(piece: string, rest: seq<string>)
    ensures DispatchAll([piece] + rest) == Dispatches(SkipSpace(piece)) + DispatchAll(rest)
  {}

  // ----- Splitting

  /** Scanning a text leaves a quote open. */
  predicate Open(s: string) {
    s != [] && (if s[|s| - 1] == '"' then !Open(s[..|s| - 1]) else Open(s[..|s| - 1]))
  }

  /** Every separator of a text lies inside quotes. */
  predicate Sealed(s: string) {
    s == [] || (Sealed(s[..|s| - 1]) && (s[|s| - 1] == ';' ==> Open(s[..|s| - 1])))
  }

  /** Pieces that splitting can produce: all but the last are balanced and sealed, the
      last is sealed up to its last character, which it must have. */
  ghost predicate WellSplit(pieces: seq<string>) {
    && pieces != [] && pieces[|pieces| - 1] != []
    && Sealed(pieces[|pieces| - 1][..|pieces[|pieces| - 1]| - 1])
    && forall i :: 0 <= i < |pieces| - 1 ==> Sealed(pieces[i]) && !Open(pieces[i])
  }

  lemma {:induction false} PiecesAreWellSplit(s: string, current: string)
    requires s != [] && Sealed(current)
    ensures var pieces := Pieces(s, Open(current), current);
            WellSplit(pieces) && Join(pieces, ";") == current + s
    decreases |s|
  {
    var c := s[0];
    var next := current + [c];
    assert next[..|next| - 1] == current;
    if |s| == 1 {
      assert current + s == next;
    } else if c == ';' && !QuotesAfter(c, Open(current), false) {
      PiecesAreWellSplit(s[1..], []);
      var rest := Pieces(s[1..], false, []);
      assert ([current] + rest)[1..] == rest;
      assert current + s == current + ";" + s[1..];
    } else {
      PiecesAreWellSplit(s[1..], next);
      assert current + s == next + s[1..];
    }
  }

  lemma {:induction false} ScanPiece(current: string, p: string, rest: string)
    requires Sealed(current + p) && rest != []
    ensures Pieces(p + rest, Open(current), current) == Pieces(rest, Open(current + p), current + p)
    decreases |p|
  {
    if p == [] {
      assert current + p == current && p + rest == rest;
    } else {
      var next := current + [p[0]];
      assert next[..|next| - 1] == current;
      assert current + p == next + p[1..] && (p + rest)[1..] == p[1..] + rest;
      SealedPrefix(next, p[1..]);
      ScanPiece(next, p[1..], rest);
    }
  }

  lemma {:induction false} SealedPrefix(a: string, b: string)
    requires Sealed(a + b)
    ensures Sealed(a)
  {
    if b == [] {
      assert a + b == a;
    } else {
      assert (a + b)[..|a + b| - 1] == a + b[..|b| - 1];
      SealedPrefix(a, b[..|b| - 1]);
    }
  }

  lemma {:induction false} JoinedPiecesSplit(pieces: seq<string>)
    requires WellSplit(pieces)
    ensures Join(pieces, ";") != [] && Pieces(Join(pieces, ";"), false, []) == pieces
  {
    var p := pieces[0];
    assert [] + p == p;
    if |pieces| == 1 {
      var n := |p| - 1;
      assert [] + p[..n] == p[..n] && p == p[..n] + [p[n]];
      ScanPiece([], p[..n], [p[n]]);
    } else {
      hide Sealed, Open;
      var rest := Join(pieces[1..], ";");
      JoinedPiecesSplit(pieces[1..]);
      ScanPiece([], p, ";" + rest);
      assert p + ";" + rest == p + (";" + rest);
      assert (";" + rest)[1..] == rest;
    }
  }

  /** Splitting loses nothing and is determined by what its pieces look like: the
      pieces of a text are the only well-split pieces that join to it. */
  lemma SplittingIsExact(s: string, pieces: seq<string>)
    requires s != []
    ensures Pieces(s, false, []) == pieces <==> WellSplit(pieces) && Join(pieces, ";") == s
  {
    PiecesAreWellSplit(s, []);
    assert [] + s == s;
    if WellSplit(pieces) { JoinedPiecesSplit(pieces); }
  }

  // ----- Printing commands

  /** A word of a command, written with or without quotes. */
  datatype Word = Word(text: string, quoted: bool)

  /** A command as written: white space, then words. */
  datatype Line = Line(lead: string, words: seq<Word>)

  predicate ValidWord(w: Word) {
    && (forall i :: 0 <= i < |w.text| ==> w.text[i] != '"')
    && (!w.quoted ==> w.text != [] && forall i :: 0 <= i < |w.text| ==> w.text[i] !in WHITE_SPACE && w.text[i] != ';')
  }

  predicate ValidLine(line: Line) {
    && line.words != []
    && (forall i :: 0 <= i < |line.lead| ==> line.lead[i] in WHITE_SPACE)
    && forall i :: 0 <= i < |line.words| ==> ValidWord(line.words[i])
  }

  function PrintWord(w: Word): string {
    if w.quoted then "\"" + w.text + "\"" else w.text
  }

  function PrintWords(words: seq<Word>): string {
    if words == [] then []
    else if |words| == 1 then PrintWord(words[0])
    else PrintWord(words[0]) + (" " + PrintWords(words[1..]))
  }

  function PrintLine(line: Line): string {
    line.lead + PrintWords(line.words)
  }

  function PrintLines(lines: seq<Line>): seq<string> {
    if lines == [] then [] else [PrintLine(lines[0])] + PrintLines(lines[1..])
  }

  function Texts(words: seq<Word>): seq<string> {
    if words == [] then [] else [words[0].text] + Texts(words[1..])
  }

  /** What a written command means: its words, except that an unquoted first word "hl"
      followed by others passes their text on as it is written. */
  function Meaning(line: Line): Dispatch
    requires line.words != []
  {
    if line.words[0] == Word("hl", false) && |line.words| > 1 then HalfLife(PrintWords(line.words[1..]))
    else Command(Texts(line.words))
  }

  function Meanings(lines: seq<Line>): seq<Dispatch>
    requires forall i :: 0 <= i < |lines| ==> ValidLine(lines[i])
  {
    if lines == [] then []
    else
      assert ValidLine(lines[0]);
      [Meaning(lines[0])] + Meanings(lines[1..])
  }

  // ----- Written words are tokens again

  lemma {:induction false} ScanQuoted(t: string, rest: string, current: string)
    requires rest != [] && forall i :: 0 <= i < |t| ==> t[i] != '"'
    ensures Tokens(t + rest, true, current) == Tokens(rest, true, current + t)
    decreases |t|
  {
    if t == [] {
      assert t + rest == rest && current + t == current;
    } else {
      assert (t + rest)[1..] == t[1..] + rest && current + [t[0]] + t[1..] == current + t;
      ScanQuoted(t[1..], rest, current + [t[0]]);
    }
  }

  lemma {:induction false} ScanBare(t: string, rest: string, current: string)
    requires rest != [] && forall i :: 0 <= i < |t| ==> t[i] != '"' && t[i] != ' '
    ensures Tokens(t + rest, false, current) == Tokens(rest, false, current + t)
    decreases |t|
  {
    if t == [] {
      assert t + rest == rest && current + t == current;
    } else {
      assert (t + rest)[1..] == t[1..] + rest && current + [t[0]] + t[1..] == current + t;
      ScanBare(t[1..], rest, current + [t[0]]);
    }
  }

  lemma LastWord(w: Word)
    requires ValidWord(w)
    ensures Tokens(PrintWord(w), false, []) == [w.text]
  {
    var t := w.text;
    if w.quoted {
      assert ("\"" + t + "\"")[1..] == t + "\"" && [] + t == t;
      ScanQuoted(t, "\"", []);
    } else {
      var n := |t| - 1;
      assert t == t[..n] + [t[n]] && [] + t[..n] == t[..n];
      ScanBare(t[..n], [t[n]], []);
    }
  }

  lemma FirstWord(w: Word, rest: string)
    requires ValidWord(w) && rest != []
    ensures Tokens(PrintWord(w) + (" " + rest), false, []) == [w.text] + Tokens(rest, false, [])
  {
    var t := w.text;
    var more := " " + rest;
    assert more[1..] == rest && [] + t == t;
    if w.quoted {
      var s := "\"" + t + "\"" + more;
      assert s[1..] == t + ("\"" + more) && ("\"" + more)[1..] == more;
      ScanQuoted(t, "\"" + more, []);
    } else {
      ScanBare(t, more, []);
    }
  }

  lemma {:induction false} WrittenWordsTokenize(words: seq<Word>)
    requires words != [] && forall i :: 0 <= i < |words| ==> ValidWord(words[i])
    ensures PrintWords(words) != []
    ensures Tokens(PrintWords(words), false, []) == Texts(words)
    decreases |words|
  {
    if |words| == 1 {
      LastWord(words[0]);
    } else {
      WrittenWordsTokenize(words[1..]);
      FirstWord(words[0], PrintWords(words[1..]));
    }
  }

  // ----- Written commands are pieces again

  lemma {:induction false} SealedAppend(a: string, b: string)
    requires Sealed(a) && !Open(a) && Sealed(b)
    ensures Sealed(a + b) && Open(a + b) == Open(b)
    decreases |b|
  {
    if b == [] {
      assert a + b == a;
    } else {
      assert (a + b)[..|a + b| - 1] == a + b[..|b| - 1];
      SealedAppend(a, b[..|b| - 1]);
    }
  }

  lemma {:induction false} PlainIsSealed(t: string)
    requires forall i :: 0 <= i < |t| ==> t[i] != '"' && t[i] != ';'
    ensures Sealed(t) && !Open(t)
  {
    if t != [] { PlainIsSealed(t[..|t| - 1]); }
  }

  lemma {:induction false} QuotedIsOpen(t: string)
    requires forall i :: 0 <= i < |t| ==> t[i] != '"'
    ensures Sealed("\"" + t) && Open("\"" + t)
  {
    if t != [] {
      assert ("\"" + t)[..|t|] == "\"" + t[..|t| - 1];
      QuotedIsOpen(t[..|t| - 1]);
    } else {
      assert "\"" + t == "\"";
    }
  }

  lemma WordIsSealed(w: Word)
    requires ValidWord(w)
    ensures Sealed(PrintWord(w)) && !Open(PrintWord(w))
  {
    if w.quoted {
      QuotedIsOpen(w.text);
      assert PrintWord(w)[..|PrintWord(w)| - 1] == "\"" + w.text;
    } else {
      PlainIsSealed(w.text);
    }
  }

  lemma {:induction false} WordsAreSealed(words: seq<Word>)
    requires forall i :: 0 <= i < |words| ==> ValidWord(words[i])
    ensures Sealed(PrintWords(words)) && !Open(PrintWords(words))
    decreases |words|
  {
    if |words| == 1 {
      WordIsSealed(words[0]);
    } else if words != [] {
      WordIsSealed(words[0]);
      WordsAreSealed(words[1..]);
      PlainIsSealed(" ");
      SealedAppend(" ", PrintWords(words[1..]));
      SealedAppend(PrintWord(words[0]), " " + PrintWords(words[1..]));
    }
  }

  lemma LineIsSealed(line: Line)
    requires ValidLine(line)
    ensures PrintLine(line) != [] && Sealed(PrintLine(line)) && !Open(PrintLine(line))
  {
    PlainIsSealed(line.lead);
    WordsAreSealed(line.words);
    SealedAppend(line.lead, PrintWords(line.words));
    WrittenWordsTokenize(line.words);
  }

  lemma WellSplitCons(p: string, rest: seq<string>)
    requires Sealed(p) && !Open(p) && WellSplit(rest)
    ensures WellSplit([p] + rest)
  {}

  lemma {:induction false} LinesAreWellSplit(lines: seq<Line>)
    requires lines != [] && forall i :: 0 <= i < |lines| ==> ValidLine(lines[i])
    ensures WellSplit(PrintLines(lines))
    decreases |lines|
  {
    LineIsSealed(lines[0]);
    if |lines| == 1 {
      var p := PrintLine(lines[0]);
      assert p == p[..|p| - 1] + p[|p| - 1..];
      SealedPrefix(p[..|p| - 1], p[|p| - 1..]);
    } else {
      LinesAreWellSplit(lines[1..]);
      WellSplitCons(PrintLine(lines[0]), PrintLines(lines[1..]));
    }
  }

  // ----- Each written command is dispatched as it is meant

  lemma {:induction false} LeadIsTrimmed(lead: string, s: string)
    requires (forall i :: 0 <= i < |lead| ==> IsSpace(lead[i])) && s != [] && !IsSpace(s[0])
    ensures SkipSpace(lead + s) == s
    decreases |lead|
  {
    if lead == [] {
      assert lead + s == s;
    } else {
      assert (lead + s)[1..] == lead[1..] + s;
      LeadIsTrimmed(lead[1..], s);
    }
  }

  lemma WordsStart(words: seq<Word>)
    requires words != [] && ValidWord(words[0])
    ensures PrintWords(words) != [] && !IsSpace(PrintWords(words)[0])
  {}

  lemma HalfLifeWord(w: Word, more: string)
    requires ValidWord(w) && (more == "" || more[0] == ' ')
    ensures "hl " <= PrintWord(w) + more <==> w == Word("hl", false) && more != ""
  {
    var s := PrintWord(w) + more;
    if w.quoted {
      assert s[0] == '"';
    } else if |w.text| > 2 {
      assert s[2] == w.text[2] != ' ';
    } else if more != "" {
      assert s[|w.text|] == ' ';
      assert w.text == s[..|w.text|];
    }
  }

  /** The "hl " prefix is met exactly by an unquoted first word "hl" with others after it. */
  lemma HalfLifePrefix(words: seq<Word>)
    requires words != [] && forall i :: 0 <= i < |words| ==> ValidWord(words[i])
    ensures "hl " <= PrintWords(words) <==> words[0] == Word("hl", false) && |words| > 1
  {
    hide ValidWord, PrintWord;
    var more := if |words| > 1 then " " + PrintWords(words[1..]) else "";
    assert PrintWords(words) == PrintWord(words[0]) + more;
    HalfLifeWord(words[0], more);
  }

  lemma LineIsDispatched(line: Line)
    requires ValidLine(line)
    ensures Dispatches(SkipSpace(PrintLine(line))) == [Meaning(line)]
  {
    WordsStart(line.words);
    LeadIsTrimmed(line.lead, PrintWords(line.words));
    HalfLifePrefix(line.words);
    WrittenWordsTokenize(line.words);
    if line.words[0] == Word("hl", false) && |line.words| > 1 {
      assert PrintWords(line.words) == "hl" + (" " + PrintWords(line.words[1..]));
      assert PrintWords(line.words)[3..] == PrintWords(line.words[1..]);
    }
  }

  lemma {:induction false} LinesAreDispatched(lines: seq<Line>)
    requires forall i :: 0 <= i < |lines| ==> ValidLine(lines[i])
    ensures DispatchAll(PrintLines(lines)) == Meanings(lines)
    decreases |lines|
  {
    if lines != [] {
      LineIsDispatched(lines[0]);
      LinesAreDispatched(lines[1..]);
      assert PrintLines(lines)[1..] == PrintLines(lines[1..]);
    }
  }

  /** Executing written commands dispatches exactly what was written, in order. */
  lemma WrittenCommandsExecute(lines: seq<Line>)
    requires lines != [] && forall i :: 0 <= i < |lines| ==> ValidLine(lines[i])
    ensures Interpret(Join(PrintLines(lines), ";")) == Meanings(lines)
  {
    LinesAreWellSplit(lines);
    JoinedPiecesSplit(PrintLines(lines));
    LinesAreDispatched(lines);
    NotBlank(lines);
  }

  lemma NotBlank(lines: seq<Line>)
    requires lines != [] && ValidLine(lines[0])
    ensures Join(PrintLines(lines), ";") != " "
  {
    var line := lines[0];
    WordsStart(line.words);
    var p := PrintLine(line);
    assert p[|line.lead|] == PrintWords(line.words)[0];
    assert p <= Join(PrintLines(lines), ";");
  }

  // ----- When a command is tokenized as intended

  /** The fields between spaces outside quotes, without the quote marks. */
  function Words(s: string, quoted: bool, current: string): seq<string> {
    if s == [] then [current]
    else if s[0] == '"' then Words(s[1..], !quoted, current)
    else if s[0] == ' ' && !quoted then [current] + Words(s[1..], quoted, [])
    else Words(s[1..], quoted, current + [s[0]])
  }

  lemma {:induction false} OpenFromFront(s: string)
    requires s != []
    ensures Open(s) <==> (s[0] == '"') != Open(s[1..])
  {
    if |s| > 1 {
      OpenFromFront(s[..|s| - 1]);
      assert s[..|s| - 1][1..] == s[1..][..|s| - 2];
    }
  }

  /** A final space outside quotes ends a word; inside open quotes a last character is in the last word. */
  lemma {:induction false} LastCharacter(s: string, quoted: bool, current: string)
    ensures Words(s, quoted, current) != []
    ensures s != [] && s[|s| - 1] == ' ' && Open(s) == quoted ==> |Words(s, quoted, current)| > 1
    ensures s != [] && s[|s| - 1] != '"' && Open(s) != quoted ==>
      Words(s, quoted, current)[|Words(s, quoted, current)| - 1] != []
    decreases |s|
  {
    if s != [] {
      var (c, quote) := (s[0], s[0] == '"');
      OpenFromFront(s);
      LastCharacter(s[1..], quoted != quote,
                    if quote then current else if c == ' ' && !quoted then [] else current + [c]);
    }
  }

  function Shortened(word: string): string {
    if word == [] then [] else word[..|word| - 1]
  }

  /** What is made of the intended words of a text with this last character: if it opens
      a quote the last word is lost, and with any other open quote its last character; a
      space becomes part of the word before it. */
  function Garbled(words: seq<string>, open: bool, last: char): seq<string>
    requires words != []
  {
    var n := |words| - 1;
    if open then if last == '"' then words[..n] else words[..n] + [Shortened(words[n])]
    else if last == ' ' && n > 0 then words[..n - 1] + [words[n - 1] + " "]
    else words
  }

  lemma GarbledBehind(word: string, words: seq<string>, open: bool, last: char)
    requires words != [] && (!open && last == ' ' ==> |words| > 1)
    ensures Garbled([word] + words, open, last) == [word] + Garbled(words, open, last)
  {}

  /** The tokens of every text that is not empty, in terms of the intended words. */
  lemma {:induction false} TokensOfAnyText(s: string, quoted: bool, current: string)
    requires s != []
    ensures Words(s, quoted, current) != []
    ensures Tokens(s, quoted, current) == Garbled(Words(s, quoted, current), Open(s) != quoted, s[|s| - 1])
    decreases |s|
  {
    LastCharacter(s, quoted, current);
    OpenFromFront(s);
    if |s| == 1 {
      assert s[1..] == [] && (current + [s[0]])[..|current|] == current;
    } else if s[0] == '"' {
      TokensOfAnyText(s[1..], !quoted, current);
    } else if s[0] == ' ' && !quoted {
      TokensOfAnyText(s[1..], quoted, []);
      LastCharacter(s[1..], quoted, []);
      GarbledBehind(current, Words(s[1..], quoted, []), Open(s) != quoted, s[|s| - 1]);
    } else {
      TokensOfAnyText(s[1..], quoted, current + [s[0]]);
    }
  }

  /** A command that is not empty is tokenized as intended exactly if it leaves no quote
      open and does not end with a space. */
  lemma TokensAreWords(s: string)
    requires s != []
    ensures Tokens(s, false, []) == Words(s, false, []) <==> !Open(s) && s[|s| - 1] != ' '
  {
    TokensOfAnyText(s, false, []);
    LastCharacter(s, false, []);
    GarbledDiffers(Words(s, false, []), Open(s), s[|s| - 1]);
  }

  lemma GarbledDiffers(words: seq<string>, open: bool, last: char)
    requires words != []
    requires open && last != '"' ==> words[|words| - 1] != []
    requires !open && last == ' ' ==> |words| > 1
    ensures Garbled(words, open, last) == words <==> !open && last != ' '
  {
    if open && last != '"' {
      assert Garbled(words, open, last)[|words| - 1] == Shortened(words[|words| - 1]);
    }
  }

  // ----- Inputs the tokenizer does not give back

  /** A quote opened by the last character loses the word it is part of. */
  lemma TrailingQuoteLosesWord(t: string)
    requires forall i :: 0 <= i < |t| ==> t[i] != '"' && t[i] != ' '
    ensures Tokens(t + "\"", false, []) == []
  {
    ScanBare(t, "\"", []);
  }

  /** A word whose quote is never closed loses its last character. */
  lemma UnclosedQuoteLosesCharacter(t: string, c: char)
    requires c != '"' && forall i :: 0 <= i < |t| ==> t[i] != '"'
    ensures Tokens("\"" + (t + [c]), false, []) == [t]
  {
    assert ("\"" + (t + [c]))[1..] == t + [c] && [] + t == t;
    ScanQuoted(t, [c], []);
  }

  /** A final space becomes part of the last word. */
  lemma TrailingSpaceJoinsWord(t: string)
    requires forall i :: 0 <= i < |t| ==> t[i] != '"' && t[i] != ' '
    ensures Tokens(t + " ", false, []) == [t + " "]
  {
    ScanBare(t, " ", []);
    assert [] + t == t;
  }
}
