/** The shell-like tokenizer that turns a hook's `entry` into an argument vector. Single quotes
    group characters literally; double quotes group characters but a backslash still escapes the
    next character inside them; a backslash outside single quotes emits the next character
    literally (a trailing backslash emits nothing); spaces and tabs outside quotes separate words;
    empty words are never produced; an unterminated quote simply runs to the end of the input. */
module ShellWords {
  import opened Core
  import opened Seqs

  /** The tokenizer's state between characters: finished words, the word being built, and
      whether a single- or double-quoted segment is open. */
  datatype Lexer = Lexer(words: seq<string>, current: string, inSingle: bool, inDouble: bool)

  const Start: Lexer := Lexer([], "", false, false)

  predicate IsBlank(c: char)
  {
    c == ' ' || c == '\t'
  }

  /** Ends the word being built, if there is one. */
  function Break(lx: Lexer): (r: Lexer)
    ensures r.current == [] && r.inSingle == lx.inSingle && r.inDouble == lx.inDouble
    ensures r.words == if lx.current == [] then lx.words else lx.words + [lx.current]
  {
    if lx.current == [] then lx else lx.(words := lx.words + [lx.current], current := [])
  }

  /** How many characters one step consumes: two for a backslash outside single quotes that has
      a character after it, one otherwise. */
  function Width(input: string, lx: Lexer): (n: nat)
    requires input != []
    ensures 1 <= n <= |input|
  {
    if input[0] == '\\' && !lx.inSingle && |input| >= 2 then 2 else 1
  }

  /** The state after one step on the front of `input`: a quote toggles its segment unless the
      other kind is open, a blank outside quotes ends the word, an escaped character (none for a
      trailing backslash) or any other character is appended to the word. */
  function Step(input: string, lx: Lexer): (r: Lexer)
    requires input != []
    ensures r.words == lx.words || (r.words == lx.words + [lx.current] && lx.current != [])
  {
    var c := input[0];
    if c == '\'' && !lx.inDouble then lx.(inSingle := !lx.inSingle)
    else if c == '"' && !lx.inSingle then lx.(inDouble := !lx.inDouble)
    else if IsBlank(c) && !lx.inSingle && !lx.inDouble then Break(lx)
    else if c == '\\' && !lx.inSingle then
      if |input| >= 2 then lx.(current := lx.current + [input[1]]) else lx
    else lx.(current := lx.current + [c])
  }

  /** Feeds the whole of `input` to the tokenizer, one step at a time. Words are only ever added:
      the finished words of `lx` stay at the front. */
  function Scan(input: string, lx: Lexer): (r: Lexer)
    ensures lx.words <= r.words
    decreases |input|
  {
    if input == [] then lx else Scan(input[Width(input, lx)..], Step(input, lx))
  }

  /** The words of `input`. Runs of blanks never produce an empty word. */
  function SplitWords(input: string): (words: seq<string>)
    ensures NoEmptyWord(words)
  {
    ScanKeepsWordsNonEmpty(input, Start);
    Break(Scan(input, Start)).words
  }

  /** `shell_words::split`: the character loop, then the last word. It never fails. */
  method Split(input: string) returns (r: Result<seq<string>, string>)
    ensures r == Ok(SplitWords(input))
  {
    var words: seq<string> := [];
    var current: string := "";
    var inSingle := false;
    var inDouble := false;
    var i := 0;
    while i < |input|
      invariant i <= |input|
      invariant Scan(input[i..], Lexer(words, current, inSingle, inDouble)) == Scan(input, Start)
    {
      var c := input[i];
      assert input[i..][0] == c && input[i..][1..] == input[i + 1..];
      if c == '\'' && !inDouble {
        inSingle := !inSingle;
        i := i + 1;
      } else if c == '"' && !inSingle {
        inDouble := !inDouble;
        i := i + 1;
      } else if (c == ' ' || c == '\t') && !inSingle && !inDouble {
        if current != [] {
          words := words + [current];
          current := "";
        }
        i := i + 1;
      } else if c == '\\' && !inSingle {
        if i + 1 < |input| {
          assert input[i..][1] == input[i + 1] && input[i..][2..] == input[i + 2..];
          current := current + [input[i + 1]];
          i := i + 2;
        } else {
          i := i + 1;
        }
      } else {
        current := current + [c];
        i := i + 1;
      }
    }
    if current != [] {
      words := words + [current];
    }
    return Ok(words);
  }

  // ---------------------------------------------------------------------------
  // No empty words
  // ---------------------------------------------------------------------------

  predicate NoEmptyWord(words: seq<string>)
  {
    forall k :: 0 <= k < |words| ==> words[k] != []
  }

  lemma {:induction false} ScanKeepsWordsNonEmpty(input: string, lx: Lexer)
    requires NoEmptyWord(lx.words)
    ensures NoEmptyWord(Scan(input, lx).words)
    decreases |input|
  {
    if input != [] {
      ScanKeepsWordsNonEmpty(input[Width(input, lx)..], Step(input, lx));
    }
  }

  // ---------------------------------------------------------------------------
  // Round trips
  // ---------------------------------------------------------------------------

  /** A character with no meaning to the tokenizer. */
  predicate IsPlain(c: char)
  {
    !IsBlank(c) && c != '\'' && c != '"' && c != '\\'
  }

  predicate PlainWord(w: string)
  {
    w != [] && forall k :: 0 <= k < |w| ==> IsPlain(w[k])
  }

  /** The words separated by single spaces. */
  function Unwords(ws: seq<string>): string
  {
    if ws == [] then [] else if |ws| == 1 then ws[0] else ws[0] + [' '] + Unwords(ws[1..])
  }

  /** Plain characters are appended to the current word. */
  lemma {:induction false} ScanPlain(w: string, rest: string, lx: Lexer)
    requires forall k :: 0 <= k < |w| ==> IsPlain(w[k])
    requires !lx.inSingle && !lx.inDouble
    ensures Scan(w + rest, lx) == Scan(rest, lx.(current := lx.current + w))
  {
    if w != [] {
      assert w + rest == [w[0]] + (w[1..] + rest);
      ScanLiteral(w[0], w[1..] + rest, lx);
      ScanPlain(w[1..], rest, lx.(current := lx.current + [w[0]]));
      AppendHeadTail(lx.current, w);
    } else {
      assert w + rest == rest && lx.current + w == lx.current;
      assert lx.(current := lx.current + w) == lx;
    }
  }

  /** A character the current state takes literally is appended to the word being built. */
  lemma ScanLiteral(c: char, rest: string, lx: Lexer)
    requires c == '\\' ==> lx.inSingle
    requires c == '\'' ==> lx.inDouble
    requires c == '"' ==> lx.inSingle
    requires IsBlank(c) ==> lx.inSingle || lx.inDouble
    ensures Scan([c] + rest, lx) == Scan(rest, lx.(current := lx.current + [c]))
  {
    assert ([c] + rest)[0] == c && ([c] + rest)[1..] == rest;
  }

  /** A backslash outside single quotes appends the character after it. */
  lemma ScanEscapePair(c: char, rest: string, lx: Lexer)
    requires !lx.inSingle
    ensures Scan(['\\', c] + rest, lx) == Scan(rest, lx.(current := lx.current + [c]))
  {
    var input := ['\\', c] + rest;
    assert input[0] == '\\' && input[1] == c && input[2..] == rest;
  }

  lemma {:induction false} UnwordsScan(ws: seq<string>, acc: seq<string>)
    requires ws != [] && forall k :: 0 <= k < |ws| ==> PlainWord(ws[k])
    ensures Break(Scan(Unwords(ws), Lexer(acc, [], false, false))).words == acc + ws
  {
    if |ws| == 1 {
      PlainLast(ws[0], acc);
      assert ws == [ws[0]];
    } else {
      assert Unwords(ws) == ws[0] + ([' '] + Unwords(ws[1..]));
      PlainThenBlank(ws[0], Unwords(ws[1..]), acc);
      UnwordsScan(ws[1..], acc + [ws[0]]);
      AppendHeadTail(acc, ws);
    }
  }

  /** The last word ends the input and is collected by the final break. */
  lemma PlainLast(w: string, acc: seq<string>)
    requires PlainWord(w)
    ensures Break(Scan(w, Lexer(acc, [], false, false))).words == acc + [w]
  {
    var lx := Lexer(acc, [], false, false);
    assert w + [] == w;
    ScanPlain(w, [], lx);
    assert lx.(current := lx.current + w) == Lexer(acc, w, false, false);
  }

  /** A backslash with nothing after it, outside single quotes, is dropped. */
  lemma ScanTrailingBackslash(lx: Lexer)
    requires !lx.inSingle
    ensures Scan(['\\'], lx) == lx
  {
    var input := ['\\'];
    assert Width(input, lx) == 1 && input[1..] == [];
  }

  /** A plain word with a trailing backslash splits like the word alone. */
  lemma PlainTrailingBackslash(w: string)
    requires PlainWord(w)
    ensures SplitWords(w + ['\\']) == SplitWords(w) == [w]
  {
    ScanPlain(w, ['\\'], Start);
    ScanTrailingBackslash(Start.(current := w));
    PlainLast(w, []);
    assert Start.(current := Start.current + w) == Start.(current := w);
  }

  /** A word followed by a blank is finished before the rest is read. */
  lemma PlainThenBlank(w: string, tail: string, acc: seq<string>)
    requires PlainWord(w)
    ensures Scan(w + ([' '] + tail), Lexer(acc, [], false, false)) == Scan(tail, Lexer(acc + [w], [], false, false))
  {
    var lx := Lexer(acc, [], false, false);
    var mid := Lexer(acc, w, false, false);
    ScanPlain(w, [' '] + tail, lx);
    assert lx.(current := lx.current + w) == mid;
    ScanBlank(' ', tail, mid);
    assert Break(mid) == Lexer(acc + [w], [], false, false);
  }

  /** Joining plain words with spaces and splitting again gives the words back. */
  lemma SplitUnwords(ws: seq<string>)
    requires forall k :: 0 <= k < |ws| ==> PlainWord(ws[k])
    ensures SplitWords(Unwords(ws)) == ws
  {
    if ws != [] {
      UnwordsScan(ws, []);
    }
  }

  /** Inside double quotes: a backslash before every `"` and `\`. */
  function EscapeChars(w: string): (r: string)
    ensures |r| >= |w|
  {
    if w == [] then []
    else (if w[0] == '"' || w[0] == '\\' then ['\\', w[0]] else [w[0]]) + EscapeChars(w[1..])
  }

  /** `w` as one double-quoted word. */
  function Quote(w: string): string
  {
    ['"'] + EscapeChars(w) + ['"']
  }

  /** Quoted words separated by single spaces. */
  function QuoteAll(ws: seq<string>): string
  {
    if ws == [] then [] else if |ws| == 1 then Quote(ws[0]) else Quote(ws[0]) + [' '] + QuoteAll(ws[1..])
  }

  /** Inside double quotes, escaped text is taken back literally. */
  lemma {:induction false} ScanEscaped(w: string, rest: string, lx: Lexer)
    requires !lx.inSingle && lx.inDouble
    ensures Scan(EscapeChars(w) + rest, lx) == Scan(rest, lx.(current := lx.current + w))
  {
    if w != [] {
      var tail := EscapeChars(w[1..]) + rest;
      var next := lx.(current := lx.current + [w[0]]);
      if w[0] == '"' || w[0] == '\\' {
        assert EscapeChars(w) + rest == ['\\', w[0]] + tail;
        ScanEscapePair(w[0], tail, lx);
      } else {
        assert EscapeChars(w) + rest == [w[0]] + tail;
        ScanLiteral(w[0], tail, lx);
      }
      ScanEscaped(w[1..], rest, next);
      AppendHeadTail(lx.current, w);
    } else {
      assert EscapeChars(w) + rest == rest && lx.current + w == lx.current;
      assert lx.(current := lx.current + w) == lx;
    }
  }

  /** A quoted word is taken back whole, whatever it contains, and the quote is closed after it. */
  lemma ScanQuoted(w: string, rest: string, lx: Lexer)
    requires !lx.inSingle && !lx.inDouble
    ensures Scan(Quote(w) + rest, lx) == Scan(rest, lx.(current := lx.current + w))
  {
    var open := lx.(inDouble := true);
    var input := Quote(w) + rest;
    assert input[0] == '"' && input[1..] == EscapeChars(w) + (['"'] + rest);
    ScanEscaped(w, ['"'] + rest, open);
    var after := ['"'] + rest;
    assert after[0] == '"' && after[1..] == rest;
  }

  lemma {:induction false} QuoteAllScan(ws: seq<string>, acc: seq<string>)
    requires ws != [] && NoEmptyWord(ws)
    ensures Break(Scan(QuoteAll(ws), Lexer(acc, [], false, false))).words == acc + ws
  {
    if |ws| == 1 {
      QuotedLast(ws[0], acc);
      assert ws == [ws[0]];
    } else {
      assert QuoteAll(ws) == Quote(ws[0]) + ([' '] + QuoteAll(ws[1..]));
      QuotedThenBlank(ws[0], QuoteAll(ws[1..]), acc);
      QuoteAllScan(ws[1..], acc + [ws[0]]);
      AppendHeadTail(acc, ws);
    }
  }

  /** The last word ends the input and is collected by the final break. */
  lemma QuotedLast(w: string, acc: seq<string>)
    requires w != []
    ensures Break(Scan(Quote(w), Lexer(acc, [], false, false))).words == acc + [w]
  {
    var lx := Lexer(acc, [], false, false);
    assert Quote(w) + [] == Quote(w);
    ScanQuoted(w, [], lx);
    assert lx.(current := lx.current + w) == Lexer(acc, w, false, false);
  }

  /** A word followed by a blank is finished before the rest is read. */
  lemma QuotedThenBlank(w: string, tail: string, acc: seq<string>)
    requires w != []
    ensures Scan(Quote(w) + ([' '] + tail), Lexer(acc, [], false, false)) == Scan(tail, Lexer(acc + [w], [], false, false))
  {
    var lx := Lexer(acc, [], false, false);
    var mid := Lexer(acc, w, false, false);
    ScanQuoted(w, [' '] + tail, lx);
    assert lx.(current := lx.current + w) == mid;
    ScanBlank(' ', tail, mid);
    assert Break(mid) == Lexer(acc + [w], [], false, false);
  }

  /** Any non-empty words, double-quoted with `"` and `\` escaped and joined with spaces, split
      back into exactly those words: blanks, single quotes and escapes inside them survive. */
  lemma SplitQuoteAll(ws: seq<string>)
    requires NoEmptyWord(ws)
    ensures SplitWords(QuoteAll(ws)) == ws
  {
    if ws != [] {
      QuoteAllScan(ws, []);
    }
  }

  /** An empty quoted segment contributes nothing, so `''` on its own yields no word at all. */
  lemma EmptyQuotesVanish()
    ensures SplitWords("''") == [] && SplitWords("\"\"") == []
  {
  }

  /** Inside single quotes every character but `'` is literal, backslashes included. */
  lemma {:induction false} ScanSingleQuoted(w: string, rest: string, lx: Lexer)
    requires forall k :: 0 <= k < |w| ==> w[k] != '\''
    requires lx.inSingle && !lx.inDouble
    ensures Scan(w + rest, lx) == Scan(rest, lx.(current := lx.current + w))
  {
    if w != [] {
      assert w + rest == [w[0]] + (w[1..] + rest);
      ScanLiteral(w[0], w[1..] + rest, lx);
      ScanSingleQuoted(w[1..], rest, lx.(current := lx.current + [w[0]]));
      AppendHeadTail(lx.current, w);
    } else {
      assert w + rest == rest && lx.current + w == lx.current;
      assert lx.(current := lx.current + w) == lx;
    }
  }

  /** Unit-test input: plain words separated by spaces. */
  lemma SplitPlainExample()
    ensures SplitWords("echo hello world") == ["echo", "hello", "world"]
  {
    var ws := ["echo", "hello", "world"];
    assert PlainWord(ws[0]) && PlainWord(ws[1]) && PlainWord(ws[2]);
    assert ws[1..][1..] == ["world"];
    assert Unwords(ws) == "echo hello world";
    SplitUnwords(ws);
  }

  /** A blank (a space or a tab) outside quotes ends the current word. */
  lemma ScanBlank(c: char, rest: string, lx: Lexer)
    requires IsBlank(c) && !lx.inSingle && !lx.inDouble
    ensures Scan([c] + rest, lx) == Scan(rest, Break(lx))
  {
    assert ([c] + rest)[0] == c && ([c] + rest)[1..] == rest;
  }

  /** A quote character outside the other kind of quote toggles its segment. */
  lemma ScanQuoteChar(q: char, rest: string, lx: Lexer)
    requires (q == '\'' && !lx.inDouble) || (q == '"' && !lx.inSingle)
    ensures Scan([q] + rest, lx)
      == Scan(rest, if q == '\'' then lx.(inSingle := !lx.inSingle) else lx.(inDouble := !lx.inDouble))
  {
    assert ([q] + rest)[1..] == rest;
  }

  /** A plain word, a blank, then a phrase wrapped in single quotes: two words, the phrase
      taken back whole. */
  lemma PlainThenSingleQuoted(word: string, phrase: string)
    requires PlainWord(word)
    requires phrase != [] && forall k :: 0 <= k < |phrase| ==> phrase[k] != '\''
    ensures SplitWords(word + [' ', '\''] + phrase + ['\'']) == [word, phrase]
  {
    var closing := phrase + ['\''];
    var afterBlank := ['\''] + closing;
    var input := word + [' ', '\''] + phrase + ['\''];
    assert input == word + ([' '] + afterBlank);
    var none: seq<string> := [];
    assert Start == Lexer(none, [], false, false) && none + [word] == [word];
    PlainThenBlank(word, afterBlank, none);
    var b := Lexer([word], "", false, false);
    ScanQuoteChar('\'', closing, b);
    var c := Lexer([word], "", true, false);
    ScanSingleQuoted(phrase, ['\''], c);
    var e := Lexer([word], phrase, true, false);
    assert c.(current := c.current + phrase) == e;
    ScanQuoteChar('\'', [], e);
    var f := Lexer([word], phrase, false, false);
    assert Scan([], f) == f;
    assert Break(f).words == [word, phrase];
  }

  lemma {:induction false} EscapeCharsIdentity(w: string)
    requires forall k :: 0 <= k < |w| ==> w[k] != '"' && w[k] != '\\'
    ensures EscapeChars(w) == w
  {
    if w != [] {
      EscapeCharsIdentity(w[1..]);
    }
  }

  /** A plain word, a blank, then a phrase with no `"` or `\` wrapped in double quotes: two words,
      the phrase taken back whole. */
  lemma PlainThenDoubleQuoted(word: string, phrase: string)
    requires PlainWord(word)
    requires phrase != [] && forall k :: 0 <= k < |phrase| ==> phrase[k] != '"' && phrase[k] != '\\'
    ensures SplitWords(word + [' ', '"'] + phrase + ['"']) == [word, phrase]
  {
    EscapeCharsIdentity(phrase);
    assert word + [' ', '"'] + phrase + ['"'] == word + ([' '] + Quote(phrase));
    var none: seq<string> := [];
    assert Start == Lexer(none, [], false, false) && none + [word] == [word];
    PlainThenBlank(word, Quote(phrase), none);
    QuotedLast(phrase, [word]);
    assert [word] + [phrase] == [word, phrase];
  }

  /** Unit-test input: a single-quoted phrase keeps its space. */
  lemma SplitSingleQuotedExample(input: string)
    requires input == "echo 'hello world'"
    ensures SplitWords(input) == ["echo", "hello world"]
  {
    assert PlainWord("echo");
    PlainThenSingleQuoted("echo", "hello world");
    assert input == "echo" + [' ', '\''] + "hello world" + ['\''];
  }

  /** Unit-test input: a double-quoted phrase keeps its space. */
  lemma SplitDoubleQuotedExample(input: string)
    requires input == "echo \"hello world\""
    ensures SplitWords(input) == ["echo", "hello world"]
  {
    assert PlainWord("echo");
    PlainThenDoubleQuoted("echo", "hello world");
    assert input == "echo" + [' ', '"'] + "hello world" + ['"'];
  }
}
