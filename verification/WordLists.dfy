/** A line as a list of words, and what parsing it comes to in those terms. */
module WordLists {
  import opened Framing
  import opened Message
  import opened Options

  /** The longest runs of characters other than spaces, in order. */
  function Words(s: string): (ws: seq<string>)
    ensures s != "" && s[0] != ' ' ==> ws != []
    ensures forall i :: 0 <= i < |ws| ==> ws[i] != "" && ' ' !in ws[i]
  {
    if s == "" then []
    else if s[0] == ' ' then Words(s[1..])
    else if |s| == 1 || s[1] == ' ' then [[s[0]]] + Words(s[1..])
    else
      var ws := Words(s[1..]);
      [[s[0]] + ws[0]] + ws[1..]
  }

  lemma {:induction false} WordsOfSkip(s: string)
    ensures Words(SkipSpaces(s)) == Words(s)
  {
    if s != "" && s[0] == ' ' { WordsOfSkip(s[1..]); }
  }

  lemma WordStep(s: string)
    requires |s| > 1 && s[0] != ' ' && s[1] != ' '
    ensures Word(s) == [s[0]] + Word(s[1..]) && AfterWord(s) == AfterWord(s[1..])
  {}

  lemma OneLetter(s: string)
    requires s != "" && s[0] != ' ' && (|s| > 1 ==> s[1] == ' ')
    ensures Word(s) == [s[0]] && AfterWord(s) == if |s| == 1 then None else Some(s[2..])
  {}

  /** The first word and what follows it. */
  lemma {:induction false} FirstOfWords(s: string)
    requires s != "" && s[0] != ' '
    ensures Words(s) == [Word(s)] + if AfterWord(s).None? then [] else Words(AfterWord(s).value)
  {
    hide Word, AfterWord;
    if |s| == 1 || s[1] == ' ' {
      OneLetter(s);
      if |s| > 1 { assert s[1..][1..] == s[2..]; }
    } else {
      WordStep(s);
      FirstOfWords(s[1..]);
    }
  }

  /** Squeezing changes no word. */
  lemma {:induction false} SqueezeKeepsWords(s: string)
    ensures Words(Squeeze(s)) == Words(s)
    decreases |s|
  {
    hide Squeeze, Word, AfterWord;
    if s == "" {
      NothingNormal();
    } else {
      SqueezeStep(s);
      if s[0] == ' ' {
        SqueezeKeepsWords(s[1..]);
      } else {
        WordStarts(s);
        FirstOfWords(s);
        var w := Word(s);
        if AfterWord(s).None? {
          WordOf(w, "");
          FirstOfWords(w);
          assert Squeeze(s) == w;
        } else {
          var r := Squeeze(AfterWord(s).value);
          SqueezeKeepsWords(AfterWord(s).value);
          WordOf(w, r);
          FirstOfWords(w + " " + r);
          assert Squeeze(s) == w + " " + r;
        }
      }
    }
  }

  // ---------- parsing ----------

  /** The same but for the case of letters. */
  ghost predicate SameButCase(a: string, b: string) {
    |a| == |b| && forall i :: 0 <= i < |a| ==> Upper(a[i]) == Upper(b[i])
  }

  /** The words of what follows a word. */
  function WordsBehind(rest: Option<string>): seq<string> { if rest.None? then [] else Words(rest.value) }

  lemma MoreWords(u: string)
    requires u != "" && u[0] != ' '
    ensures Words(u) == [Word(u)] + WordsBehind(AfterWord(u))
  {
    FirstOfWords(u);
  }

  lemma FirstWordMarks(s: string)
    ensures s != "" && s[0] != ' ' ==> Words(s) != [] && Words(s)[0][0] == s[0]
  {}

  /** With no word that starts with a colon among them, the parameters are the words. */
  lemma {:induction false} ParamsAreWords(rest: Option<string>)
    requires forall i :: 0 <= i < |WordsBehind(rest)| ==> WordsBehind(rest)[i][0] != ':'
    ensures ParseParams(rest) == (WordsBehind(rest), false)
    decreases if rest.Some? then |rest.value| + 1 else 0
  {
    hide Word, AfterWord;
    if rest.Some? {
      var t := SkipSpaces(rest.value);
      WordsOfSkip(rest.value);
      if t != "" {
        WordStarts(t);
        FirstOfWords(t);
        var more := WordsBehind(AfterWord(t));
        assert WordsBehind(rest) == [Word(t)] + more;
        assert forall i :: 0 <= i < |more| ==> more[i] == WordsBehind(rest)[i + 1];
        ParamsAreWords(AfterWord(t));
        FirstWordMarks(rest.value);
      }
    }
  }

  /** The place of the command among the words of a line: behind a word that starts with a colon, if that is
      the first. */
  function CommandPlace(ws: seq<string>): nat
    requires forall i :: 0 <= i < |ws| ==> ws[i] != ""
  {
    if ws != [] && ws[0][0] == ':' then 1 else 0
  }

  /** m is what words are parsed to of which the first is the command: that word in upper case, and the others
      as parameters when none of them starts with a colon. */
  ghost predicate ParsedAs(m: Msg, ws: seq<string>)
    requires forall i :: 0 <= i < |ws| ==> ws[i] != ""
  {
    && ws != [] && SameButCase(m.cmd, ws[0]) && (forall i :: 0 <= i < |m.cmd| ==> !IsLower(m.cmd[i]))
    && ((forall i :: 0 < i < |ws| ==> ws[i][0] != ':') ==> m.params == ws[1..] && !m.longlast)
  }

  lemma UpperWord(w: string)
    ensures SameButCase(UpperAll(w), w) && forall i :: 0 <= i < |w| ==> !IsLower(UpperAll(w)[i])
  {
    UpperAt(w);
    UpperExact();
    hide UpperAll;
  }

  lemma ParamsParsed(u: string)
    requires u != "" && u[0] != ' '
    ensures var ws := Words(u);
            && ws != [] && ws[0] == Word(u)
            && ((forall i :: 0 < i < |ws| ==> ws[i][0] != ':') ==> ParseParams(AfterWord(u)) == (ws[1..], false))
  {
    hide Word, AfterWord, ParseParams, WordsBehind;
    MoreWords(u);
    var ws, more := Words(u), WordsBehind(AfterWord(u));
    if forall i :: 0 < i < |ws| ==> ws[i][0] != ':' {
      assert forall i :: 0 <= i < |more| ==> more[i] == ws[i + 1];
      ParamsAreWords(AfterWord(u));
    }
  }

  lemma CommandParsed(prefix: Option<string>, u: string)
    requires u != "" && u[0] != ' '
    ensures ParsedAs(ParseCommand(prefix, u), Words(u)) && ParseCommand(prefix, u).prefix == prefix
  {
    hide Word, AfterWord, ParseParams, Words, UpperAll, SameButCase;
    ParamsParsed(u);
    UpperWord(Word(u));
    UpperAt(Word(u));
  }

  /** Parsing in terms of words: it fails exactly when there is no command; the prefix is the first word, if that
      starts with a colon; and what is read then are the words from the next one on. */
  lemma ParsedWords(line: string)
    ensures var ws := Words(line);
            var k := CommandPlace(ws);
            && (Parse(line).None? <==> |ws| <= k)
            && (Parse(line).Some? ==>
                  && Parse(line).value.prefix == (if k == 1 then Some(ws[0][1..]) else None)
                  && ParsedAs(Parse(line).value, ws[k..]))
  {
    hide Word, AfterWord, ParseCommand, ParsedAs;
    var t := SkipSpaces(line);
    WordsOfSkip(line);
    if t != "" {
      WordStarts(t);
      FirstOfWords(t);
      assert Words(t)[0..] == Words(t);
      if t[0] != ':' {
        CommandParsed(None, t);
      } else if AfterWord(t).Some? {
        var u := SkipSpaces(AfterWord(t).value);
        WordsOfSkip(AfterWord(t).value);
        assert Words(t)[1..] == Words(u);
        if u != "" { CommandParsed(Some(Word(t)[1..]), u); }
      }
    }
  }
}
