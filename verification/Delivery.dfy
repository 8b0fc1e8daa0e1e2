/** What the commands of a stream have to do with its lines and with the messages printed into it. */
module Delivery {
  import opened Framing
  import opened Message
  import opened Options
  import opened Sequences
  import opened WordLists

  // ---------- from lines to commands ----------

  /** The lines that are not blank. */
  function Written(lines: seq<string>): seq<string> {
    if lines == [] then []
    else (if NonSpaces(lines[0]) == "\r\n" then [] else [lines[0]]) + Written(lines[1..])
  }

  /** The same text but for spaces, and cut into the same words. */
  ghost predicate SameText(a: string, b: string) { NonSpaces(a) == NonSpaces(b) && Words(a) == Words(b) }

  ghost predicate SameTexts(commands: seq<string>, lines: seq<string>) {
    |commands| == |lines| && forall i :: 0 <= i < |lines| ==> SameText(commands[i], lines[i])
  }

  /** A blank line gives no command, any other gives one, with its text. */
  lemma CommandOfLine(line: string)
    requires IsLine(line)
    ensures NonSpaces(line) == "\r\n" ==> Command(line) == []
    ensures NonSpaces(line) != "\r\n" ==> |Command(line)| == 1 && SameText(Command(line)[0], line)
  {
    hide Squeeze, NonSpaces, Words, IsLine;
    SqueezedLine(line);
    SqueezeKeepsNonSpaces(line);
    SqueezeKeepsWords(line);
  }

  lemma {:induction false} CommandsOfLines(lines: seq<string>)
    requires forall i :: 0 <= i < |lines| ==> IsLine(lines[i])
    ensures SameTexts(Commands(lines), Written(lines))
  {
    hide Command, NonSpaces, SameText, IsLine;
    if lines == [] {
    } else {
      CommandOfLine(lines[0]);
      CommandsOfLines(lines[1..]);
    }
  }

  /** The commands of a stream are, one by one and in order, its lines that are not blank. */
  lemma EveryLineDelivered(s: string)
    ensures SameTexts(Commands(Lines(s)), Written(Lines(s)))
  {
    LinesAndTail(s);
    CommandsOfLines(Lines(s));
  }

  // ---------- from printed messages to commands ----------

  /** The body of a message fits on one line. */
  ghost predicate OneLine(body: string) { NUL !in body && !HasCrlf(body) }

  lemma LineOfBody(body: string)
    requires OneLine(body)
    ensures IsLine(body + "\r\n")
  {
    var s, n := body + "\r\n", |body|;
    assert s[..n] == body;
    assert forall x :: 0 <= x < n - 1 ==> (BareCrlf(s, x) <==> BareCrlf(body, x));
    forall x | CrlfAt(s, x) ensures n <= x {
      assert BareCrlf(s, x);
    }
    assert CrlfAt(s, n);
    CrlfUnique(s, n);
  }

  lemma BodyOfLine(body: string)
    requires IsLine(body + "\r\n")
    ensures OneLine(body)
  {
    var s, n := body + "\r\n", |body|;
    CrlfIsFirst(s);
    assert s[..n] == body;
    if x :| BareCrlf(body, x) {
      assert s[..x] == body[..x];
      assert CrlfAt(s, x);
    }
  }

  lemma LineAlone(s: string)
    ensures Lines(s) == [s] <==> IsLine(s)
  {
    if IsLine(s) {
      LinesUnique([s], "");
      assert Concat([s]) + "" == s;
    } else {
      LinesAndTail(s);
    }
  }

  /** A printed message is one line of framing exactly when its body holds no NUL and no CRLF. */
  lemma PrintIsOneLine(m: Msg)
    ensures Lines(Print(m)) == [Print(m)] <==> OneLine(PrintBody(m))
  {
    hide PrintBody, IsLine, Lines, OneLine;
    var body := PrintBody(m);
    LineAlone(body + "\r\n");
    if OneLine(body) { LineOfBody(body); }
    if IsLine(body + "\r\n") { BodyOfLine(body); }
  }

  lemma NormalFirst(s: string)
    requires Normal(s) && s != ""
    ensures s[0] != ' '
  {}

  lemma {:induction false} SqueezeSame(s: string)
    ensures Squeeze(s) == s <==> Normal(s)
    decreases |s|
  {
    hide Squeeze, Word, AfterWord, Normal;
    SqueezeNormal(s);
    if Normal(s) && s != "" {
      SqueezeStep(s);
      WordSplits(s);
      NormalRest(s);
      NormalFirst(s);
      if AfterWord(s).Some? {
        WordStarts(s);
        SqueezeSame(AfterWord(s).value);
      }
    } else {
      NothingNormal();
    }
  }

  lemma NormalBody(body: string)
    ensures Normal(body + "\r\n") <==> Normal(body)
  {
    var s := body + "\r\n";
    if Normal(s) {
      assert body != "" ==> s[0] == body[0];
      assert forall i :: 0 <= i < |body| ==> s[i] == body[i];
    }
  }

  // ---------- which messages print to a normal line ----------

  predicate Tight(s: string) { forall i :: 0 <= i < |s| - 1 ==> s[i] != ' ' || s[i + 1] != ' ' }

  lemma TightOfTwo(a: string, b: string)
    ensures Tight(a + b) <==> Tight(a) && Tight(b) && (a != "" && b != "" ==> a[|a| - 1] != ' ' || b[0] != ' ')
  {
    var s := a + b;
    assert forall i :: 0 <= i < |a| ==> s[i] == a[i];
    assert forall i :: 0 <= i < |b| ==> s[i + |a|] == b[i];
  }

  lemma OneLineOfTwo(a: string, b: string)
    requires a == "" || b == "" || a[|a| - 1] != '\r' || b[0] != '\n'
    ensures OneLine(a + b) <==> OneLine(a) && OneLine(b)
  {
    var s := a + b;
    assert forall i :: 0 <= i < |a| ==> s[i] == a[i];
    assert forall i :: 0 <= i < |b| ==> s[i + |a|] == b[i];
    assert forall x :: 0 <= x && x + 1 < |a| ==> (BareCrlf(s, x) <==> BareCrlf(a, x));
    assert forall x :: 0 <= x && x + 1 < |b| ==> (BareCrlf(s, x + |a|) <==> BareCrlf(b, x));
    if x :| BareCrlf(s, x) {
      assert x >= |a| ==> BareCrlf(b, x - |a|);
      assert x < |a| - 1 ==> BareCrlf(a, x);
    }
    if x :| BareCrlf(b, x) { assert BareCrlf(s, x + |a|); }
    if x :| BareCrlf(a, x) { assert BareCrlf(s, x); }
  }
  lemma NoSpaces(w: string)
    requires ' ' !in w
    ensures Tight(w)
  {}

  lemma Separators()
    ensures Tight(" ") && Tight(":") && Tight(" :") && OneLine(" ") && OneLine(":") && OneLine(" :") && OneLine("")
  {}

  /** What is printed in front of the first of some parameters. */
  function Mark(params: seq<string>, longlast: bool): string {
    if |params| == 1 && longlast then " :" else " "
  }

  lemma ParamsStep(params: seq<string>, longlast: bool)
    requires params != []
    ensures PrintParams(params, longlast) == Mark(params, longlast) + params[0] + PrintParams(params[1..], longlast)
  {}

  lemma ParamsStart(params: seq<string>, longlast: bool)
    ensures params == [] ==> PrintParams(params, longlast) == ""
    ensures params != [] ==> PrintParams(params, longlast) != "" && PrintParams(params, longlast)[0] == ' '
  {}

  lemma {:induction false} ParamsOnOneLine(params: seq<string>, longlast: bool)
    ensures OneLine(PrintParams(params, longlast)) <==> forall i :: 0 <= i < |params| ==> OneLine(params[i])
  {
    hide OneLine, PrintParams;
    Separators();
    ParamsStart(params, longlast);
    if params == [] {
    } else {
      var h, p, rest := Mark(params, longlast), params[0], params[1..];
      ParamsStep(params, longlast);
      ParamsStart(rest, longlast);
      ParamsOnOneLine(rest, longlast);
      OneLineOfTwo(h, p);
      OneLineOfTwo(h + p, PrintParams(rest, longlast));
      assert forall i :: 0 <= i < |rest| ==> rest[i] == params[i + 1];
      assert forall i :: 0 < i < |params| ==> params[i] == rest[i - 1];
    }
  }

  /** A long parameter without two spaces in a row. */
  predicate TightLast(params: seq<string>, longlast: bool) {
    longlast && params != [] ==> Tight(params[|params| - 1])
  }

  lemma {:induction false} ParamsTight(params: seq<string>, longlast: bool)
    requires WellFormedParams(params, longlast)
    ensures Tight(PrintParams(params, longlast)) <==> TightLast(params, longlast)
  {
    hide Tight, PrintParams;
    Separators();
    ParamsStart(params, longlast);
    NoSpaces("");
    if params == [] {
    } else {
      var h, p, rest := Mark(params, longlast), params[0], params[1..];
      ParamsStep(params, longlast);
      ParamsStart(rest, longlast);
      ParamsTight(rest, longlast);
      TightOfTwo(h, p);
      TightOfTwo(h + p, PrintParams(rest, longlast));
      if |params| > 1 || !longlast {
        assert Middle(p);
        NoSpaces(p);
      }
    }
  }

  /** No part of the message holds a NUL or a CRLF. */
  ghost predicate OneLineParts(m: Msg) {
    && (m.prefix.Some? ==> OneLine(m.prefix.value)) && OneLine(m.cmd)
    && forall i :: 0 <= i < |m.params| ==> OneLine(m.params[i])
  }

  lemma BodyOnOneLine(m: Msg)
    ensures OneLine(PrintBody(m)) <==> OneLineParts(m)
  {
    hide OneLine, PrintParams;
    Separators();
    var tail := PrintParams(m.params, m.longlast);
    ParamsStart(m.params, m.longlast);
    ParamsOnOneLine(m.params, m.longlast);
    OneLineOfTwo(m.cmd, tail);
    if m.prefix.Some? {
      var p := ":" + m.prefix.value;
      OneLineOfTwo(":", m.prefix.value);
      OneLineOfTwo(p, " ");
      OneLineOfTwo(p + " ", m.cmd + tail);
      assert PrintBody(m) == p + " " + (m.cmd + tail);
    } else {
      assert PrintBody(m) == m.cmd + tail;
    }
  }

  lemma NormalIsTight(s: string)
    requires s != "" && s[0] != ' '
    ensures Normal(s) <==> Tight(s)
  {}

  lemma BodyNormal(m: Msg)
    requires WellFormed(m)
    ensures Normal(PrintBody(m)) <==> TightLast(m.params, m.longlast)
  {
    hide Tight, PrintParams, TightLast;
    Separators();
    var tail := PrintParams(m.params, m.longlast);
    ParamsStart(m.params, m.longlast);
    ParamsTight(m.params, m.longlast);
    NoSpaces(m.cmd);
    TightOfTwo(m.cmd, tail);
    if m.prefix.Some? {
      var p := ":" + m.prefix.value;
      NoSpaces(p);
      TightOfTwo(p, " ");
      TightOfTwo(p + " ", m.cmd + tail);
      assert PrintBody(m) == p + " " + (m.cmd + tail);
    } else {
      assert PrintBody(m) == m.cmd + tail;
    }
    NormalIsTight(PrintBody(m));
  }

  /** A message that comes through: it is well formed, fits on a line, and has no two spaces in a row. */
  ghost predicate Sendable(m: Msg) { WellFormed(m) && OneLineParts(m) && TightLast(m.params, m.longlast) }

  lemma NothingToParse()
    ensures Parse("") == None
  {}

  /** A printed message is framed as one command, unchanged, and parses to itself exactly when it is well formed, no
      part of it holds a NUL or a CRLF, and its long parameter has no two spaces in a row. */
  lemma SentExact(m: Msg)
    ensures Lines(Print(m)) == [Print(m)] && Command(Print(m)) == [Print(m)] && Parse(PrintBody(m)) == Some(m) <==>
            Sendable(m)
  {
    hide PrintBody, Parse, WellFormed, Lines, OneLine, OneLineParts, TightLast, Normal, Squeeze;
    PrintIsOneLine(m);
    PrintThenParse(m);
    NormalBody(PrintBody(m));
    SqueezeSame(Print(m));
    NothingToParse();
    BodyOnOneLine(m);
    if WellFormed(m) { BodyNormal(m); }
  }

  function Printed(ms: seq<Msg>): seq<string> {
    if ms == [] then [] else [Print(ms[0])] + Printed(ms[1..])
  }

  lemma {:induction false} PrintedLines(ms: seq<Msg>)
    requires forall i :: 0 <= i < |ms| ==> Sendable(ms[i])
    ensures |Printed(ms)| == |ms| && Commands(Printed(ms)) == Printed(ms)
    ensures forall i :: 0 <= i < |ms| ==>
              Printed(ms)[i] == Print(ms[i]) && IsLine(Printed(ms)[i]) && Parse(PrintBody(ms[i])) == Some(ms[i])
  {
    hide Print, PrintBody, Parse, Sendable, IsLine, Command, Lines;
    if ms == [] {
    } else {
      PrintedLines(ms[1..]);
      SentExact(ms[0]);
      LineAlone(Print(ms[0]));
    }
  }

  /** From end to end: printed messages, however their bytes are cut into reads, come out as commands one by one,
      and each parses to the message it was printed from. */
  lemma MessagesArrive(ms: seq<Msg>, chunks: seq<string>)
    requires forall i :: 0 <= i < |ms| ==> Sendable(ms[i])
    requires Concat(chunks) == Concat(Printed(ms))
    ensures CommandsByReads("", chunks) == Printed(ms) && TailByReads("", chunks) == ""
    ensures |Printed(ms)| == |ms|
    ensures forall i :: 0 <= i < |ms| ==>
              var c := Printed(ms)[i]; |c| > 2 && Parse(c[..|c| - 2]) == Some(ms[i])
  {
    hide PrintBody, Parse, Sendable, Lines, Tail, Commands, IsLine;
    NothingToParse();
    PrintedLines(ms);
    LinesUnique(Printed(ms), "");
    ReadsDoNotMatter("", chunks);
    assert Concat(Printed(ms)) + "" == Concat(Printed(ms)) && "" + Concat(chunks) == Concat(chunks);
  }
}
