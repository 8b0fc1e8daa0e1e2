/** The IRC message parser and printer of message.c (section 2.3.1 of RFC 2812). */
module Message {

  import opened Options

  datatype Msg = Msg(prefix: Option<string>, cmd: string, params: seq<string>, longlast: bool)

  const MAX_PARAMS: nat := 15
  const BUFFER_SIZE: nat := 1024
  const NUL: char := '\0'

  /** toupper in the C locale. */
  function Upper(c: char): char {
    if 'a' <= c <= 'z' then (c as int - 32) as char else c
  }

  function UpperAll(s: string): string {
    if s == "" then "" else [Upper(s[0])] + UpperAll(s[1..])
  }

  // ---------- what the parser computes ----------

  function SkipSpaces(s: string): (r: string)
    ensures |r| <= |s|
    ensures r != "" ==> r[0] != ' '
  {
    if s != "" && s[0] == ' ' then SkipSpaces(s[1..]) else s
  }

  /** The bytes before the first space. */
  function Word(s: string): (w: string)
    ensures |w| <= |s| && (s != "" && s[0] != ' ' ==> w != "")
    ensures w == s[..|w|] && ' ' !in w
    ensures |w| < |s| ==> s[|w|] == ' '
  {
    if s == "" || s[0] == ' ' then "" else [s[0]] + Word(s[1..])
  }

  /** What follows the first space, or None when the string ends before one. */
  function AfterWord(s: string): (r: Option<string>)
    ensures r.Some? ==> |r.value| < |s|
  {
    var w := Word(s);
    if |w| == |s| then None else Some(s[|w| + 1..])
  }

  /** The parameters after a word, and whether the last of them is long. */
  function ParseParams(rest: Option<string>): (seq<string>, bool)
    decreases if rest.Some? then |rest.value| + 1 else 0
  {
    if rest.None? then ([], false)
    else if rest.value != "" && rest.value[0] == ':' then ([rest.value[1..]], true)
    else
      var t := SkipSpaces(rest.value);
      if t == "" then ([], false)
      else
        var (params, longlast) := ParseParams(AfterWord(t));
        ([Word(t)] + params, longlast)
  }

  function ParseCommand(prefix: Option<string>, t: string): Msg {
    var (params, longlast) := ParseParams(AfterWord(t));
    Msg(prefix, UpperAll(Word(t)), params, longlast)
  }

  /** The message in a line without its last two bytes. */
  function Parse(line: string): Option<Msg> {
    var t := SkipSpaces(line);
    if t == "" then None
    else if t[0] == ':' then
      if AfterWord(t).None? then None
      else
        var u := SkipSpaces(AfterWord(t).value);
        if u == "" then None else Some(ParseCommand(Some(Word(t)[1..]), u))
    else Some(ParseCommand(None, t))
  }

  // ---------- what the printer computes ----------

  function PrintParams(params: seq<string>, longlast: bool): string {
    if params == [] then ""
    else " " + (if |params| == 1 && longlast then ":" else "") + params[0] + PrintParams(params[1..], longlast)
  }

  function PrintBody(m: Msg): string {
    (if m.prefix.Some? then ":" + m.prefix.value + " " else "") + m.cmd + PrintParams(m.params, m.longlast)
  }

  function Print(m: Msg): string { PrintBody(m) + "\r\n" }

  // ---------- the messages of the format ----------

  predicate Middle(p: string) { p != "" && ' ' !in p && p[0] != ':' }

  predicate WellFormedParams(params: seq<string>, longlast: bool) {
    forall i :: 0 <= i < |params| && (i < |params| - 1 || !longlast) ==> Middle(params[i])
  }

  predicate WellFormed(m: Msg) {
    && (m.prefix.Some? ==> ' ' !in m.prefix.value)
    && m.cmd != "" && ' ' !in m.cmd && UpperAll(m.cmd) == m.cmd
    && (m.prefix.None? ==> m.cmd[0] != ':')
    && (m.longlast ==> m.params != [])
    && WellFormedParams(m.params, m.longlast)
  }

  // ---------- the laws ----------

  /** The first word is what comes before the first space. */
  lemma {:induction false} WordIs(s: string, k: nat)
    requires k <= |s| && ' ' !in s[..k] && (k < |s| ==> s[k] == ' ')
    ensures Word(s) == s[..k] && AfterWord(s) == if k < |s| then Some(s[k + 1..]) else None
  {
    if k == 0 {
    } else {
      assert s[..k][0] == s[0];
      assert s[1..][..k - 1] == s[..k][1..];
      WordIs(s[1..], k - 1);
    }
  }

  lemma WordOf(w: string, r: string)
    requires ' ' !in w
    ensures Word(w) == w && AfterWord(w) == None
    ensures Word(w + " " + r) == w && AfterWord(w + " " + r) == Some(r)
  {
    hide Word, AfterWord;
    assert w[..|w|] == w;
    WordIs(w, |w|);
    var s := w + " " + r;
    assert s[..|w|] == w && s[|w| + 1..] == r;
    WordIs(s, |w|);
  }

  /** The text after a word that parameters follow. */
  function Following(params: seq<string>, longlast: bool): Option<string> {
    var s := PrintParams(params, longlast);
    if s == "" then None else Some(s[1..])
  }

  lemma WordBeforeParams(w: string, params: seq<string>, longlast: bool)
    requires ' ' !in w
    ensures Word(w + PrintParams(params, longlast)) == w
    ensures AfterWord(w + PrintParams(params, longlast)) == Following(params, longlast)
  {
    var s := PrintParams(params, longlast);
    var t := w + s;
    hide Word, AfterWord;
    assert t[..|w|] == w;
    assert s != "" ==> s[0] == ' ' && t[|w| + 1..] == s[1..];
    WordIs(t, |w|);
  }

  lemma MiddleStep(params: seq<string>, longlast: bool)
    requires params != [] && Middle(params[0]) && (|params| > 1 || !longlast)
    ensures var (rest, long) := ParseParams(Following(params[1..], longlast));
            ParseParams(Following(params, longlast)) == ([params[0]] + rest, long)
  {
    var p, tail := params[0], PrintParams(params[1..], longlast);
    assert PrintParams(params, longlast)[1..] == p + tail;
    hide Word, AfterWord, PrintParams;
    WordBeforeParams(p, params[1..], longlast);
    assert SkipSpaces(p + tail) == p + tail;
  }

  lemma WellFormedStep(params: seq<string>, longlast: bool)
    requires params != [] && (|params| > 1 || !longlast)
    ensures WellFormedParams(params, longlast) <==> Middle(params[0]) && WellFormedParams(params[1..], longlast)
  {
    var rest := params[1..];
    hide Middle;
    if Middle(params[0]) && WellFormedParams(rest, longlast) {
      forall i | 0 <= i < |params| && (i < |params| - 1 || !longlast) ensures Middle(params[i]) {
        if i > 0 { assert rest[i - 1] == params[i]; }
      }
    }
    if WellFormedParams(params, longlast) {
      forall i | 0 <= i < |rest| && (i < |rest| - 1 || !longlast) ensures Middle(rest[i]) {
        assert rest[i] == params[i + 1];
      }
    }
  }

  lemma LongAlone(p: string)
    ensures ParseParams(Following([p], true)) == ([p], true)
  {
    assert PrintParams([p], true)[1..] == ":" + p;
    assert (":" + p)[1..] == p;
  }

  lemma NotReadBack(params: seq<string>, longlast: bool)
    requires params != [] && !Middle(params[0]) && (|params| > 1 || !longlast)
    ensures ParseParams(Following(params, longlast)) != (params, longlast)
  {
    var p := params[0];
    var s := p + PrintParams(params[1..], longlast);
    assert PrintParams(params, longlast)[1..] == s;
    if s != "" && s[0] == ':' {
    } else if SkipSpaces(s) != "" {
      assert Word(SkipSpaces(s)) != "" && ' ' !in Word(SkipSpaces(s));
    }
  }

  /** Printed parameters are read back exactly when they are well formed. */
  lemma {:induction false} ParamsReadBack(params: seq<string>, longlast: bool)
    requires longlast ==> params != []
    ensures ParseParams(Following(params, longlast)) == (params, longlast) <==> WellFormedParams(params, longlast)
  {
    if params == [] {
    } else if |params| == 1 && longlast {
      LongAlone(params[0]);
      assert params == [params[0]];
    } else {
      hide ParseParams, Following, WellFormedParams, Middle;
      ParamsReadBack(params[1..], longlast);
      WellFormedStep(params, longlast);
      assert [params[0]] + params[1..] == params;
      if Middle(params[0]) { MiddleStep(params, longlast); } else { NotReadBack(params, longlast); }
    }
  }

  predicate IsLower(c: char) { 'a' <= c <= 'z' }

  predicate IsUpper(c: char) { 'A' <= c <= 'Z' }

  /** toupper takes the lower-case letters in order onto the upper-case ones, and leaves the rest alone. */
  lemma UpperExact()
    ensures forall c :: IsLower(c) ==> IsUpper(Upper(c))
    ensures forall c, d :: IsLower(c) && IsLower(d) && c < d ==> Upper(c) < Upper(d)
    ensures forall u :: IsUpper(u) ==> exists c :: IsLower(c) && Upper(c) == u
    ensures forall c :: !IsLower(c) ==> Upper(c) == c
  {
    forall u | IsUpper(u) ensures exists c :: IsLower(c) && Upper(c) == u {
      var c := (u as int + 32) as char;
      assert IsLower(c) && Upper(c) == u;
    }
  }

  lemma {:induction false} UpperAt(s: string)
    ensures |UpperAll(s)| == |s| && forall k :: 0 <= k < |s| ==> UpperAll(s)[k] == Upper(s[k])
  {
    if s != "" { UpperAt(s[1..]); }
  }

  lemma UpperTwice(s: string)
    ensures UpperAll(UpperAll(s)) == UpperAll(s) && |UpperAll(s)| == |s|
    ensures ' ' in UpperAll(s) <==> ' ' in s
    ensures s != "" ==> (UpperAll(s)[0] == ':' <==> s[0] == ':')
  {
    if s != "" { UpperTwice(s[1..]); }
  }

  /** The command and parameters are read back exactly when they are well formed. */
  lemma CommandReadsBack(prefix: Option<string>, cmd: string, params: seq<string>, longlast: bool)
    requires cmd != "" && ' ' !in cmd && (longlast ==> params != [])
    ensures ParseCommand(prefix, cmd + PrintParams(params, longlast)) == Msg(prefix, cmd, params, longlast) <==>
            UpperAll(cmd) == cmd && WellFormedParams(params, longlast)
  {
    WordBeforeParams(cmd, params, longlast);
    ParamsReadBack(params, longlast);
  }

  lemma {:induction false} LongLastNeedsParam(rest: Option<string>)
    ensures ParseParams(rest).1 ==> ParseParams(rest).0 != []
  {}

  /** What every parsed message satisfies, from whatever line. */
  lemma ParsedShape(line: string)
    requires Parse(line).Some?
    ensures var m := Parse(line).value;
            && (m.prefix.Some? ==> ' ' !in m.prefix.value)
            && m.cmd != "" && ' ' !in m.cmd && UpperAll(m.cmd) == m.cmd
            && (m.prefix.None? ==> m.cmd[0] != ':')
            && (m.longlast ==> m.params != [])
  {
    var t := SkipSpaces(line);
    var u := if t[0] == ':' then SkipSpaces(AfterWord(t).value) else t;
    UpperTwice(Word(u));
    LongLastNeedsParam(AfterWord(u));
  }

  /** Printing then parsing is the identity exactly on the well-formed messages. */
  lemma PrintThenParse(m: Msg)
    ensures Parse(PrintBody(m)) == Some(m) <==> WellFormed(m)
  {
    hide UpperAll, PrintParams, ParseParams, ParseCommand, WellFormedParams, Word;
    if Parse(PrintBody(m)) == Some(m) { ParsedShape(PrintBody(m)); }
    var tail := m.cmd + PrintParams(m.params, m.longlast);
    if m.cmd != "" && ' ' !in m.cmd && (m.longlast ==> m.params != []) && (m.prefix.Some? ==> ' ' !in m.prefix.value) {
      CommandReadsBack(m.prefix, m.cmd, m.params, m.longlast);
      assert SkipSpaces(tail) == tail;
      if m.prefix.Some? {
        WordOf(":" + m.prefix.value, tail);
        assert PrintBody(m) == ":" + m.prefix.value + " " + tail;
      } else {
        assert PrintBody(m) == tail;
      }
    }
  }

  /** As trim_space leaves a line: no space first, and no two in a row. */
  predicate Normal(line: string) {
    (line != "" ==> line[0] != ' ') && forall i :: 0 <= i < |line| - 1 ==> line[i] != ' ' || line[i + 1] != ' '
  }

  lemma NormalRest(line: string)
    requires Normal(line)
    ensures AfterWord(line).Some? ==> Normal(AfterWord(line).value)
  {
    var w := Word(line);
    if |w| < |line| {
      var r := line[|w| + 1..];
      forall i | 0 <= i < |r| - 1 ensures r[i] != ' ' || r[i + 1] != ' ' {
        assert r[i] == line[|w| + 1 + i];
      }
    }
  }

  lemma {:induction false} NormalParams(rest: Option<string>)
    requires rest.Some? ==> Normal(rest.value)
    ensures var (params, longlast) := ParseParams(rest); WellFormedParams(params, longlast)
    decreases if rest.Some? then |rest.value| + 1 else 0
  {
    if rest.Some? && rest.value != "" && rest.value[0] != ':' {
      var t := rest.value;
      NormalRest(t);
      NormalParams(AfterWord(t));
      var (params, longlast) := ParseParams(AfterWord(t));
      var w := Word(t);
      forall i | 0 <= i < |params| + 1 && (i < |params| || !longlast) ensures Middle(([w] + params)[i]) {
        if i > 0 { assert ([w] + params)[i] == params[i - 1]; }
      }
      LongLastNeedsParam(AfterWord(t));
    }
  }

  /** On normal lines, parsing what is printed gives the same message again. */
  lemma ParsePrintParse(line: string)
    requires Normal(line) && Parse(line).Some?
    ensures WellFormed(Parse(line).value)
    ensures Parse(PrintBody(Parse(line).value)) == Parse(line)
  {
    ParsedShape(line);
    if line[0] == ':' {
      NormalRest(line);
      var u := AfterWord(line).value;
      NormalRest(u);
      NormalParams(AfterWord(u));
    } else {
      NormalRest(line);
      NormalParams(AfterWord(line));
    }
    PrintThenParse(Parse(line).value);
  }

  // ---------- which lines survive ----------

  /** The first " :" in s has another space right before it. */
  predicate HidesColon(s: string) {
    if s == "" || " :" <= s then false
    else if "  :" <= s then true
    else HidesColon(s[1..])
  }

  /** What follows the command in a line, from the space behind it on. */
  function BehindCommand(line: string): string
    requires Parse(line).Some?
  {
    var t := SkipSpaces(line);
    var u := if t[0] == ':' then SkipSpaces(AfterWord(t).value) else t;
    u[|Word(u)|..]
  }

  lemma {:induction false} SpacesBeforeColon(v: string)
    requires v != "" && v[0] == ' '
    ensures var t := SkipSpaces(v); HidesColon(" " + v) <==> t != "" && (t[0] == ':' || HidesColon(" " + t))
  {
    var r := v[1..];
    assert (" " + v)[1..] == v && v == " " + r;
    if r == "" {
      assert !HidesColon(r);
      assert !HidesColon(v);
    } else if r[0] == ' ' {
      SpacesBeforeColon(r);
    }
  }

  lemma {:induction false} WordBeforeColon(t: string)
    requires t != "" && t[0] != ' '
    ensures HidesColon(t) <==> AfterWord(t).Some? && HidesColon(" " + AfterWord(t).value)
  {
    var r := t[1..];
    if r == "" {
    } else if r[0] == ' ' {
      assert r == " " + r[1..] && AfterWord(t) == Some(r[1..]);
    } else {
      WordBeforeColon(r);
      assert AfterWord(t) == AfterWord(r);
    }
  }

  /** A word that starts with no colon hides none either. */
  lemma OneWordOn(t: string)
    requires t != "" && t[0] != ' ' && t[0] != ':'
    ensures HidesColon(" " + t) <==> AfterWord(t).Some? && HidesColon(" " + AfterWord(t).value)
  {
    hide AfterWord;
    assert (" " + t)[1..] == t;
    WordBeforeColon(t);
  }

  lemma ParamBefore(w: string, params: seq<string>, longlast: bool)
    requires w != "" && ' ' !in w && (longlast ==> params != [])
    ensures WellFormedParams([w] + params, longlast) <==> w[0] != ':' && WellFormedParams(params, longlast)
  {
    WellFormedStep([w] + params, longlast);
    assert ([w] + params)[1..] == params;
  }

  lemma WordStarts(t: string)
    requires t != "" && t[0] != ' '
    ensures Word(t) != "" && ' ' !in Word(t) && Word(t)[0] == t[0]
    ensures AfterWord(t).Some? ==> |AfterWord(t).value| < |t|
  {}

  lemma NothingHidden(rest: Option<string>)
    requires rest.None? || rest.value == "" || rest.value[0] == ':'
    ensures rest.Some? ==> !HidesColon(" " + rest.value)
    ensures var (params, longlast) := ParseParams(rest); WellFormedParams(params, longlast)
  {
    if rest.Some? && rest.value == "" { assert " "[1..] == ""; }
  }

  /** The parameters that are read are well formed exactly when their text hides no colon. */
  lemma {:induction false} ParamsHideNoColon(rest: Option<string>)
    ensures var (params, longlast) := ParseParams(rest);
            WellFormedParams(params, longlast) <==> rest.None? || !HidesColon(" " + rest.value)
    decreases if rest.Some? then |rest.value| + 1 else 0
  {
    hide HidesColon, Word, AfterWord, WellFormedParams;
    if rest.None? || rest.value == "" || rest.value[0] == ':' {
      NothingHidden(rest);
    } else {
      var v := rest.value;
      var t := SkipSpaces(v);
      if v[0] == ' ' { SpacesBeforeColon(v); }
      if t == "" {
        NothingHidden(None);
      } else {
        ParamsHideNoColon(AfterWord(t));
        LongLastNeedsParam(AfterWord(t));
        var (params, longlast) := ParseParams(AfterWord(t));
        ParamBefore(Word(t), params, longlast);
        WordStarts(t);
        if t[0] != ':' { OneWordOn(t); }
      }
    }
  }

  lemma BehindWord(u: string)
    ensures |Word(u)| <= |u|
    ensures u[|Word(u)|..] == if AfterWord(u).None? then "" else " " + AfterWord(u).value
    ensures !HidesColon("")
  {}

  /** A line survives parsing, printing and parsing again exactly when no second space stands before the
      colon that would mark its long parameter. */
  lemma RoundTripExact(line: string)
    requires Parse(line).Some?
    ensures Parse(PrintBody(Parse(line).value)) == Parse(line) <==> !HidesColon(BehindCommand(line))
  {
    hide HidesColon, UpperAll, ParseParams, WellFormedParams, PrintBody, Word, AfterWord, SkipSpaces;
    var t := SkipSpaces(line);
    var u := if t[0] == ':' then SkipSpaces(AfterWord(t).value) else t;
    ParsedShape(line);
    PrintThenParse(Parse(line).value);
    ParamsHideNoColon(AfterWord(u));
    BehindWord(u);
  }

  /** With two spaces before it, a colon is part of a parameter, and printing loses that. */
  lemma DoubleSpaceLosesColon()
    ensures var m := Msg(None, "A", [":b"], false);
            Parse("a  :b") == Some(m) && Parse(PrintBody(m)) == Some(Msg(None, "A", ["b"], true))
  {
    WordOf("a", " :b");
    assert "a" + " " + " :b" == "a  :b";
    assert "a"[1..] == "" && "a" == ['a'];
    assert UpperAll("a") == "A";
    assert SkipSpaces(" :b") == ":b" by { assert " :b"[1..] == ":b"; }
    WordOf(":b", "");
    var m := Msg(None, "A", [":b"], false);
    assert AfterWord("a  :b") == Some(" :b") && Word("a  :b") == "a";
    assert ParseParams(Some(" :b")) == ([":b"], false) by {
      assert ParseParams(AfterWord(":b")) == ([], false);
      assert [":b"] + [] == [":b"];
    }
    assert Parse("a  :b") == Some(m);
    assert m.params[1..] == [];
    assert PrintParams(m.params, false) == " " + ":b";
    assert PrintBody(m) == "A" + " " + ":b";
    WordOf("A", ":b");
    assert UpperAll("A") == "A" by { assert "A"[1..] == ""; }
    assert ":b"[1..] == "b";
  }
}
