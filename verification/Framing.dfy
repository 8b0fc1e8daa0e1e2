/** Cutting the byte stream of a connection into commands, as subthread_work of main.c does. */
module Framing {
  import opened Message
  import opened Options
  import opened Sequences

  // ---------- what is computed ----------

  /** trim_space: words separated by single spaces; spaces in front go, behind the last word one stays. */
  function Squeeze(s: string): string
    decreases |s|
  {
    var t := SkipSpaces(s);
    if t == "" then ""
    else if AfterWord(t).None? then Word(t)
    else Word(t) + " " + Squeeze(AfterWord(t).value)
  }

  /** Where "\r\n" first occurs, as strstr finds it: before any NUL. Otherwise -1. */
  function Crlf(s: string): (k: int)
    ensures -1 <= k && (k >= 0 ==> k + 2 <= |s| && s[k] == '\r' && s[k + 1] == '\n')
  {
    if |s| < 2 || s[0] == NUL then -1
    else if s[0] == '\r' && s[1] == '\n' then 0
    else if Crlf(s[1..]) < 0 then -1
    else Crlf(s[1..]) + 1
  }

  /** The CRLF-terminated lines of a stream. */
  function Lines(s: string): seq<string>
    decreases |s|
  {
    if Crlf(s) < 0 then [] else [s[..Crlf(s) + 2]] + Lines(s[Crlf(s) + 2..])
  }

  /** What is left behind the last line. */
  function Tail(s: string): string
    decreases |s|
  {
    if Crlf(s) < 0 then s else Tail(s[Crlf(s) + 2..])
  }

  /** What one line hands to the parser: nothing if it is blank. */
  function Command(line: string): seq<string> { if |Squeeze(line)| <= 2 then [] else [Squeeze(line)] }

  /** The commands handed to the parser: lines normalised, blank ones dropped. */
  function Commands(lines: seq<string>): seq<string> {
    if lines == [] then [] else Command(lines[0]) + Commands(lines[1..])
  }

  // ---------- laws of Crlf ----------

  predicate CrlfAt(s: string, x: int) {
    0 <= x && x + 1 < |s| && s[x] == '\r' && s[x + 1] == '\n' && NUL !in s[..x]
  }

  lemma {:induction false} CrlfIsFirst(s: string)
    ensures Crlf(s) >= 0 ==> CrlfAt(s, Crlf(s))
    ensures forall x :: CrlfAt(s, x) ==> 0 <= Crlf(s) <= x
  {
    if |s| >= 2 && s[0] != NUL && !(s[0] == '\r' && s[1] == '\n') {
      CrlfIsFirst(s[1..]);
      forall x ensures CrlfAt(s, x) <==> x > 0 && CrlfAt(s[1..], x - 1) {
        if 0 < x <= |s| { assert s[..x] == [s[0]] + s[1..][..x - 1]; }
      }
    }
  }

  lemma CrlfUnique(s: string, k: int)
    requires k == -1 || CrlfAt(s, k)
    requires forall x :: CrlfAt(s, x) ==> 0 <= k <= x
    ensures Crlf(s) == k
  {
    CrlfIsFirst(s);
  }

  /** s ends in CRLF and holds no other. */
  predicate IsLine(s: string) { |s| >= 2 && Crlf(s) == |s| - 2 }

  /** What follows a CRLF does not matter for finding it. */
  lemma {:induction false} CrlfStays(s: string, more: string)
    requires Crlf(s) >= 0
    ensures Crlf(s + more) == Crlf(s)
  {
    assert (s + more)[1..] == s[1..] + more;
    if Crlf(s) == 0 {
    } else {
      CrlfStays(s[1..], more);
    }
  }

  /** Cut behind its first CRLF, a string is a line without NULs. */
  lemma {:induction false} FirstLine(s: string)
    requires Crlf(s) >= 0
    ensures IsLine(s[..Crlf(s) + 2]) && NUL !in s[..Crlf(s) + 2]
  {
    var k := Crlf(s);
    var line := s[..k + 2];
    if k == 0 {
      assert line == ['\r', '\n'];
    } else {
      FirstLine(s[1..]);
      assert line[1..] == s[1..][..k + 1] && line == [s[0]] + line[1..];
    }
  }

  lemma LineHasNoNul(line: string)
    requires IsLine(line)
    ensures NUL !in line
  {
    FirstLine(line);
    assert line[..|line|] == line;
  }

  lemma LinesStep(s: string, k: int)
    requires k == Crlf(s) >= 0
    ensures Lines(s) == [s[..k + 2]] + Lines(s[k + 2..])
  {
    hide Crlf, Tail;
  }

  lemma TailStep(s: string, k: int)
    requires k == Crlf(s) >= 0
    ensures Tail(s) == Tail(s[k + 2..])
  {
    hide Crlf, Lines;
  }

  lemma NoLines(s: string)
    requires Crlf(s) < 0
    ensures Lines(s) == [] && Tail(s) == s && Concat([]) + s == s && Crlf(s) == -1
  {}

  lemma ConcatStep(line: string, lines: seq<string>)
    ensures Concat([line] + lines) == line + Concat(lines)
  {
    assert ([line] + lines)[1..] == lines;
  }

  /** A stream is its lines and its tail; a line holds its CRLF only at the end, and the tail holds none. */
  lemma {:induction false} LinesAndTail(s: string)
    ensures Concat(Lines(s)) + Tail(s) == s
    ensures forall i :: 0 <= i < |Lines(s)| ==> IsLine(Lines(s)[i])
    ensures Crlf(Tail(s)) == -1
    decreases |s|
  {
    hide Crlf, Lines, Tail, Concat;
    var k := Crlf(s);
    if k >= 0 {
      LinesStep(s, k);
      TailStep(s, k);
      var line, rest := s[..k + 2], s[k + 2..];
      LinesAndTail(rest);
      FirstLine(s);
      ConcatStep(line, Lines(rest));
      Associative(line, Concat(Lines(rest)), Tail(rest));
      assert s == line + rest;
    } else {
      NoLines(s);
    }
  }

  /** There is no other way to cut a stream into lines and a tail. */
  lemma {:induction false} LinesUnique(lines: seq<string>, tail: string)
    requires (forall i :: 0 <= i < |lines| ==> IsLine(lines[i])) && Crlf(tail) < 0
    ensures Lines(Concat(lines) + tail) == lines && Tail(Concat(lines) + tail) == tail
  {
    hide Crlf;
    var s := Concat(lines) + tail;
    if lines == [] {
      assert s == tail;
    } else {
      var line, rest := lines[0], Concat(lines[1..]) + tail;
      LinesUnique(lines[1..], tail);
      assert s == line + rest;
      CrlfStays(line, rest);
      assert s[..|line|] == line && s[|line|..] == rest;
      assert [line] + lines[1..] == lines;
    }
  }

  /** Reading a and then b gives the lines of a, then those of what a left over followed by b. */
  lemma {:induction false} LinesOfTwoReads(a: string, b: string)
    ensures Lines(a + b) == Lines(a) + Lines(Tail(a) + b)
    ensures Tail(a + b) == Tail(Tail(a) + b)
    decreases |a|
  {
    hide Crlf;
    var k := Crlf(a);
    if k >= 0 {
      var line, rest := a[..k + 2], a[k + 2..];
      CrlfStays(a, b);
      assert (a + b)[..k + 2] == line && (a + b)[k + 2..] == rest + b;
      LinesOfTwoReads(rest, b);
      Associative([line], Lines(rest), Lines(Tail(rest) + b));
    }
  }

  lemma {:induction false} CommandsOfTwo(l1: seq<string>, l2: seq<string>)
    ensures Commands(l1 + l2) == Commands(l1) + Commands(l2)
  {
    hide Command;
    if l1 == [] {
      assert l1 + l2 == l2;
    } else {
      CommandsOfTwo(l1[1..], l2);
      assert (l1 + l2)[1..] == l1[1..] + l2;
      Associative(Command(l1[0]), Commands(l1[1..]), Commands(l2));
    }
  }

  // ---------- laws of Squeeze ----------

  /** A squeezed line is normal in the sense of the message parser. */
  lemma {:induction false} SqueezeNormal(s: string)
    ensures Normal(Squeeze(s))
    decreases |s|
  {
    var t := SkipSpaces(s);
    if t != "" && AfterWord(t).Some? {
      SqueezeNormal(AfterWord(t).value);
      var w, r := Word(t), Squeeze(AfterWord(t).value);
      var c := w + " " + r;
      forall i | 0 <= i < |c| - 1 ensures c[i] != ' ' || c[i + 1] != ' ' {
        if i > |w| { assert c[i] == r[i - |w| - 1]; }
      }
    }
  }

  function NonSpace(c: char): string { if c == ' ' then "" else [c] }

  function NonSpaces(s: string): string {
    if s == "" then "" else NonSpace(s[0]) + NonSpaces(s[1..])
  }

  lemma {:induction false} NonSpacesOfTwo(a: string, b: string)
    ensures NonSpaces(a + b) == NonSpaces(a) + NonSpaces(b)
  {
    hide NonSpace;
    if a == "" {
      assert a + b == b;
    } else {
      NonSpacesOfTwo(a[1..], b);
      assert (a + b)[1..] == a[1..] + b;
      Associative(NonSpace(a[0]), NonSpaces(a[1..]), NonSpaces(b));
    }
  }

  lemma {:induction false} NonSpacesSame(a: string)
    requires ' ' !in a
    ensures NonSpaces(a) == a
  {
    if a == "" {
    } else {
      NonSpacesSame(a[1..]);
    }
  }

  lemma NonSpacesJoin(w: string, r: string)
    ensures NonSpaces(w + " " + r) == NonSpaces(w) + NonSpaces(r)
  {
    NonSpacesOfTwo(w + " ", r);
    NonSpacesOfTwo(w, " ");
    assert " "[1..] == "";
    assert NonSpaces(w + " ") == NonSpaces(w);
  }

  lemma {:induction false} NonSpacesOfSkip(s: string)
    ensures NonSpaces(SkipSpaces(s)) == NonSpaces(s)
  {
    if s != "" && s[0] == ' ' { NonSpacesOfSkip(s[1..]); }
  }

  /** Nothing but spaces is added or lost. */
  lemma {:induction false} SqueezeKeepsNonSpaces(s: string)
    ensures NonSpaces(Squeeze(s)) == NonSpaces(s)
    decreases |s|
  {
    var t := SkipSpaces(s);
    NonSpacesOfSkip(s);
    if t == "" {
    } else {
      var w := Word(t);
      if AfterWord(t).None? {
        assert w == t;
      } else {
        var r := AfterWord(t).value;
        SqueezeKeepsNonSpaces(r);
        assert t == w + " " + r;
        NonSpacesJoin(w, r);
        NonSpacesJoin(w, Squeeze(r));
      }
    }
  }

  /** Where the CRLF is behind a word and a space depends on what follows them alone. */
  lemma {:induction false} CrlfBehind(w: string, r: string, d: string)
    requires Crlf(w + " " + r) > |w|
    ensures Crlf(w + " " + d) == if Crlf(d) < 0 then -1 else |w| + 1 + Crlf(d)
  {
    var s, t := w + " " + r, w + " " + d;
    if w == "" {
      assert t[1..] == d;
    } else {
      assert s[1..] == w[1..] + " " + r && t[1..] == w[1..] + " " + d;
      assert s[0] == t[0] && s[1] == t[1];
      CrlfBehind(w[1..], r, d);
    }
  }

  /** What trim_space makes of the next character. */
  lemma SqueezeStep(s: string)
    requires s != ""
    ensures s[0] == ' ' ==> Squeeze(s) == Squeeze(s[1..])
    ensures s[0] != ' ' ==>
              Squeeze(s) == Word(s) + if AfterWord(s).None? then "" else " " + Squeeze(AfterWord(s).value)
  {
    hide Word, AfterWord;
    if s[0] != ' ' { assert SkipSpaces(s) == s; }
  }

  lemma WordSplits(s: string)
    ensures s == Word(s) + if AfterWord(s).None? then "" else " " + AfterWord(s).value
    ensures AfterWord(s).Some? ==> s[|Word(s)|] == ' '
  {
    hide Word;
    var n := |Word(s)|;
    assert n < |s| ==> s == s[..n] + [s[n]] + s[n + 1..];
  }

  lemma LineBehindSpace(s: string)
    requires IsLine(s) && s[0] == ' '
    ensures IsLine(s[1..])
  {}

  lemma {:induction false} SqueezeIsLine(s: string)
    requires IsLine(s)
    ensures IsLine(Squeeze(s))
    decreases |s|
  {
    hide Crlf, Squeeze, Word, AfterWord;
    SqueezeStep(s);
    WordSplits(s);
    if s[0] == ' ' {
      LineBehindSpace(s);
      SqueezeIsLine(s[1..]);
    } else if AfterWord(s).Some? {
      var w, r := Word(s), AfterWord(s).value;
      assert s == w + " " + r;
      CrlfBehind(w, r, r);
      SqueezeIsLine(r);
      CrlfBehind(w, r, Squeeze(r));
      Associative(w, " ", Squeeze(r));
    } else {
      assert Squeeze(s) == s;
    }
  }

  lemma NormalStart(c: string)
    requires Normal(c) && |c| >= 2
    ensures Normal(c[..|c| - 2]) && (|c| > 2 ==> c[0] != ' ')
  {}

  lemma FirstIsKept(s: string)
    requires s != "" && s[0] != ' '
    ensures NonSpaces(s) != ""
  {}

  lemma NonSpacesOfLine(c: string)
    requires |c| >= 2 && c[|c| - 2] == '\r' && c[|c| - 1] == '\n' && (|c| > 2 ==> c[0] != ' ')
    ensures |c| == 2 <==> NonSpaces(c) == "\r\n"
  {
    var body := c[..|c| - 2];
    assert c == body + "\r\n";
    NonSpacesOfTwo(body, "\r\n");
    NonSpacesSame("\r\n");
    if body != "" { FirstIsKept(body); }
  }

  /** A squeezed line is a line, its content is normal, and it is blank exactly when the line was. */
  lemma SqueezedLine(line: string)
    requires IsLine(line)
    ensures IsLine(Squeeze(line))
    ensures Normal(Squeeze(line)[..|Squeeze(line)| - 2])
    ensures |Squeeze(line)| <= 2 <==> NonSpaces(line) == "\r\n"
  {
    hide Crlf, Squeeze, Normal, NonSpaces;
    SqueezeIsLine(line);
    var c := Squeeze(line);
    SqueezeNormal(line);
    SqueezeKeepsNonSpaces(line);
    NormalStart(c);
    NonSpacesOfLine(c);
  }

  /** A command, as the parser gets it: a C string whose text is normal, and survives printing and parsing again. */
  ghost predicate Settled(c: string) {
    && |c| > 2 && IsLine(c) && NUL !in c && Normal(c[..|c| - 2])
    && var m := Parse(c[..|c| - 2]);
       m.Some? ==> WellFormed(m.value) && Parse(PrintBody(m.value)) == m
  }

  lemma SettledLine(line: string)
    requires IsLine(line)
    ensures |Squeeze(line)| > 2 ==> Settled(Squeeze(line))
  {
    hide Squeeze, Parse, PrintBody, WellFormed, Normal;
    SqueezedLine(line);
    var c := Squeeze(line);
    if |c| > 2 { LineHasNoNul(c); }
    if |c| > 2 && Parse(c[..|c| - 2]).Some? { ParsePrintParse(c[..|c| - 2]); }
  }

  lemma {:induction false} LinesSettled(lines: seq<string>)
    requires forall i :: 0 <= i < |lines| ==> IsLine(lines[i])
    ensures forall i :: 0 <= i < |Commands(lines)| ==> Settled(Commands(lines)[i])
  {
    hide Settled, Squeeze;
    if lines == [] {
    } else {
      LinesSettled(lines[1..]);
      SettledLine(lines[0]);
    }
  }

  /** Whatever the stream, every command that comes out of it is settled. */
  lemma CommandsSettled(s: string)
    ensures forall i :: 0 <= i < |Commands(Lines(s))| ==> Settled(Commands(Lines(s))[i])
  {
    LinesAndTail(s);
    LinesSettled(Lines(s));
  }

  lemma {:induction false} NulStopsCrlf(s: string, more: string)
    requires NUL in s && Crlf(s) < 0
    ensures Crlf(s + more) < 0
  {
    assert (s + more)[1..] == s[1..] + more;
    if s[0] != NUL { NulStopsCrlf(s[1..], more); }
  }

  /** With a NUL in front of it, no later CRLF is found: such a stream gives no more commands. */
  lemma NulEndsStream(s: string, more: string)
    requires NUL in s && Crlf(s) < 0
    ensures Lines(s + more) == [] && Tail(s + more) == s + more
  {
    NulStopsCrlf(s, more);
  }

  lemma NormalBehind(w: string, r: string)
    requires w != "" && ' ' !in w
    ensures Normal(w + " " + r) <==> Normal(r)
  {
    var c, n := w + " " + r, |w| + 1;
    assert forall i :: n <= i < |c| ==> c[i] == r[i - n];
    if Normal(r) {
      forall i | 0 <= i < |c| - 1 ensures c[i] != ' ' || c[i + 1] != ' ' {
        if i >= n { assert c[i] == r[i - n]; }
      }
    }
    if Normal(c) {
      forall i | 0 <= i < |r| - 1 ensures r[i] != ' ' || r[i + 1] != ' ' {
        assert r[i] == c[i + n] && r[i + 1] == c[i + n + 1];
      }
      assert r != "" ==> c[n - 1] == ' ' && c[n] == r[0];
    }
  }

  lemma NothingNormal()
    ensures Squeeze("") == "" && Normal("")
  {}

  lemma SpaceNotNormal(s: string)
    requires s != "" && s[0] == ' '
    ensures !Normal(s)
  {}

  lemma WordNormal(s: string)
    requires s != "" && s[0] != ' ' && AfterWord(s).None?
    ensures Normal(s) && Word(s) == s
  {}

  /** Normalising never lengthens a line, and shortens it unless it is normal. */
  lemma {:induction false} SqueezeLength(s: string)
    ensures |Squeeze(s)| <= |s| && (|Squeeze(s)| == |s| <==> Normal(s))
    decreases |s|
  {
    hide Squeeze, Word, AfterWord, Normal;
    if s == "" {
      NothingNormal();
    } else {
      SqueezeStep(s);
      WordSplits(s);
      if s[0] == ' ' {
        SqueezeLength(s[1..]);
        SpaceNotNormal(s);
      } else if AfterWord(s).Some? {
        var w, r := Word(s), AfterWord(s).value;
        assert s == w + " " + r;
        WordStarts(s);
        SqueezeLength(r);
        NormalBehind(w, r);
      } else {
        WordNormal(s);
      }
    }
  }

  // ---------- bytes behind a NUL ----------

  /** A CRLF, whether or not a NUL stands in front of it. */
  predicate BareCrlf(s: string, x: int) { 0 <= x && x + 1 < |s| && s[x] == '\r' && s[x + 1] == '\n' }

  ghost predicate HasCrlf(s: string) { exists x :: BareCrlf(s, x) }

  ghost predicate HasHiddenCrlf(s: string) { exists x :: BareCrlf(s, x) && NUL in s[..x] }

  lemma NoneButHidden(s: string)
    requires Crlf(s) < 0
    ensures HasCrlf(s) <==> HasHiddenCrlf(s)
  {
    CrlfIsFirst(s);
    if x :| BareCrlf(s, x) {
      assert !CrlfAt(s, x);
      assert BareCrlf(s, x) && NUL in s[..x];
    }
  }

  lemma PrefixOfTwo(a: string, b: string, x: nat)
    requires x <= |a| + |b|
    ensures (a + b)[..x] == if x <= |a| then a[..x] else a + b[..x - |a|]
  {}

  lemma HiddenBehindLine(line: string, rest: string)
    requires IsLine(line)
    ensures HasHiddenCrlf(line + rest) <==> HasHiddenCrlf(rest)
  {
    var s, n := line + rest, |line|;
    LineHasNoNul(line);
    if x :| BareCrlf(s, x) && NUL in s[..x] {
      PrefixOfTwo(line, rest, x);
      assert BareCrlf(rest, x - n);
    }
    if x :| BareCrlf(rest, x) && NUL in rest[..x] {
      assert s[..x + n] == line + rest[..x];
      assert BareCrlf(s, x + n);
    }
  }

  /** What stays behind holds a CRLF exactly when the stream has one behind a NUL. */
  lemma {:induction false} TailKeepsHidden(s: string)
    ensures HasCrlf(Tail(s)) <==> HasHiddenCrlf(s)
    decreases |s|
  {
    hide Crlf, HasCrlf, HasHiddenCrlf;
    if Crlf(s) < 0 {
      NoneButHidden(s);
    } else {
      var line, rest := s[..Crlf(s) + 2], s[Crlf(s) + 2..];
      FirstLine(s);
      HiddenBehindLine(line, rest);
      assert s == line + rest;
      TailKeepsHidden(rest);
    }
  }

  // ---------- whole streams ----------

  const READ_SIZE: nat := 1024

  /** strstr stays within a full buffer only if it meets a CRLF or a NUL there. */
  predicate Stops(s: string) { Crlf(s) >= 0 || NUL in s }

  /** A command is handed on as a C string, so it must leave room for a NUL. */
  predicate FirstFits(s: string) { Crlf(s) >= 0 ==> |Squeeze(s[..Crlf(s) + 2])| < READ_SIZE }

  /** A read has room behind the pending bytes; if it fills the buffer, strstr stops in it, and its first
      line leaves room for a NUL once it is normalised. */
  predicate Readable(pending: string, chunk: string) {
    var s := pending + chunk;
    |s| < READ_SIZE || (|s| == READ_SIZE && Stops(s) && FirstFits(s))
  }

  /** Only a read that fills the buffer with one normal line leaves no such room. */
  lemma FirstFitsExact(s: string)
    requires |s| <= READ_SIZE
    ensures FirstFits(s) <==> !(|s| == READ_SIZE && IsLine(s) && Normal(s))
  {
    if Crlf(s) >= 0 {
      var line := s[..Crlf(s) + 2];
      SqueezeLength(line);
      if |line| == |s| { assert line == s; }
    }
  }

  predicate Fits(pending: string, chunks: seq<string>)
    decreases |chunks|
  {
    chunks == [] || (Readable(pending, chunks[0]) && Fits(Tail(pending + chunks[0]), chunks[1..]))
  }

  /** The commands that come out read by read. */
  function CommandsByReads(pending: string, chunks: seq<string>): seq<string>
    decreases |chunks|
  {
    if chunks == [] then []
    else Commands(Lines(pending + chunks[0])) + CommandsByReads(Tail(pending + chunks[0]), chunks[1..])
  }

  function TailByReads(pending: string, chunks: seq<string>): string
    decreases |chunks|
  {
    if chunks == [] then pending else TailByReads(Tail(pending + chunks[0]), chunks[1..])
  }

  lemma Joined(pending: string, chunks: seq<string>)
    requires chunks != []
    ensures pending + Concat(chunks) == (pending + chunks[0]) + Concat(chunks[1..])
  {}

  lemma NoLine(s: string)
    requires Crlf(s) < 0
    ensures Lines(s) == [] && Commands(Lines(s)) == [] && Tail(s) == s
  {}

  /** However a stream is cut into reads, the commands are those of the whole stream. */
  lemma {:induction false} ReadsDoNotMatter(pending: string, chunks: seq<string>)
    requires Crlf(pending) < 0
    ensures CommandsByReads(pending, chunks) == Commands(Lines(pending + Concat(chunks)))
    ensures TailByReads(pending, chunks) == Tail(pending + Concat(chunks))
    decreases |chunks|
  {
    hide Crlf, Lines, Tail, Commands;
    if chunks == [] {
      assert Concat(chunks) == "" && pending + "" == pending;
      NoLine(pending);
    } else {
      var s, rest, last := pending + chunks[0], Concat(chunks[1..]), chunks[1..];
      LinesAndTail(s);
      ReadsDoNotMatter(Tail(s), last);
      LinesOfTwoReads(s, rest);
      CommandsOfTwo(Lines(s), Lines(Tail(s) + rest));
      Joined(pending, chunks);
      assert pending + Concat(chunks) == s + rest;
    }
  }
}
