/** The receive loop of main.c: trim_space, and the buffer that subthread_work reads into. */
module FramingLoop {
  import opened Framing
  import opened Message
  import opened Options
  import opened Sequences

  lemma WordOfRange(s: string, i: nat, j: nat, len: nat)
    requires i <= j <= len <= |s| && (forall x :: i <= x < j ==> s[x] != ' ') && (j < len ==> s[j] == ' ')
    ensures Word(s[i..len]) == s[i..j]
    ensures AfterWord(s[i..len]) == if j < len then Some(s[j + 1..len]) else None
  {
    var t := s[i..len];
    assert t[..j - i] == s[i..j];
    WordIs(t, j - i);
    assert j < len ==> t[j - i + 1..] == s[j + 1..len];
  }

  /** The inner copying loop of trim_space. */
  method CopyWord(src: array<char>, len: nat, i: nat, out: array<char>, idx0: nat) returns (j: nat, idx: nat)
    requires src != out && i < len <= src.Length && src[i] != ' ' && idx0 <= i && len <= out.Length
    modifies out
    ensures i < j <= len && idx == idx0 + (j - i)
    ensures src[i..j] == Word(src[i..len]) && AfterWord(src[i..len]) == if j < len then Some(src[j + 1..len]) else None
    ensures out[..idx] == old(out[..idx0]) + Word(src[i..len])
    ensures forall x :: idx <= x < out.Length ==> out[x] == old(out[x])
  {
    hide Word, AfterWord;
    j, idx := i, idx0;
    while j < len && src[j] != ' '
      invariant i <= j <= len && idx == idx0 + (j - i)
      invariant forall x :: i <= x < j ==> src[x] != ' '
      invariant out[..idx] == old(out[..idx0]) + src[i..j]
      invariant forall x :: idx <= x < out.Length ==> out[x] == old(out[x])
    {
      out[idx] := src[j];
      idx := idx + 1;
      j := j + 1;
      assert src[i..j] == src[i..j - 1] + [src[j - 1]];
    }
    WordOfRange(src[..], i, j, len);
  }

  /** What trim_space has still to read. */
  ghost function Unread(src: string, i: nat): string { if i <= |src| then src[i..] else "" }

  lemma SpaceSkipped(s: string, i: nat)
    requires i < |s|
    ensures s[i] == ' ' ==> Squeeze(s[i..]) == Squeeze(Unread(s, i + 1))
  {
    hide Squeeze;
    SqueezeStep(s[i..]);
    assert s[i..][1..] == Unread(s, i + 1);
  }

  lemma SqueezeNothing()
    ensures Squeeze("") == ""
  {}

  /** From a word at i0 that ends at i: the word, a space if anything follows it, and the rest squeezed. */
  lemma SqueezeWord(s: string, i0: nat, i: nat, done: string)
    requires i0 < i <= |s| && s[i0] != ' ' && s[i0..i] == Word(s[i0..])
    requires AfterWord(s[i0..]) == if i < |s| then Some(s[i + 1..]) else None
    ensures done + Squeeze(s[i0..]) ==
            done + Word(s[i0..]) + (if i < |s| then " " else "") + Squeeze(Unread(s, i + 1))
  {
    hide Squeeze, Word, AfterWord;
    SqueezeStep(s[i0..]);
    SqueezeNothing();
  }

  /** The outer loop body of trim_space at a word. */
  method CopyWordAndSpace(src: array<char>, len: nat, i0: nat, out: array<char>, idx0: nat) returns (i: nat, idx: nat)
    requires src != out && i0 < len <= src.Length && src[i0] != ' ' && idx0 <= i0 && len <= out.Length
    modifies out
    ensures i0 < i <= len && idx0 < idx <= len && idx <= i + 1
    ensures out[..idx] + Squeeze(Unread(src[..len], i + 1)) == old(out[..idx0]) + Squeeze(src[i0..len])
    ensures forall x :: idx <= x < out.Length ==> out[x] == old(out[x])
  {
    hide Squeeze, Word, AfterWord;
    i, idx := CopyWord(src, len, i0, out, idx0);
    assert src[..len][i0..] == src[i0..len] && (i < len ==> src[..len][i + 1..] == src[i + 1..len]);
    SqueezeWord(src[..len], i0, i, old(out[..idx0]));
    ghost var before := out[..idx];
    if i < len {
      out[idx] := ' ';
      idx := idx + 1;
      assert out[..idx] == before + " ";
    }
  }

  /** Makes the last two characters a CRLF. */
  method EndLine(out: array<char>, idx: nat)
    requires 2 <= idx <= out.Length
    modifies out
    ensures out[..idx] == old(out[..idx])[..idx - 2] + "\r\n"
    ensures forall x :: idx <= x < out.Length ==> out[x] == old(out[x])
  {
    ghost var body := out[..idx - 2];
    out[idx - 1] := '\n';
    out[idx - 2] := '\r';
    assert out[..idx] == body + "\r\n";
  }

  /** trim_space. */
  method TrimSpace(src: array<char>, len: nat, out: array<char>) returns (idx: nat)
    requires src != out && len <= src.Length && len <= out.Length
    requires |Squeeze(src[..len])| >= 2
    modifies out
    ensures idx == |Squeeze(src[..len])| <= len
    ensures out[..idx] == Squeeze(src[..len])[..idx - 2] + "\r\n"
    ensures forall x :: idx <= x < out.Length ==> out[x] == old(out[x])
  {
    hide Squeeze;
    idx := 0;
    var i := 0;
    ghost var s := src[..len];
    assert Unread(s, 0) == s;
    SqueezeNothing();
    while i < len
      invariant idx <= i && idx <= len && i <= len + 1 && s == src[..len]
      invariant out[..idx] + Squeeze(Unread(s, i)) == Squeeze(s)
      invariant forall x :: idx <= x < out.Length ==> out[x] == old(out[x])
    {
      SpaceSkipped(s, i);
      if ' ' != src[i] {
        assert src[i..len] == Unread(s, i);
        i, idx := CopyWordAndSpace(src, len, i, out, idx);
      }
      i := i + 1;
    }
    assert Unread(s, i) == "";
    assert out[..idx] == Squeeze(s);
    EndLine(out, idx);
  }

  lemma NoneBehindNul(s: string, p: nat)
    requires p <= |s| && (p < |s| ==> s[p] == NUL) && forall x :: 0 <= x < p ==> !CrlfAt(s, x)
    ensures Crlf(s) == -1
  {
    forall x ensures !CrlfAt(s, x) {
      assert p < x <= |s| ==> s[..x][p] == s[p];
    }
    CrlfUnique(s, -1);
  }

  /** strstr(buf, "\r\n"), of n characters with a NUL behind them, or of a full buffer in which it stops. */
  method FindCrlf(buf: array<char>, ghost n: nat) returns (found: bool, p: nat)
    requires n <= buf.Length && if n < buf.Length then buf[n] == NUL else Stops(buf[..n])
    ensures found <==> Crlf(buf[..n]) >= 0
    ensures found ==> p == Crlf(buf[..n])
  {
    ghost var s := buf[..n];
    assert forall x :: 0 <= x < n ==> buf[x] == s[x];
    CrlfIsFirst(s);
    p := 0;
    while buf[p] != NUL
      invariant p <= n && NUL !in s[..p] && forall x :: 0 <= x < p ==> !CrlfAt(s, x)
      invariant p < buf.Length
      decreases n - p
    {
      if buf[p] == '\r' && buf[p + 1] == '\n' {
        assert CrlfAt(s, p);
        CrlfUnique(s, p);
        return true, p;
      }
      assert s[..p + 1] == s[..p] + [s[p]];
      p := p + 1;
    }
    NoneBehindNul(s, p);
    found := false;
  }

  lemma EndsInCrlf(c: string)
    requires IsLine(c)
    ensures c[..|c| - 2] + "\r\n" == c
  {
    CrlfIsFirst(c);
  }

  lemma SqueezedCString(line: string)
    requires IsLine(line)
    ensures var c := Squeeze(line);
            IsLine(c) && c[..|c| - 2] + "\r\n" == c
  {
    hide Squeeze, Crlf, NonSpaces;
    SqueezedLine(line);
    EndsInCrlf(Squeeze(line));
  }

  /** The normalised line, read back as the C string up to its CRLF. */
  method Normalise(temp: array<char>, len: nat, ghost line: string) returns (command: string)
    requires temp.Length == READ_SIZE && len <= READ_SIZE && temp[..len] == line && IsLine(line)
    requires |Squeeze(line)| < READ_SIZE
    ensures command == Squeeze(line)
  {
    hide Squeeze, Crlf;
    SqueezedCString(line);
    var full := new char[READ_SIZE](_ => NUL);
    var idx := TrimSpace(temp, len, full);
    var found, p := FindCrlf(full, idx);
    assert full[p + 2] == NUL;
    command := full[..p + 2];
  }

  lemma FirstCommand(line: string, lines: seq<string>)
    ensures Commands([line] + lines) == Command(line) + Commands(lines)
  {
    assert ([line] + lines)[1..] == lines;
  }

  lemma TakeFirst(before: seq<string>, s: string, p: nat)
    requires Crlf(s) == p
    ensures before + Commands(Lines(s)) == before + Command(s[..p + 2]) + Commands(Lines(s[p + 2..]))
    ensures Tail(s) == Tail(s[p + 2..])
  {
    hide Squeeze, Crlf, Command;
    var line, rest := s[..p + 2], s[p + 2..];
    assert Lines(s) == [line] + Lines(rest);
    FirstCommand(line, Lines(rest));
    Associative(before, Command(line), Commands(Lines(rest)));
  }

  /** Every command leaves room for a NUL in the buffer it is handed on in. */
  ghost predicate Terminated(commands: seq<string>) {
    forall i :: 0 <= i < |commands| ==> |commands[i]| < READ_SIZE
  }

  lemma NothingHanded()
    ensures Terminated([])
  {}

  /** The per-connection state of subthread_work. */
  class Connection {
    const buf: array<char>
    var pos: nat

    ghost predicate Shaped()
      reads this, buf
    {
      && buf.Length == READ_SIZE && pos <= READ_SIZE
      && forall x :: pos <= x < READ_SIZE ==> buf[x] == NUL
    }

    /** Between reads the buffer holds what no line has taken yet, with zeros behind it. */
    ghost predicate Valid()
      reads this, buf
    {
      Shaped() && Crlf(buf[..pos]) < 0
    }

    constructor ()
      ensures Valid() && pos == 0 && fresh(buf)
    {
      buf := new char[READ_SIZE](_ => NUL);
      pos := 0;
    }

    /** What read(2) stores. */
    method Store(chunk: string)
      requires Shaped() && pos + |chunk| <= READ_SIZE
      modifies this`pos, buf
      ensures Shaped() && pos == old(pos) + |chunk| && buf[..pos] == old(buf[..pos]) + chunk
    {
      forall i | 0 <= i < |chunk| { buf[pos + i] := chunk[i]; }
      pos := pos + |chunk|;
    }

    /** Drops the first len bytes, by way of the second buffer. */
    method ShiftOut(len: nat)
      requires Shaped() && len <= pos
      modifies this`pos, buf
      ensures Shaped() && buf[..pos] == old(buf[len..pos]) && pos == old(pos) - len
    {
      var bak := new char[READ_SIZE](_ => NUL);
      forall i | 0 <= i < READ_SIZE - len { bak[i] := buf[len + i]; }
      forall i | 0 <= i < READ_SIZE { buf[i] := bak[i]; }
      pos := pos - len;
    }

    /** Copies the first len bytes into a buffer of their own. */
    method CopyOut(len: nat) returns (temp: array<char>)
      requires Shaped() && len <= pos
      ensures fresh(temp) && temp.Length == READ_SIZE && temp[..len] == buf[..len]
    {
      temp := new char[READ_SIZE](_ => NUL);
      forall i | 0 <= i < len { temp[i] := buf[i]; }
    }

    /** Takes the first line, which ends at p + 2, out of the buffer, and normalises it. */
    method TakeLine(p: nat) returns (command: string)
      requires Shaped() && Crlf(buf[..pos]) == p && FirstFits(buf[..pos])
      modifies this`pos, buf
      ensures Shaped() && buf[..pos] == old(buf[p + 2..pos]) && pos == old(pos) - (p + 2)
      ensures command == Squeeze(old(buf[..p + 2])) && |command| < READ_SIZE
    {
      hide Crlf, Squeeze;
      var len := p + 2;
      ghost var line := buf[..len];
      FirstLine(buf[..pos]);
      assert buf[..pos][..len] == line;
      var temp := CopyOut(len);
      command := Normalise(temp, len, line);
      ShiftOut(len);
    }

    /** Takes out the first line, and hands it on unless it is blank. */
    method HandLine(commands0: seq<string>, p: nat) returns (commands: seq<string>)
      requires Shaped() && Crlf(buf[..pos]) == p && FirstFits(buf[..pos])
      modifies this`pos, buf
      ensures Shaped() && buf[..pos] == old(buf[..pos])[p + 2..] && pos == old(pos) - (p + 2)
      ensures commands == commands0 + Command(old(buf[..pos])[..p + 2])
      ensures Terminated(commands0) ==> Terminated(commands)
    {
      hide Squeeze, Crlf;
      ghost var r := buf[..pos];
      assert buf[..p + 2] == r[..p + 2] && buf[p + 2..pos] == r[p + 2..];
      commands := commands0;
      var full := TakeLine(p);
      if |full| > 2 { commands := commands + [full]; }
    }

    /** One read and the loop over the lines it completes; commands are handed to the parser in order. */
    method Receive(chunk: string) returns (commands: seq<string>)
      requires Valid() && Readable(buf[..pos], chunk)
      modifies this`pos, buf
      ensures Valid()
      ensures commands == Commands(Lines(old(buf[..pos]) + chunk))
      ensures buf[..pos] == Tail(old(buf[..pos]) + chunk)
      ensures Terminated(commands)
    {
      hide Squeeze, Commands, Lines, Tail, Crlf, FirstFits, Terminated, Normal;
      FirstFitsExact(buf[..pos] + chunk);
      NothingHanded();
      ghost var s := buf[..pos] + chunk;
      Store(chunk);
      commands := [];
      while true
        invariant Shaped() && (pos == READ_SIZE ==> Stops(buf[..pos])) && FirstFits(buf[..pos])
        invariant Terminated(commands)
        invariant commands + Commands(Lines(buf[..pos])) == Commands(Lines(s)) && Tail(buf[..pos]) == Tail(s)
        decreases pos
      {
        var found, p := FindCrlf(buf, pos);
        if !found {
          NoLine(buf[..pos]);
          break;
        }
        TakeFirst(commands, buf[..pos], p);
        commands := HandLine(commands, p);
        FirstFitsExact(buf[..pos]);
      }
    }
  }

  /** All reads of a connection: the commands, and the bytes left over, are those of the whole stream. */
  method ReceiveAll(c: Connection, chunks: seq<string>) returns (commands: seq<string>)
    requires c.Valid() && Fits(c.buf[..c.pos], chunks)
    modifies c`pos, c.buf
    ensures c.Valid()
    ensures commands == Commands(Lines(old(c.buf[..c.pos]) + Concat(chunks)))
    ensures c.buf[..c.pos] == Tail(old(c.buf[..c.pos]) + Concat(chunks))
    ensures Terminated(commands)
  {
    hide Commands, Lines, Tail, Crlf;
    ghost var pending := c.buf[..c.pos];
    commands := [];
    var i := 0;
    while i < |chunks|
      invariant i <= |chunks| && c.Valid() && Fits(c.buf[..c.pos], chunks[i..])
      invariant commands + CommandsByReads(c.buf[..c.pos], chunks[i..]) == CommandsByReads(pending, chunks)
      invariant TailByReads(c.buf[..c.pos], chunks[i..]) == TailByReads(pending, chunks)
      invariant Terminated(commands)
    {
      assert chunks[i..][0] == chunks[i] && chunks[i..][1..] == chunks[i + 1..];
      var more := c.Receive(chunks[i]);
      commands := commands + more;
      i := i + 1;
    }
    ReadsDoNotMatter(pending, chunks);
  }
}
