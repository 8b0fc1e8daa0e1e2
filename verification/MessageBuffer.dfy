/** chirc_message_from_string and chirc_message_to_string: the same on a NUL-terminated buffer. */
module MessageBuffer {
  import opened Message
  import opened Options

  /** The C string w is stored at p. */
  ghost predicate Holds(mem: string, p: nat, w: string) {
    p + |w| < |mem| && mem[p..p + |w|] == w && mem[p + |w|] == NUL && NUL !in w
  }

  /** From index from on the buffer still has the line, then two NULs. */
  ghost predicate Rest(buf: array<char>, line: string, from: nat)
    reads buf
  {
    && from <= |line| && |line| + 1 < buf.Length && NUL !in line
    && (forall x :: from <= x < |line| ==> buf[x] == line[x])
    && buf[|line|] == NUL && buf[|line| + 1] == NUL
  }

  /** strspn with " ". */
  method SkipTo(buf: array<char>, from: nat, ghost line: string) returns (start: nat)
    requires Rest(buf, line, from)
    ensures from <= start <= |line| && line[start..] == SkipSpaces(line[from..])
    ensures buf[start] == NUL <==> start == |line|
  {
    start := from;
    while buf[start] == ' '
      invariant from <= start <= |line| && SkipSpaces(line[from..]) == SkipSpaces(line[start..])
      decreases |line| - start
    {
      start := start + 1;
    }
  }

  lemma WordAt(line: string, start: nat, end: nat)
    requires start <= end <= |line| && (end < |line| ==> line[end] == ' ')
    requires forall x :: start <= x < end ==> line[x] != ' '
    ensures line[start..end] == Word(line[start..])
    ensures AfterWord(line[start..]) == if end < |line| then Some(line[end + 1..]) else None
  {
    var s, k := line[start..], end - start;
    assert s[..k] == line[start..end];
    WordIs(s, k);
  }

  /** strcspn with " ". */
  method WordEnd(buf: array<char>, start: nat, ghost line: string) returns (end: nat)
    requires Rest(buf, line, start) && start < |line| && line[start] != ' '
    ensures start < end <= |line| && line[start..end] == Word(line[start..])
    ensures buf[end] == if end < |line| then ' ' else NUL
    ensures AfterWord(line[start..]) == if end < |line| then Some(line[end + 1..]) else None
  {
    hide Word, AfterWord;
    end := start;
    while buf[end] != ' ' && buf[end] != NUL
      invariant start <= end <= |line| && forall x :: start <= x < end ==> line[x] != ' '
      decreases |line| - end
    {
      end := end + 1;
    }
    WordAt(line, start, end);
  }

  /** strtok_r with " ": finds the next word, ends it with a NUL, and saves where to go on. */
  method StrtokSpace(buf: array<char>, from: nat, ghost line: string)
    returns (found: bool, start: nat, save: nat, ghost end: nat)
    requires Rest(buf, line, from)
    modifies buf
    ensures found <==> SkipSpaces(line[from..]) != ""
    ensures found ==> from <= start < end <= |line| && line[start..] == SkipSpaces(line[from..])
    ensures found ==> line[start..end] == Word(line[start..]) && Holds(buf[..], start, line[start..end])
    ensures found ==> AfterWord(line[start..]) == if end < |line| then Some(line[end + 1..]) else None
    ensures found ==> save == (if end < |line| then end + 1 else end) && Rest(buf, line, save)
    ensures buf[..from] == old(buf[..from]) && (!found ==> buf[..] == old(buf[..]))
  {
    hide SkipSpaces, Word, AfterWord;
    start := SkipTo(buf, from, line);
    save, end, found := start, start, false;
    if buf[start] == NUL { return; }
    found := true;
    var e := WordEnd(buf, start, line);
    end := e;
    save := e;
    ghost var w := line[start..end];
    assert buf[start..e] == w && NUL !in w;
    if buf[e] == ' ' {
      buf[e] := NUL;
      save := e + 1;
    }
    assert buf[start..e] == w;
  }

  lemma HoldsAt(mem: string, p: nat, w: string, k: nat)
    requires Holds(mem, p, w) && k < |w|
    ensures mem[p + k] == w[k] != NUL
  {
    assert mem[p..p + |w|][k] == w[k];
  }

  /** while (*i++) ; from p on: the index behind the NUL of the string at p. */
  method PastNul(buf: array<char>, p: nat, ghost w: string) returns (i: nat)
    requires Holds(buf[..], p, w)
    ensures i == p + |w| + 1
  {
    i := p;
    while buf[i] != NUL
      invariant p <= i <= p + |w|
      decreases p + |w| - i
    {
      HoldsAt(buf[..], p, w, i - p);
      i := i + 1;
    }
    if i < p + |w| { HoldsAt(buf[..], p, w, i - p); }
    i := i + 1;
  }

  /** The C string at p. */
  method StringAt(buf: array<char>, p: nat, ghost w: string) returns (r: string)
    requires Holds(buf[..], p, w)
    ensures r == w
  {
    var i := PastNul(buf, p, w);
    r := buf[p..i - 1];
  }

  /** The loop over toupper. */
  method UpperInPlace(buf: array<char>, p: nat, ghost w: string)
    requires Holds(buf[..], p, w)
    modifies buf
    ensures Holds(buf[..], p, UpperAll(w))
    ensures buf[..p] == old(buf[..p])
    ensures forall x :: p + |w| <= x < buf.Length ==> buf[x] == old(buf[x])
  {
    UpperAt(w);
    var i := p;
    while buf[i] != NUL
      invariant p <= i <= p + |w|
      invariant forall j :: p <= j < p + |w| ==> buf[j] == if j < i then Upper(w[j - p]) else w[j - p]
      invariant buf[p + |w|] == NUL && forall j :: p <= j < p + |w| ==> buf[j] != NUL
      invariant buf[..p] == old(buf[..p])
      invariant forall x :: p + |w| <= x < buf.Length ==> buf[x] == old(buf[x])
      decreases p + |w| - i
    {
      buf[i] := Upper(buf[i]);
      i := i + 1;
    }
    ghost var u := UpperAll(w);
    assert buf[p..p + |w|] == u;
    forall k | 0 <= k < |u| ensures u[k] != NUL { assert buf[p + k] == u[k]; }
  }

  /** The strings that n pointers point to. */
  ghost predicate HoldsAll(mem: string, ptrs: seq<nat>, tokens: seq<string>) {
    |ptrs| == |tokens| && forall k :: 0 <= k < |ptrs| ==> Holds(mem, ptrs[k], tokens[k])
  }

  /** Those strings, with their NULs, lie before bound. */
  ghost predicate EndBefore(ptrs: seq<nat>, tokens: seq<string>, bound: nat) {
    |ptrs| == |tokens| && forall k :: 0 <= k < |ptrs| ==> ptrs[k] + |tokens[k]| < bound
  }

  ghost function PrependParams(tokens: seq<string>, r: (seq<string>, bool)): (all: (seq<string>, bool))
    ensures |all.0| == |tokens| + |r.0|
  {
    (tokens + r.0, r.1)
  }

  lemma HoldKept(mem: string, mem': string, p: nat, w: string, from: nat)
    requires Holds(mem, p, w) && p + |w| < from <= |mem| == |mem'| && mem[..from] == mem'[..from]
    ensures Holds(mem', p, w)
  {
    forall x | 0 <= x < from ensures mem'[x] == mem[x] {
      assert mem'[..from][x] == mem[..from][x];
    }
    assert mem'[p..p + |w|] == mem[p..p + |w|];
  }

  /** Writing behind the strings keeps them. */
  lemma HoldsKept(mem: string, mem': string, ptrs: seq<nat>, tokens: seq<string>, from: nat)
    requires HoldsAll(mem, ptrs, tokens) && EndBefore(ptrs, tokens, from)
    requires from <= |mem| == |mem'| && mem[..from] == mem'[..from]
    ensures HoldsAll(mem', ptrs, tokens)
  {
    forall k | 0 <= k < |ptrs| ensures Holds(mem', ptrs[k], tokens[k]) {
      HoldKept(mem, mem', ptrs[k], tokens[k], from);
    }
  }

  /** What follows in the line a word that ends at end. */
  ghost function RestOf(line: string, end: nat): Option<string> {
    if end < |line| then Some(line[end + 1..]) else None
  }

  ghost function SaveOf(line: string, end: nat): nat { if end < |line| then end + 1 else end }

  datatype Param = NoParam | ShortParam(p: nat) | LongParam(p: nat)

  /** One trip round the parameter loop, after the word from pch to end: the look-ahead for ':', then strtok_r. */
  method NextParam(buf: array<char>, pch: nat, save0: nat, ghost line: string, ghost end0: nat,
                   ghost word: string, ghost ptrs: seq<nat>, ghost tokens: seq<string>)
    returns (r: Param, save: nat, ghost end: nat)
    requires pch + |word| == end0 <= |line| && save0 == SaveOf(line, end0) && Rest(buf, line, save0)
    requires Holds(buf[..], pch, word)
    requires HoldsAll(buf[..], ptrs, tokens) && EndBefore(ptrs, tokens, end0 + 1)
    modifies buf
    ensures HoldsAll(buf[..], ptrs, tokens)
    ensures r.NoParam? ==> ParseParams(RestOf(line, end0)) == ([], false)
    ensures r.LongParam? ==> r.p == end0 + 2 <= |line| && ParseParams(RestOf(line, end0)) == ([line[r.p..]], true)
    ensures r.LongParam? ==> Holds(buf[..], r.p, line[r.p..])
    ensures !r.ShortParam? ==> buf[..] == old(buf[..])
    ensures r.ShortParam? ==>
              end0 < |line| && save0 <= r.p < end <= |line| && save == SaveOf(line, end) && Rest(buf, line, save)
    ensures r.ShortParam? ==> Holds(buf[..], r.p, line[r.p..end])
    ensures r.ShortParam? ==>
              ParseParams(RestOf(line, end0)) == PrependParams([line[r.p..end]], ParseParams(RestOf(line, end)))
    ensures buf[..save0] == old(buf[..save0])
  {
    save, end := save0, end0;
    ghost var mem := buf[..];
    var i := PastNul(buf, pch, word);
    if buf[i] == ':' {
      assert RestOf(line, end0).value[1..] == line[end0 + 2..];
      assert buf[end0 + 2..|line|] == line[end0 + 2..];
      return LongParam(i + 1), save, end;
    }
    var found, p;
    found, p, save, end := StrtokSpace(buf, save0, line);
    r := if found then ShortParam(p) else NoParam;
    if found { HoldsKept(mem, buf[..], ptrs, tokens, end0 + 1); }
  }

  /** What the parameter loop keeps true: the tokens so far are stored, the word from pch to end is the last
      one read, and all are the parameters of the line. */
  ghost predicate Reading(mem: string, ptrs: seq<nat>, tokens: seq<string>, all: (seq<string>, bool), line: string,
                          pch: nat, end: nat, word: string)
  {
    && HoldsAll(mem, ptrs, tokens) && EndBefore(ptrs, tokens, end + 1) && Holds(mem, pch, word)
    && pch + |word| == end <= |line|
    && all == PrependParams(tokens, ParseParams(RestOf(line, end)))
  }

  lemma StartReading(mem: string, line: string, pch: nat, end: nat, word: string)
    requires Holds(mem, pch, word) && pch + |word| == end <= |line|
    ensures Reading(mem, [], [], ParseParams(RestOf(line, end)), line, pch, end, word)
  {
    var r := ParseParams(RestOf(line, end));
    assert [] + r.0 == r.0;
  }

  lemma ReadingHolds(mem: string, ptrs: seq<nat>, tokens: seq<string>, all: (seq<string>, bool), line: string,
                     pch: nat, end: nat, word: string)
    requires Reading(mem, ptrs, tokens, all, line, pch, end, word)
    ensures HoldsAll(mem, ptrs, tokens) && EndBefore(ptrs, tokens, end + 1) && Holds(mem, pch, word)
    ensures pch + |word| == end <= |line| && all == PrependParams(tokens, ParseParams(RestOf(line, end)))
  {}

  lemma ReadNone(mem: string, ptrs: seq<nat>, tokens: seq<string>, all: (seq<string>, bool), line: string,
                 pch: nat, end: nat, word: string)
    requires Reading(mem, ptrs, tokens, all, line, pch, end, word) && ParseParams(RestOf(line, end)) == ([], false)
    ensures HoldsAll(mem, ptrs, tokens) && |ptrs| == |tokens| && all == (tokens, false)
  {
    assert tokens + [] == tokens;
  }

  lemma ReadLong(mem: string, ptrs: seq<nat>, tokens: seq<string>, all: (seq<string>, bool), line: string,
                 pch: nat, end: nat, word: string, p: nat)
    requires Reading(mem, ptrs, tokens, all, line, pch, end, word) && p <= |line| && Holds(mem, p, line[p..])
    requires ParseParams(RestOf(line, end)) == ([line[p..]], true)
    ensures HoldsAll(mem, ptrs + [p], tokens + [line[p..]]) && all == (tokens + [line[p..]], true)
    ensures |ptrs| == |tokens| < |all.0|
  {}

  lemma ReadShort(mem: string, ptrs: seq<nat>, tokens: seq<string>, all: (seq<string>, bool), line: string,
                  end: nat, p: nat, end1: nat)
    requires HoldsAll(mem, ptrs, tokens) && EndBefore(ptrs, tokens, end + 1)
    requires all == PrependParams(tokens, ParseParams(RestOf(line, end)))
    requires end <= p < end1 <= |line| && Holds(mem, p, line[p..end1])
    requires ParseParams(RestOf(line, end)) == PrependParams([line[p..end1]], ParseParams(RestOf(line, end1)))
    ensures Reading(mem, ptrs + [p], tokens + [line[p..end1]], all, line, p, end1, line[p..end1])
    ensures |ptrs| == |tokens| < |all.0|
  {
    hide ParseParams, Holds, RestOf;
    var w, more := line[p..end1], ParseParams(RestOf(line, end1)).0;
    assert tokens + ([w] + more) == tokens + [w] + more;
  }

  /** The loop that collects the parameters, after a word that starts at pch and ends at end. */
  method ReadParams(buf: array<char>, pch0: nat, save0: nat, params: array<nat>, ghost line: string, ghost end0: nat,
                    ghost word0: string)
    returns (nparams: nat, longlast: bool, ghost tokens: seq<string>)
    requires pch0 + |word0| == end0 <= |line| && save0 == SaveOf(line, end0) && Rest(buf, line, save0)
    requires Holds(buf[..], pch0, word0) && params.Length == MAX_PARAMS
    requires |ParseParams(RestOf(line, end0)).0| <= MAX_PARAMS && |line| + 1 < buf.Length
    modifies buf, params
    ensures nparams == |tokens| <= MAX_PARAMS && HoldsAll(buf[..], params[..nparams], tokens)
    ensures (tokens, longlast) == ParseParams(RestOf(line, end0))
    ensures buf[..save0] == old(buf[..save0]) && Holds(buf[..], pch0, word0)
  {
    hide ParseParams, Holds, Rest, HoldsAll, EndBefore, PrependParams, Reading;
    var pch: nat, save: nat := pch0, save0;
    ghost var end, word := end0, word0;
    nparams, longlast, tokens := 0, false, [];
    ghost var all := ParseParams(RestOf(line, end0));
    StartReading(buf[..], line, pch0, end0, word0);
    while true
      invariant nparams == |tokens| <= MAX_PARAMS && !longlast
      invariant save0 <= save == SaveOf(line, end) && Rest(buf, line, save)
      invariant Reading(buf[..], params[..nparams], tokens, all, line, pch, end, word)
      invariant buf[..save0] == old(buf[..save0]) && Holds(buf[..], pch0, word0) && end0 <= end
      decreases |line| - end
    {
      ghost var ptrs, mem := params[..nparams], buf[..];
      var r;
      ghost var end1;
      ReadingHolds(mem, ptrs, tokens, all, line, pch, end, word);
      r, save, end1 := NextParam(buf, pch, save, line, end, word, ptrs, tokens);
      if r.NoParam? {
        ReadNone(mem, ptrs, tokens, all, line, pch, end, word);
        break;
      }
      if r.LongParam? {
        ReadLong(mem, ptrs, tokens, all, line, pch, end, word, r.p);
      } else {
        HoldKept(mem, buf[..], pch0, word0, end + 1);
        ReadShort(buf[..], ptrs, tokens, all, line, end, r.p, end1);
      }
      params[nparams] := r.p;
      nparams := nparams + 1;
      assert params[..nparams] == ptrs + [r.p];
      if r.LongParam? {
        longlast, tokens := true, tokens + [line[r.p..]];
        break;
      }
      tokens := tokens + [line[r.p..end1]];
      pch := r.p;
      end, word := end1, line[r.p..end1];
    }
  }

  /** Reads the strings that the pointers point to. */
  method StringsAt(buf: array<char>, params: array<nat>, nparams: nat, ghost tokens: seq<string>)
    returns (r: seq<string>)
    requires nparams == |tokens| <= params.Length && HoldsAll(buf[..], params[..nparams], tokens)
    ensures r == tokens
  {
    r := [];
    for i := 0 to nparams
      invariant r == tokens[..i]
    {
      assert Holds(buf[..], params[..nparams][i], tokens[i]);
      var w := StringAt(buf, params[i], tokens[i]);
      r := r + [w];
    }
  }

  /** From the command, the word from pch to end, to the end of the line. */
  method FinishParse(buf: array<char>, pch: nat, save: nat, ghost line: string, ghost end: nat, prefix: Option<string>)
    returns (m: Msg)
    requires pch < end <= |line| && save == SaveOf(line, end) && Rest(buf, line, save)
    requires line[pch..end] == Word(line[pch..]) && Holds(buf[..], pch, line[pch..end])
    requires AfterWord(line[pch..]) == RestOf(line, end)
    requires |ParseCommand(prefix, line[pch..]).params| <= MAX_PARAMS
    modifies buf
    ensures m == ParseCommand(prefix, line[pch..])
    ensures buf[..pch] == old(buf[..pch])
  {
    hide ParseParams, Word, AfterWord, UpperAll, Holds, HoldsAll;
    ghost var cmdUpper := UpperAll(line[pch..end]);
    UpperAt(line[pch..end]);
    UpperInPlace(buf, pch, line[pch..end]);
    var params := new nat[MAX_PARAMS];
    var nparams, longlast;
    ghost var tokens;
    nparams, longlast, tokens := ReadParams(buf, pch, save, params, line, end, cmdUpper);
    var cmd := StringAt(buf, pch, cmdUpper);
    var strings := StringsAt(buf, params, nparams, tokens);
    m := Msg(prefix, cmd, strings, longlast);
  }

  lemma TailHeld(mem: string, p: nat, w: string)
    requires Holds(mem, p, w) && w != ""
    ensures Holds(mem, p + 1, w[1..])
  {
    assert mem[p + 1..p + |w|] == mem[p..p + |w|][1..];
  }

  /** chirc_message_from_string, of a line with its last two bytes. */
  method FromString(s: string) returns (r: Option<Msg>)
    requires |s| >= 2 && NUL !in s
    requires Parse(s[..|s| - 2]).Some? ==> |Parse(s[..|s| - 2]).value.params| <= MAX_PARAMS
    ensures r == Parse(s[..|s| - 2])
  {
    hide Word, AfterWord, ParseCommand, SkipSpaces;
    var len := |s|;
    ghost var line := s[..len - 2];
    var buf := new char[len](i requires 0 <= i < len => if i < len - 2 then s[i] else NUL);
    assert line[0..] == line;
    var found, pch, save;
    ghost var end;
    found, pch, save, end := StrtokSpace(buf, 0, line);
    if !found { return None; }
    HoldsAt(buf[..], pch, line[pch..end], 0);
    var prefix := None;
    if buf[pch] == ':' {
      ghost var word, start, after := line[pch..end], line[pch..], end;
      var p := pch + 1;
      TailHeld(buf[..], pch, word);
      ghost var mem := buf[..];
      found, pch, save, end := StrtokSpace(buf, save, line);
      if !found { return None; }
      HoldKept(mem, buf[..], p, word[1..], after + 1);
      var name := StringAt(buf, p, word[1..]);
      prefix := Some(name);
    }
    var m := FinishParse(buf, pch, save, line, end, prefix);
    r := Some(m);
  }

  // ---------- the printer ----------

  /** strcat: the buffer has room for the longer string and its NUL. */
  method Strcat(buf: array<char>, n: nat, t: string) returns (m: nat)
    requires n + |t| < buf.Length && buf[n] == NUL
    modifies buf
    ensures m == n + |t| && buf[..m] == old(buf[..n]) + t && buf[m] == NUL
  {
    m := n + |t|;
    forall i | 0 <= i < |t| { buf[n + i] := t[i]; }
    buf[m] := NUL;
  }

  /** One parameter, with its space and, for a long last one, its colon. */
  function Piece(params: seq<string>, i: nat, longlast: bool): string
    requires i < |params|
  {
    " " + (if i == |params| - 1 && longlast then ":" else "") + params[i]
  }

  method CatPrefix(buf: array<char>, prefix: Option<string>) returns (n: nat)
    requires buf.Length > 0 && buf[0] == NUL
    requires prefix.Some? ==> |prefix.value| + 2 < buf.Length
    modifies buf
    ensures n < buf.Length && buf[n] == NUL
    ensures buf[..n] == if prefix.Some? then ":" + prefix.value + " " else ""
  {
    n := 0;
    if prefix.Some? {
      n := Strcat(buf, n, ":");
      n := Strcat(buf, n, prefix.value);
      n := Strcat(buf, n, " ");
    }
  }

  method CatParam(buf: array<char>, n0: nat, params: seq<string>, i: nat, longlast: bool) returns (n: nat)
    requires i < |params| && n0 + |Piece(params, i, longlast)| < buf.Length && buf[n0] == NUL
    modifies buf
    ensures n == n0 + |Piece(params, i, longlast)| && buf[..n] == old(buf[..n0]) + Piece(params, i, longlast)
    ensures buf[n] == NUL
  {
    n := Strcat(buf, n0, " ");
    if i == |params| - 1 && longlast {
      n := Strcat(buf, n, ":");
    }
    n := Strcat(buf, n, params[i]);
  }

  lemma NoMoreParams(params: seq<string>, longlast: bool)
    ensures PrintParams(params[|params|..], longlast) == ""
  {}

  lemma ParamsFrom(before: string, params: seq<string>, i: nat, longlast: bool)
    requires i < |params|
    ensures before + PrintParams(params[i..], longlast) ==
            before + Piece(params, i, longlast) + PrintParams(params[i + 1..], longlast)
  {
    assert params[i..][1..] == params[i + 1..];
  }

  /** chirc_message_to_string; n stands for the strlen that each strcat finds again. */
  method ToString(m: Msg) returns (s: string)
    requires |Print(m)| < BUFFER_SIZE
    ensures s == Print(m)
  {
    var buffer := new char[BUFFER_SIZE];
    buffer[0] := NUL;
    var n: nat := CatPrefix(buffer, m.prefix);
    n := Strcat(buffer, n, m.cmd);
    assert m.params[0..] == m.params;
    hide PrintParams, Piece;
    var i := 0;
    while i < |m.params|
      invariant 0 <= i <= |m.params| && n < buffer.Length && buffer[n] == NUL
      invariant buffer[..n] + PrintParams(m.params[i..], m.longlast) == PrintBody(m)
    {
      ParamsFrom(buffer[..n], m.params, i, m.longlast);
      n := CatParam(buffer, n, m.params, i, m.longlast);
      i := i + 1;
    }
    NoMoreParams(m.params, m.longlast);
    n := Strcat(buffer, n, "\r\n");
    s := buffer[..n];
  }

  /** A printed message that parses at all parses to itself exactly when it is well formed. */
  method PrintAndParse(m: Msg) returns (r: Option<Msg>)
    requires |Print(m)| < BUFFER_SIZE && NUL !in Print(m)
    requires Parse(PrintBody(m)).Some? ==> |Parse(PrintBody(m)).value.params| <= MAX_PARAMS
    ensures r == Some(m) <==> WellFormed(m)
  {
    var s := ToString(m);
    assert s[..|s| - 2] == PrintBody(m);
    r := FromString(s);
    PrintThenParse(m);
  }
}
