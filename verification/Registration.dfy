/** NICK and USER registration of main.c (sections 3.1.2 and 3.1.3 of RFC 2812) as a state machine. */
module Registration {
  import opened Message
  import opened MessageBuilder
  import opened Options

  /** A parsed message and the socket it came in on. */
  datatype Request = Request(fd: int, msg: Msg)

  datatype User = User(name: string, msg: Msg)

  datatype Connected = Connected(name: string, fd: int, msg: Msg)

  /** The nick list, the user list and the connection table. */
  datatype State = State(nicks: seq<string>, users: seq<User>, connected: seq<Connected>)

  const START: State := State([], [], [])

  /** strncmp(cmd, "NICK", 4) == 0; the USER branch is reached only when this fails. */
  predicate IsNick(r: Request) { "NICK" <= r.msg.cmd }

  predicate IsUser(r: Request) { "USER" <= r.msg.cmd }

  /** Four letters decide, whatever follows them, and no command is taken for both. */
  lemma FourLettersDecide(r: Request)
    ensures IsNick(r) <==> exists more :: r.msg.cmd == "NICK" + more
    ensures IsUser(r) <==> exists more :: r.msg.cmd == "USER" + more
    ensures !(IsNick(r) && IsUser(r))
  {
    var c := r.msg.cmd;
    assert IsNick(r) ==> c == "NICK" + c[4..];
    assert IsUser(r) ==> c == "USER" + c[4..];
    assert IsNick(r) ==> c[0] == 'N';
    assert IsUser(r) ==> c[0] == 'U';
  }

  function UserMsg(users: seq<User>, name: string): Option<Msg> {
    if users == [] then None
    else if users[0].name == name then Some(users[0].msg)
    else UserMsg(users[1..], name)
  }

  function Connection(connected: seq<Connected>, name: string): Option<Connected> {
    if connected == [] then None
    else if connected[0].name == name then Some(connected[0])
    else Connection(connected[1..], name)
  }

  function NextNick(st: State, r: Request): State
    requires |r.msg.params| == 1
  {
    var name := r.msg.params[0];
    if Connection(st.connected, name).Some? || name in st.nicks then st
    else
      var reg := UserMsg(st.users, name);
      State(st.nicks + [name], st.users,
            if reg.Some? then st.connected + [Connected(name, r.fd, Stored(reg.value))] else st.connected)
  }

  function NextUser(st: State, r: Request): State
    requires |r.msg.params| >= 4
  {
    var name := r.msg.params[0];
    if UserMsg(st.users, name).Some? then st
    else
      var copy := Stored(r.msg);
      State(st.nicks, st.users + [User(name, copy)],
            if name in st.nicks && |r.msg.params| == 4
            then st.connected + [Connected(name, r.fd, copy)] else st.connected)
  }

  /** Every other command leaves the three tables alone. */
  function Next(st: State, r: Request): State {
    if IsNick(r) then if |r.msg.params| == 1 then NextNick(st, r) else st
    else if IsUser(r) && |r.msg.params| >= 4 then NextUser(st, r)
    else st
  }

  function Run(st: State, reqs: seq<Request>): State {
    if reqs == [] then st
    else Next(Run(st, reqs[..|reqs| - 1]), reqs[|reqs| - 1])
  }

  // ---------- what every run keeps ----------

  /** Every table holds a name at most once; a connected name is in both lists, with the message of its USER. */
  ghost predicate Inv(st: State) {
    && (forall i, j :: 0 <= i < j < |st.nicks| ==> st.nicks[i] != st.nicks[j])
    && (forall i, j :: 0 <= i < j < |st.users| ==> st.users[i].name != st.users[j].name)
    && (forall i, j :: 0 <= i < j < |st.connected| ==> st.connected[i].name != st.connected[j].name)
    && (forall i {:trigger st.connected[i]} :: 0 <= i < |st.connected| ==>
          && st.connected[i].name in st.nicks
          && UserMsg(st.users, st.connected[i].name) == Some(st.connected[i].msg))
    && (forall i {:trigger st.users[i]} :: 0 <= i < |st.users| ==> st.users[i].msg == Stored(st.users[i].msg))
  }

  lemma {:induction false} UserMsgOf(users: seq<User>, name: string)
    ensures UserMsg(users, name).None? <==> forall i :: 0 <= i < |users| ==> users[i].name != name
    ensures UserMsg(users, name).Some? ==>
              exists i :: 0 <= i < |users| && users[i].name == name && users[i].msg == UserMsg(users, name).value
  {
    if users != [] && users[0].name != name {
      UserMsgOf(users[1..], name);
      assert forall i :: 0 < i < |users| ==> users[i] == users[1..][i - 1];
    }
  }

  lemma {:induction false} UserMsgAdd(users: seq<User>, u: User, name: string)
    ensures UserMsg(users + [u], name) ==
            if UserMsg(users, name).Some? then UserMsg(users, name)
            else if u.name == name then Some(u.msg) else None
  {
    if users == [] {
    } else {
      UserMsgAdd(users[1..], u, name);
      assert (users + [u])[1..] == users[1..] + [u];
    }
  }

  lemma {:induction false} ConnectionOf(connected: seq<Connected>, name: string)
    ensures Connection(connected, name).None? <==> forall i :: 0 <= i < |connected| ==> connected[i].name != name
    ensures Connection(connected, name).Some? ==>
              Connection(connected, name).value in connected && Connection(connected, name).value.name == name
  {
    if connected != [] && connected[0].name != name {
      ConnectionOf(connected[1..], name);
      assert forall i :: 0 < i < |connected| ==> connected[i] == connected[1..][i - 1];
    }
  }

  lemma {:induction false} ConnectionAdd(connected: seq<Connected>, c: Connected, name: string)
    ensures Connection(connected + [c], name) ==
            if Connection(connected, name).Some? then Connection(connected, name)
            else if c.name == name then Some(c) else None
  {
    if connected == [] {
    } else {
      ConnectionAdd(connected[1..], c, name);
      assert (connected + [c])[1..] == connected[1..] + [c];
    }
  }

  lemma ConnectKeepsInv(st: State, c: Connected)
    requires Inv(st) && c.name in st.nicks && UserMsg(st.users, c.name) == Some(c.msg)
    requires Connection(st.connected, c.name).None?
    ensures Inv(st.(connected := st.connected + [c]))
  {
    hide UserMsg, Connection;
    ConnectionOf(st.connected, c.name);
  }

  lemma NickKeepsInv(st: State, r: Request)
    requires Inv(st) && |r.msg.params| == 1
    ensures Inv(NextNick(st, r))
  {
    hide UserMsg, Connection;
    var name := r.msg.params[0];
    var reg, listed := UserMsg(st.users, name), st.(nicks := st.nicks + [name]);
    UserMsgOf(st.users, name);
    if reg.Some? && NextNick(st, r) != st { ConnectKeepsInv(listed, Connected(name, r.fd, Stored(reg.value))); }
  }

  lemma UserAddKeepsInv(st: State, u: User)
    requires Inv(st) && UserMsg(st.users, u.name).None? && u.msg == Stored(u.msg)
    ensures Inv(st.(users := st.users + [u]))
  {
    hide UserMsg, Stored;
    UserMsgOf(st.users, u.name);
    forall x ensures UserMsg(st.users, x).Some? ==> UserMsg(st.users + [u], x) == UserMsg(st.users, x) {
      UserMsgAdd(st.users, u, x);
    }
  }

  /** A name without a user entry is not connected. */
  lemma UserlessNotConnected(st: State, name: string)
    requires Inv(st)
    ensures UserMsg(st.users, name).None? ==> Connection(st.connected, name).None?
  {
    ConnectionOf(st.connected, name);
  }

  lemma UserKeepsInv(st: State, r: Request)
    requires Inv(st) && |r.msg.params| >= 4
    ensures Inv(NextUser(st, r))
  {
    hide UserMsg, Connection, Inv;
    var name, copy := r.msg.params[0], Stored(r.msg);
    var u := User(name, copy);
    if UserMsg(st.users, name).None? {
      UserAddKeepsInv(st, u);
      UserMsgAdd(st.users, u, name);
      UserlessNotConnected(st, name);
      if name in st.nicks && |r.msg.params| == 4 {
        ConnectKeepsInv(st.(users := st.users + [u]), Connected(name, r.fd, copy));
      }
    }
  }

  /** No step adds a name that is already connected: the hash table is never asked to hold a key twice. */
  lemma AddsNewNames(st: State, r: Request)
    requires Inv(st)
    ensures forall i :: |st.connected| <= i < |Next(st, r).connected| ==>
              Connection(st.connected, Next(st, r).connected[i].name).None?
  {
    hide UserMsg, Connection;
    if r.msg.params != [] { UserlessNotConnected(st, r.msg.params[0]); }
  }

  lemma {:induction false} RunKeepsInv(st: State, reqs: seq<Request>)
    requires Inv(st)
    ensures Inv(Run(st, reqs))
  {
    hide Inv;
    if reqs == [] {
    } else {
      var before, r := Run(st, reqs[..|reqs| - 1]), reqs[|reqs| - 1];
      RunKeepsInv(st, reqs[..|reqs| - 1]);
      if |r.msg.params| == 1 { NickKeepsInv(before, r); }
      if |r.msg.params| >= 4 { UserKeepsInv(before, r); }
    }
  }

  // ---------- the state in terms of the history ----------

  /** A NICK that names x, and a USER with enough parameters that does. */
  predicate NickOf(r: Request, x: string) { IsNick(r) && r.msg.params == [x] }

  predicate UserOf(r: Request, x: string) { IsUser(r) && |r.msg.params| >= 4 && r.msg.params[0] == x }

  /** The first of each in a run. */
  function FirstNick(reqs: seq<Request>, x: string): (k: Option<nat>)
    ensures k.Some? ==> k.value < |reqs| && NickOf(reqs[k.value], x)
    ensures forall i :: 0 <= i < (if k.Some? then k.value else |reqs|) ==> !NickOf(reqs[i], x)
  {
    if reqs == [] then None
    else
      var k, last := FirstNick(reqs[..|reqs| - 1], x), reqs[|reqs| - 1];
      if k.Some? then k
      else if NickOf(last, x) then Some(|reqs| - 1)
      else None
  }

  function FirstUser(reqs: seq<Request>, x: string): (k: Option<nat>)
    ensures k.Some? ==> k.value < |reqs| && UserOf(reqs[k.value], x)
    ensures forall i :: 0 <= i < (if k.Some? then k.value else |reqs|) ==> !UserOf(reqs[i], x)
  {
    if reqs == [] then None
    else
      var k, last := FirstUser(reqs[..|reqs| - 1], x), reqs[|reqs| - 1];
      if k.Some? then k
      else if UserOf(last, x) then Some(|reqs| - 1)
      else None
  }

  /** x sent NICK first and then a USER with more than four parameters. */
  predicate Stranded(reqs: seq<Request>, x: string) {
    var n, u := FirstNick(reqs, x), FirstUser(reqs, x);
    n.Some? && u.Some? && n.value < u.value && |reqs[u.value].msg.params| > 4
  }

  /** The entry the connection table should have for x. */
  function Expected(reqs: seq<Request>, x: string): Option<Connected> {
    var n, u := FirstNick(reqs, x), FirstUser(reqs, x);
    if n.None? || u.None? || Stranded(reqs, x) then None
    else
      var last := if n.value < u.value then u.value else n.value;
      Some(Connected(x, reqs[last].fd, Stored(reqs[u.value].msg)))
  }

  ghost predicate Agrees(st: State, reqs: seq<Request>, x: string) {
    && (x in st.nicks <==> FirstNick(reqs, x).Some?)
    && UserMsg(st.users, x) ==
         (if FirstUser(reqs, x).Some? then Some(Stored(reqs[FirstUser(reqs, x).value].msg)) else None)
    && Connection(st.connected, x) == Expected(reqs, x)
  }

  lemma FirstStep(before: seq<Request>, r: Request, x: string)
    ensures var reqs, n, u := before + [r], FirstNick(before, x), FirstUser(before, x);
            && FirstNick(reqs, x) == (if n.Some? then n else if NickOf(r, x) then Some(|before|) else None)
            && FirstUser(reqs, x) == (if u.Some? then u else if UserOf(r, x) then Some(|before|) else None)
    ensures !(NickOf(r, x) && UserOf(r, x))
    ensures FirstNick(before + [r], x) == FirstNick(before, x) && FirstUser(before + [r], x) == FirstUser(before, x) ==>
              Expected(before + [r], x) == Expected(before, x)
  {
    assert (before + [r])[..|before|] == before;
  }

  lemma NickStep(st: State, before: seq<Request>, r: Request, x: string)
    requires Agrees(st, before, x) && NickOf(r, x)
    ensures Agrees(Next(st, r), before + [r], x)
  {
    FirstStep(before, r, x);
    hide FirstNick, FirstUser, UserMsg, Connection;
    var reg := UserMsg(st.users, x);
    if reg.Some? { ConnectionAdd(st.connected, Connected(x, r.fd, Stored(reg.value)), x); }
  }

  lemma UserStep(st: State, before: seq<Request>, r: Request, x: string)
    requires Agrees(st, before, x) && UserOf(r, x)
    ensures Agrees(Next(st, r), before + [r], x)
  {
    FirstStep(before, r, x);
    hide FirstNick, FirstUser, UserMsg, Connection;
    assert r.msg.cmd[0] == 'U';
    UserMsgAdd(st.users, User(x, Stored(r.msg)), x);
    ConnectionAdd(st.connected, Connected(x, r.fd, Stored(r.msg)), x);
  }

  /** A command about another name changes nothing for x. */
  lemma OtherStep(st: State, r: Request, x: string)
    requires !NickOf(r, x) && !UserOf(r, x)
    ensures var t := Next(st, r);
            && (x in t.nicks <==> x in st.nicks) && UserMsg(t.users, x) == UserMsg(st.users, x)
            && Connection(t.connected, x) == Connection(st.connected, x)
  {
    if IsNick(r) && |r.msg.params| == 1 {
      var name := r.msg.params[0];
      var reg := UserMsg(st.users, name);
      if reg.Some? { ConnectionAdd(st.connected, Connected(name, r.fd, Stored(reg.value)), x); }
    } else if !IsNick(r) && IsUser(r) && |r.msg.params| >= 4 {
      var name := r.msg.params[0];
      UserMsgAdd(st.users, User(name, Stored(r.msg)), x);
      ConnectionAdd(st.connected, Connected(name, r.fd, Stored(r.msg)), x);
    }
  }

  lemma HistoryStep(st: State, before: seq<Request>, r: Request, x: string)
    requires Agrees(st, before, x)
    ensures Agrees(Next(st, r), before + [r], x)
  {
    hide FirstNick, FirstUser, Next, Expected, UserMsg, Connection;
    FirstStep(before, r, x);
    if NickOf(r, x) {
      NickStep(st, before, r, x);
    } else if UserOf(r, x) {
      UserStep(st, before, r, x);
    } else {
      OtherStep(st, r, x);
    }
  }

  /** After any run, what the server knows of a name is decided by the first NICK and the first USER for it. */
  lemma {:induction false} History(reqs: seq<Request>, x: string)
    ensures Agrees(Run(START, reqs), reqs, x)
  {
    if reqs == [] {
    } else {
      var before, r := reqs[..|reqs| - 1], reqs[|reqs| - 1];
      History(before, x);
      HistoryStep(Run(START, before), before, r, x);
      assert before + [r] == reqs;
    }
  }

  /** Once some USER has named x, its user entry keeps, for good, the command and all parameters of the first that
      did, and so does its connection entry, when there is one. */
  lemma FirstUserIsKept(reqs: seq<Request>, x: string, k: nat)
    requires k < |reqs| && UserOf(reqs[k], x) && forall i :: 0 <= i < k ==> !UserOf(reqs[i], x)
    ensures var st := Run(START, reqs);
            && UserMsg(st.users, x).Some? && IsCopy(UserMsg(st.users, x).value, reqs[k].msg)
            && (Connection(st.connected, x).Some? ==>
                  IsCopy(Connection(st.connected, x).value.msg, reqs[k].msg))
  {
    hide Run, UserMsg, Connection;
    History(reqs, x);
    var u := FirstUser(reqs, x);
    assert u == Some(k);
  }

  predicate Listed(st: State, x: string) { x in st.nicks && UserMsg(st.users, x).Some? }

  predicate IsConnected(st: State, x: string) { Connection(st.connected, x).Some? }

  /** A name in both lists is connected unless it is stranded. */
  lemma StrandedIsTheGap(reqs: seq<Request>, x: string)
    ensures var st := Run(START, reqs);
            && (IsConnected(st, x) ==> Listed(st, x))
            && (Stranded(reqs, x) <==> Listed(st, x) && !IsConnected(st, x))
  {
    History(reqs, x);
  }

  /** The connection table is the intersection of the two lists exactly when no name is stranded. */
  lemma ConnectedIsIntersection(reqs: seq<Request>)
    ensures var st := Run(START, reqs);
            (forall x :: IsConnected(st, x) <==> Listed(st, x)) <==> (forall x :: !Stranded(reqs, x))
  {
    hide Run, IsConnected, Listed, Stranded;
    var st := Run(START, reqs);
    if x :| Stranded(reqs, x) {
      StrandedIsTheGap(reqs, x);
    } else {
      forall x ensures IsConnected(st, x) <==> Listed(st, x) { StrandedIsTheGap(reqs, x); }
    }
  }

  /** In particular when every USER has four parameters, or too few. */
  lemma FourParametersStrandNobody(reqs: seq<Request>, x: string)
    requires forall i :: 0 <= i < |reqs| && IsUser(reqs[i]) ==> |reqs[i].msg.params| <= 4
    ensures !Stranded(reqs, x)
    ensures IsConnected(Run(START, reqs), x) <==> Listed(Run(START, reqs), x)
  {
    StrandedIsTheGap(reqs, x);
  }

  /** A stranded name stays so: nothing that is sent later connects it. */
  lemma {:induction false} StrandedForGood(reqs: seq<Request>, more: seq<Request>, x: string)
    requires Stranded(reqs, x)
    ensures Stranded(reqs + more, x)
    ensures Connection(Run(START, reqs + more).connected, x).None?
  {
    hide FirstNick, FirstUser, Run, Connection, UserMsg;
    History(reqs + more, x);
    if more == [] {
      assert reqs + more == reqs;
    } else {
      var rest, last := more[..|more| - 1], more[|more| - 1];
      StrandedForGood(reqs, rest, x);
      FirstStep(reqs + rest, last, x);
      assert reqs + more == reqs + rest + [last];
    }
  }

  /** A run that strands a name: NICK, then USER with five parameters. */
  lemma StrandedExample(a: Request, b: Request, x: string)
    requires a.msg.cmd == "NICK" && a.msg.params == [x]
    requires b.msg.cmd == "USER" && |b.msg.params| == 5 && b.msg.params[0] == x
    ensures Stranded([a, b], x)
    ensures Listed(Run(START, [a, b]), x) && !IsConnected(Run(START, [a, b]), x)
  {
    assert "NICK"[..4] == "NICK" && "USER"[..4] == "USER";
    assert [a, b][..1] == [a] && [a][..0] == [];
    assert IsNick(a) && NickOf(a, x) && !NickOf(b, x);
    assert IsUser(b) && UserOf(b, x) && !UserOf(a, x);
    assert FirstNick([a], x) == Some(0) && FirstUser([a], x) == None;
    StrandedIsTheGap([a, b], x);
  }

  /** Whatever registration stores prints to a line that parses to it again. */
  lemma RegisteredReadsBack(line: string, r: Request)
    requires Normal(line) && Parse(line) == Some(r.msg) && (IsNick(r) || IsUser(r))
    ensures Parse(PrintBody(Stored(r.msg))) == Some(Stored(r.msg)) && IsCopy(Stored(r.msg), r.msg)
  {
    StoredReadsBack(line);
    assert r.msg.cmd[..1][0] == r.msg.cmd[0] != ':';
  }
}
