/** chirc_message_construct and chirc_message_add_parameter, and the copies that registration keeps. */
module MessageBuilder {
  import opened Message
  import opened Options

  /** chirc_message_t as a builder fills it in. */
  class MessageStruct {
    var prefix: Option<string>
    var cmd: string
    const params: array<string>
    var nparams: nat
    var longlast: bool

    ghost predicate Valid()
      reads this
    {
      nparams <= params.Length == MAX_PARAMS
    }

    function Value(): Msg
      requires Valid()
      reads this, params
    {
      Msg(prefix, cmd, params[..nparams], longlast)
    }

    /** chirc_message_construct. */
    constructor (prefix: Option<string>, cmd: string)
      ensures Valid() && fresh(params) && Value() == Msg(prefix, cmd, [], false)
    {
      this.prefix, this.cmd, nparams, longlast := prefix, cmd, 0, false;
      params := new string[MAX_PARAMS](_ => "");
    }

    /** chirc_message_add_parameter. */
    method AddParameter(param: string, longlast: bool)
      requires Valid() && nparams < MAX_PARAMS
      modifies this, params
      ensures Valid() && nparams == old(nparams) + 1
      ensures Value() == old(Value()).(params := old(Value()).params + [param], longlast := longlast)
    {
      params[nparams] := param;
      nparams := nparams + 1;
      this.longlast := longlast;
    }
  }

  /** The copy of a message that registration stores: no prefix, and the last parameter long. */
  function Stored(m: Msg): Msg { Msg(None, m.cmd, m.params, m.params != []) }

  /** c has the command and all parameters of m, in order, and no prefix. */
  predicate IsCopy(c: Msg, m: Msg) { c.prefix.None? && c.cmd == m.cmd && c.params == m.params }

  /** The copying loop of the NICK and USER branches. */
  method Store(m: Msg) returns (copy: Msg)
    requires |m.params| <= MAX_PARAMS
    ensures copy == Stored(m) && IsCopy(copy, m)
  {
    var msg := new MessageStruct(None, m.cmd);
    var i := 0;
    while i < |m.params|
      invariant i == msg.nparams <= |m.params| && msg.Valid() && fresh(msg) && fresh(msg.params)
      invariant msg.Value() == Msg(None, m.cmd, m.params[..i], 0 < i == |m.params|)
    {
      msg.AddParameter(m.params[i], i == |m.params| - 1);
      i := i + 1;
    }
    assert m.params[..i] == m.params;
    copy := msg.Value();
  }

  /** What is stored of a parsed line prints to a line that parses to it again, unless the command
      stood behind a prefix and starts with the colon that marks one. */
  lemma StoredReadsBack(line: string)
    requires Normal(line) && Parse(line).Some?
    ensures var m := Stored(Parse(line).value);
            Parse(PrintBody(m)) == Some(m) <==> m.cmd[..1] != ":"
    ensures var m := Parse(line).value;
            m.cmd[..1] != ":" ==>
              Parse(PrintBody(Stored(m))).Some? && IsCopy(Parse(PrintBody(Stored(m))).value, m)
  {
    var m := Parse(line).value;
    ParsedShape(line);
    ParsePrintParse(line);
    PrintThenParse(Stored(m));
    assert m.cmd[..1] == [m.cmd[0]];
    assert WellFormedParams(m.params, m.params != []);
  }
}
