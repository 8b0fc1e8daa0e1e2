/** The lists of my_utils.h and the NICK and USER branches of main.c, which work on them in place. */
module RegistrationServer {
  import opened Elements
  import opened BucketChains
  import opened HashTable
  import opened Message
  import opened MessageBuilder
  import opened Options
  import opened Registration

  /** The room for a name, with its NUL. */
  const NAME_SIZE: nat := 128

  /** user_node_t; the nodes of the nick list carry no message. */
  class UserNode {
    const name: string
    const msg: Option<Msg>
    var next: UserNode?

    constructor (name: string, msg: Option<Msg>)
      requires |name| < NAME_SIZE
      ensures this.name == name && this.msg == msg && next == null
    {
      this.name, this.msg, next := name, msg, null;
    }
  }

  ghost function NodeAt(nodes: seq<UserNode>, i: nat): UserNode? {
    if i < |nodes| then nodes[i] else null
  }

  ghost predicate Linked(head: UserNode?, nodes: seq<UserNode>)
    reads nodes
  {
    && NoDup(nodes) && head == NodeAt(nodes, 0)
    && forall i {:trigger nodes[i].next} :: 0 <= i < |nodes| ==> nodes[i].next == NodeAt(nodes, i + 1)
  }

  /** find_user_node. */
  method FindUserNode(head: UserNode?, name: string, ghost nodes: seq<UserNode>) returns (node: UserNode?, ghost k: nat)
    requires Linked(head, nodes)
    ensures node == NodeAt(nodes, k) && k <= |nodes|
    ensures node != null ==> node.name == name
    ensures forall i :: 0 <= i < k ==> nodes[i].name != name
  {
    node, k := head, 0;
    while node != null
      invariant k <= |nodes| && node == NodeAt(nodes, k)
      invariant forall i :: 0 <= i < k ==> nodes[i].name != name
      decreases |nodes| - k
    {
      if |node.name| == |name| && node.name[..|name|] == name { break; }
      node := node.next;
      k := k + 1;
    }
  }

  /** add_user_node, and the test for an empty list before it. */
  method AddUserNode(head0: UserNode?, node: UserNode, ghost nodes: seq<UserNode>) returns (head: UserNode)
    requires Linked(head0, nodes) && node !in nodes && node.next == null
    modifies nodes
    ensures Linked(head, nodes + [node])
  {
    if head0 == null {
      head := node;
    } else {
      head := head0;
      var last := head0;
      ghost var k := 0;
      while last.next != null
        invariant k < |nodes| && last == nodes[k]
        decreases |nodes| - k
      {
        last := last.next;
        k := k + 1;
      }
      last.next := node;
    }
  }

  ghost function Names(nodes: seq<UserNode>): seq<string> {
    seq(|nodes|, i requires 0 <= i < |nodes| => nodes[i].name)
  }

  ghost predicate HaveMessages(nodes: seq<UserNode>) {
    forall i :: 0 <= i < |nodes| ==> nodes[i].msg.Some? && |nodes[i].msg.value.params| <= MAX_PARAMS
  }

  ghost function Users(nodes: seq<UserNode>): seq<User>
    requires HaveMessages(nodes)
  {
    seq(|nodes|, i requires 0 <= i < |nodes| => User(nodes[i].name, nodes[i].msg.value))
  }

  /** The walk's answer in terms of the lists of the state. */
  lemma FoundName(nodes: seq<UserNode>, name: string, k: nat)
    requires k <= |nodes| && forall i :: 0 <= i < k ==> nodes[i].name != name
    requires k < |nodes| ==> nodes[k].name == name
    ensures name in Names(nodes) <==> k < |nodes|
  {
    if k < |nodes| { assert Names(nodes)[k] == name; }
  }

  lemma {:induction false} FoundUser(nodes: seq<UserNode>, name: string, k: nat)
    requires HaveMessages(nodes) && k <= |nodes| && forall i :: 0 <= i < k ==> nodes[i].name != name
    requires k < |nodes| ==> nodes[k].name == name
    ensures UserMsg(Users(nodes), name) == if k < |nodes| then nodes[k].msg else None
  {
    if k == 0 {
    } else {
      FoundUser(nodes[1..], name, k - 1);
      assert Users(nodes)[1..] == Users(nodes[1..]);
    }
  }

  lemma FoundConnection(order: seq<Element<Connected>>, name: string)
    ensures Connection(Data(order), name).None? <==> forall i :: 0 <= i < |order| ==> order[i].data.name != name
  {
    ConnectionOf(Data(order), name);
    assert forall i :: 0 <= i < |order| ==> Data(order)[i] == order[i].data;
  }

  /** A command the buffers have room for. */
  predicate Storable(r: Request) {
    |r.msg.params| <= MAX_PARAMS && (r.msg.params != [] ==> |r.msg.params[0]| < NAME_SIZE)
  }

  /** The globals of main.c. */
  class Server {
    var nickHead: UserNode?
    var userHead: UserNode?
    const connections: HashTable<string, Connected>

    ghost var nicks: seq<UserNode>
    ghost var users: seq<UserNode>

    ghost predicate ListsOk()
      reads this, nicks, users
    {
      && Linked(nickHead, nicks) && Linked(userHead, users) && HaveMessages(users)
      && (forall i, j :: 0 <= i < |nicks| && 0 <= j < |users| ==> nicks[i] != users[j])
      && (forall c :: connections.keyOf(c) == c.name)
    }

    ghost function Value(): State
      requires HaveMessages(users)
      reads this, connections
    {
      State(Names(nicks), Users(users), Data(connections.order))
    }

    ghost predicate Valid()
      reads this, nicks, users
      reads connections, connections.buckets, connections.order, Members(connections.chains)
    {
      ListsOk() && connections.Valid() && Inv(Value())
    }

    constructor (hash: string -> nat)
      ensures Valid() && Value() == START && fresh(connections) && fresh(connections.buckets)
    {
      nickHead, userHead, nicks, users := null, null, [], [];
      connections := new HashTable<string, Connected>((c: Connected) => c.name, hash);
    }

    /** The hash table entry of a newly registered name. */
    method Connect(c: Connected)
      requires ListsOk() && connections.Valid()
      requires Connection(Data(connections.order), c.name).None?
      modifies connections, connections.buckets, connections.order
      ensures ListsOk() && connections.Valid()
      ensures Data(connections.order) == old(Data(connections.order)) + [c]
      ensures |connections.order| > 0 && fresh(connections.order[|connections.order| - 1])
      ensures connections.order[..|connections.order| - 1] == old(connections.order)
      ensures connections.buckets == old(connections.buckets) || fresh(connections.buckets)
    {
      hide HashTable.Valid, Linked, Connection, NoDup;
      FoundConnection(connections.order, c.name);
      ghost var members := Members(connections.chains);
      var e := new Element<Connected>(c);
      assert members == Members(connections.chains);
      assert connections.Valid();
      assert e !in connections.order;
      connections.Add(e);
    }

    /** A new node at the end of the nick list. */
    method ListNick(name: string)
      requires ListsOk() && |name| < NAME_SIZE
      modifies this`nickHead, this`nicks, nicks
      ensures ListsOk() && |nicks| > 0 && fresh(nicks[|nicks| - 1])
      ensures nicks[..|nicks| - 1] == old(nicks) && Names(nicks) == old(Names(nicks)) + [name]
    {
      var node := new UserNode(name, None);
      nickHead := AddUserNode(nickHead, node, nicks);
      nicks := nicks + [node];
    }

    /** A new node at the end of the user list. */
    method ListUser(name: string, msg: Msg)
      requires ListsOk() && |name| < NAME_SIZE && |msg.params| <= MAX_PARAMS
      modifies this`userHead, this`users, users
      ensures ListsOk() && |users| > 0 && fresh(users[|users| - 1])
      ensures users[..|users| - 1] == old(users) && Users(users) == old(Users(users)) + [User(name, msg)]
    {
      var node := new UserNode(name, Some(msg));
      userHead := AddUserNode(userHead, node, users);
      users := users + [node];
    }

    /** find_connection_map_node. */
    method FindConnection(name: string) returns (found: bool)
      requires ListsOk() && connections.Valid()
      ensures found <==> Connection(Data(connections.order), name).Some?
    {
      hide HashTable.Valid, Linked, Connection, NoDup;
      FoundConnection(connections.order, name);
      var e := connections.Find(name);
      found := e != null;
    }

    method FindNick(name: string) returns (found: bool)
      requires ListsOk()
      ensures found <==> name in Names(nicks)
    {
      var node;
      ghost var k;
      node, k := FindUserNode(nickHead, name, nicks);
      FoundName(nicks, name, k);
      found := node != null;
    }

    method FindUser(name: string) returns (msg: Option<Msg>)
      requires ListsOk()
      ensures msg == UserMsg(Users(users), name) && (msg.Some? ==> |msg.value.params| <= MAX_PARAMS)
    {
      var node;
      ghost var k;
      node, k := FindUserNode(userHead, name, users);
      FoundUser(users, name, k);
      msg := if node != null then node.msg else None;
    }

    /** What the server can reach and change. */
    ghost function Owned(): set<object>
      reads this, connections
    {
      {this, connections, connections.buckets}
        + (set i | 0 <= i < |nicks| :: nicks[i])
        + (set i | 0 <= i < |users| :: users[i])
        + (set i | 0 <= i < |connections.order| :: connections.order[i])
    }

    /** A new nick, which is connected if its USER came before. */
    method RegisterNick(name: string, fd: int)
      requires ListsOk() && connections.Valid() && |name| < NAME_SIZE
      requires Connection(Data(connections.order), name).None?
      modifies this`nickHead, this`nicks, nicks, connections, connections.buckets, connections.order
      ensures ListsOk() && connections.Valid() && fresh(Owned() - old(Owned()))
      ensures var st, reg := old(Value()), UserMsg(old(Value()).users, name);
              Value() == State(st.nicks + [name], st.users,
                if reg.Some? then st.connected + [Connected(name, fd, Stored(reg.value))] else st.connected)
    {
      hide HashTable.Valid, Linked, NoDup, Connection, Names, UserMsg, Users;
      ghost var members := Members(connections.chains);
      ListNick(name);
      var user := FindUser(name);
      assert members == Members(connections.chains);
      if user.Some? {
        var copy := Store(user.value);
        assert members == Members(connections.chains);
        Connect(Connected(name, fd, copy));
      }
    }

    /** The NICK branch with one parameter. */
    method HandleNick(r: Request)
      requires Valid() && Storable(r) && |r.msg.params| == 1
      modifies this`nickHead, this`nicks, nicks, connections, connections.buckets, connections.order
      ensures Valid() && Value() == NextNick(old(Value()), r)
      ensures fresh(Owned() - old(Owned()))
    {
      hide HashTable.Valid, Inv, Linked, NoDup, Connection, Names, UserMsg, Users;
      ghost var st, members := Value(), Members(connections.chains);
      NickKeepsInv(st, r);
      var name := r.msg.params[0];
      var connected := FindConnection(name);
      if !connected {
        var listed := FindNick(name);
        assert members == Members(connections.chains);
        if !listed { RegisterNick(name, r.fd); }
      }
    }

    /** A new user, which is connected if its NICK came before and it has exactly four parameters. */
    method RegisterUser(name: string, r: Request)
      requires ListsOk() && connections.Valid() && |name| < NAME_SIZE && |r.msg.params| <= MAX_PARAMS
      requires Connection(Data(connections.order), name).None?
      modifies this`userHead, this`users, users, connections, connections.buckets, connections.order
      ensures ListsOk() && connections.Valid() && fresh(Owned() - old(Owned()))
      ensures var st, copy := old(Value()), Stored(r.msg);
              Value() == State(st.nicks, st.users + [User(name, copy)],
                if name in st.nicks && |r.msg.params| == 4
                then st.connected + [Connected(name, r.fd, copy)] else st.connected)
    {
      hide HashTable.Valid, Linked, NoDup, Connection, Names, UserMsg, Users;
      ghost var members := Members(connections.chains);
      var copy := Store(r.msg);
      assert members == Members(connections.chains);
      ListUser(name, copy);
      var listed := FindNick(name);
      assert members == Members(connections.chains);
      if listed && |r.msg.params| == 4 { Connect(Connected(name, r.fd, copy)); }
    }

    /** The USER branch with enough parameters. */
    method HandleUser(r: Request)
      requires Valid() && Storable(r) && |r.msg.params| >= 4
      modifies this`userHead, this`users, users, connections, connections.buckets, connections.order
      ensures Valid() && Value() == NextUser(old(Value()), r)
      ensures fresh(Owned() - old(Owned()))
    {
      hide HashTable.Valid, Inv, Linked, NoDup, Connection, Names, UserMsg, Users;
      ghost var st, members := Value(), Members(connections.chains);
      UserKeepsInv(st, r);
      var name := r.msg.params[0];
      UserlessNotConnected(st, name);
      var user := FindUser(name);
      assert members == Members(connections.chains);
      if user.None? { RegisterUser(name, r); }
    }

    /** One whole command. */
    method Handle(r: Request)
      requires Valid() && Storable(r)
      modifies Owned()
      ensures Valid() && Value() == Next(old(Value()), r)
      ensures fresh(Owned() - old(Owned()))
    {
      hide HashTable.Valid, Inv, Linked, NoDup, NextNick, NextUser, HaveMessages;
      if IsNick(r) {
        if |r.msg.params| == 1 { HandleNick(r); }
      } else if IsUser(r) {
        if |r.msg.params| >= 4 { HandleUser(r); }
      }
    }

    /** Commands of all connections, in whatever order they come. */
    method HandleAll(reqs: seq<Request>)
      requires Valid() && forall i :: 0 <= i < |reqs| ==> Storable(reqs[i])
      modifies Owned()
      ensures Valid() && Value() == Run(old(Value()), reqs)
    {
      hide HashTable.Valid, Inv, Linked, NoDup, Next, HaveMessages, Storable;
      var i := 0;
      while i < |reqs|
        invariant i <= |reqs| && Valid() && Value() == Run(old(Value()), reqs[..i])
        invariant fresh(Owned() - old(Owned()))
      {
        assert reqs[..i + 1][..i] == reqs[..i];
        Handle(reqs[i]);
        i := i + 1;
      }
      assert reqs[..i] == reqs;
    }
  }
}
