/** Channel membership of channeluser.c: one struct, filed both with its user and with its channel. */
module ChannelUsers {
  import opened Elements
  import opened HashTable
  import opened OwnedTable

  /** The two hash handles of chirc_channeluser_t. Pointers to users and channels, which are the keys, are
      modelled by numbers. */
  datatype UserSide = UserSide(user: nat, channel: nat)
  datatype ChannelSide = ChannelSide(channel: nat, user: nat)

  class ChannelUser {
    const user: nat
    const channel: nat
    const fromUser: Element<UserSide>
    const fromChannel: Element<ChannelSide>

    constructor (channel: nat, user: nat)
      ensures this.user == user && this.channel == channel && fresh(fromUser) && fresh(fromChannel)
      ensures fromUser.data == UserSide(user, channel) && fromChannel.data == ChannelSide(channel, user)
    {
      this.user, this.channel := user, channel;
      fromUser := new Element<UserSide>(UserSide(user, channel));
      fromChannel := new Element<ChannelSide>(ChannelSide(channel, user));
    }
  }

  type Pairs = map<(nat, nat), ChannelUser>
  type Structs = map<Element<ChannelSide>, ChannelUser>

  /** cu is filed with its user and with its channel. */
  ghost predicate FiledTwice(uo: seq<seq<Element<UserSide>>>, co: seq<seq<Element<ChannelSide>>>, cu: ChannelUser) {
    && cu.user < |uo| && cu.fromUser in uo[cu.user] && cu.fromUser.data == UserSide(cu.user, cu.channel)
    && cu.channel < |co| && cu.fromChannel in co[cu.channel] && cu.fromChannel.data == ChannelSide(cu.channel, cu.user)
  }

  /** The memberships, and what the user tables and the channel tables hold, are the same thing. */
  ghost predicate Paired(uo: seq<seq<Element<UserSide>>>, co: seq<seq<Element<ChannelSide>>>,
                         pairs: Pairs, structs: Structs)
  {
    && (forall p :: p in pairs ==> pairs[p].user == p.0 && pairs[p].channel == p.1 && FiledTwice(uo, co, pairs[p]))
    && (forall i, k {:trigger uo[i][k]} :: 0 <= i < |uo| && 0 <= k < |uo[i]| ==>
          uo[i][k].data.user == i && (i, uo[i][k].data.channel) in pairs
          && pairs[(i, uo[i][k].data.channel)].fromUser == uo[i][k])
    && (forall j, k {:trigger co[j][k]} :: 0 <= j < |co| && 0 <= k < |co[j]| ==>
          co[j][k].data.channel == j && (co[j][k].data.user, j) in pairs
          && pairs[(co[j][k].data.user, j)].fromChannel == co[j][k]
          && co[j][k] in structs && structs[co[j][k]] == pairs[(co[j][k].data.user, j)])
  }

  lemma PairedAdd(uo: seq<seq<Element<UserSide>>>, co: seq<seq<Element<ChannelSide>>>, pairs: Pairs, structs: Structs,
                  cu: ChannelUser)
    requires Paired(uo, co, pairs, structs) && cu.user < |uo| && cu.channel < |co| && (cu.user, cu.channel) !in pairs
    requires cu.fromUser.data == UserSide(cu.user, cu.channel)
    requires cu.fromChannel.data == ChannelSide(cu.channel, cu.user)
    ensures Paired(uo[cu.user := uo[cu.user] + [cu.fromUser]], co[cu.channel := co[cu.channel] + [cu.fromChannel]],
                   pairs[(cu.user, cu.channel) := cu], structs[cu.fromChannel := cu])
  {
    var uo', co' := uo[cu.user := uo[cu.user] + [cu.fromUser]], co[cu.channel := co[cu.channel] + [cu.fromChannel]];
    var pairs', structs' := pairs[(cu.user, cu.channel) := cu], structs[cu.fromChannel := cu];
    forall p | p in pairs'
      ensures pairs'[p].user == p.0 && pairs'[p].channel == p.1 && FiledTwice(uo', co', pairs'[p])
    {
      if p in pairs { assert FiledTwice(uo, co, pairs[p]); }
    }
  }

  lemma KeptByRemove<T>(s: seq<T>, k: nat, e: T)
    requires k < |s| && e in s && e != s[k]
    ensures e in RemoveAt(s, k)
  {
    var i :| 0 <= i < |s| && s[i] == e;
    assert RemoveAt(s, k)[if i < k then i else i - 1] == e;
  }

  lemma ApartFromRemoved<T>(s: seq<T>, k: nat)
    requires k < |s| && NoDup(s)
    ensures forall x :: 0 <= x < |s| && x != k ==> s[x] != s[k]
  {}

  lemma PairedRemove(uo: seq<seq<Element<UserSide>>>, co: seq<seq<Element<ChannelSide>>>,
                     pairs: Pairs, structs: Structs, cu: ChannelUser, k: nat, l: nat)
    requires Paired(uo, co, pairs, structs) && (cu.user, cu.channel) in pairs && pairs[(cu.user, cu.channel)] == cu
    requires cu.user < |uo| && k < |uo[cu.user]| && uo[cu.user][k] == cu.fromUser && NoDup(uo[cu.user])
    requires cu.channel < |co| && l < |co[cu.channel]| && co[cu.channel][l] == cu.fromChannel && NoDup(co[cu.channel])
    ensures Paired(uo[cu.user := RemoveAt(uo[cu.user], k)], co[cu.channel := RemoveAt(co[cu.channel], l)],
                   pairs - {(cu.user, cu.channel)}, structs)
  {
    hide RemoveAt, NoDup;
    RemovedAt(uo[cu.user], k);
    RemovedAt(co[cu.channel], l);
    ApartFromRemoved(uo[cu.user], k);
    ApartFromRemoved(co[cu.channel], l);
    var us, cs := RemoveAt(uo[cu.user], k), RemoveAt(co[cu.channel], l);
    var uo', co', pairs' := uo[cu.user := us], co[cu.channel := cs], pairs - {(cu.user, cu.channel)};
    forall p | p in pairs' ensures FiledTwice(uo', co', pairs'[p]) {
      var other := pairs[p];
      assert FiledTwice(uo, co, other) && FiledTwice(uo, co, cu);
      if other.user == cu.user { KeptByRemove(uo[cu.user], k, other.fromUser); }
      if other.channel == cu.channel { KeptByRemove(co[cu.channel], l, other.fromChannel); }
    }
  }

  ghost function PairsOfUser(user: nat, order: seq<Element<UserSide>>): seq<(nat, nat)> {
    seq(|order|, k requires 0 <= k < |order| => (user, order[k].data.channel))
  }

  ghost function PairsOfChannel(channel: nat, order: seq<Element<ChannelSide>>): seq<(nat, nat)> {
    seq(|order|, k requires 0 <= k < |order| => (order[k].data.user, channel))
  }

  lemma KeysDistinct(n: Network)
    requires n.Valid()
    ensures forall i :: 0 <= i < |n.users| ==> NoDup(PairsOfUser(i, n.userOrders[i]))
    ensures forall j :: 0 <= j < |n.channels| ==> NoDup(PairsOfChannel(j, n.channelOrders[j]))
  {
    hide HashTable.Valid, Paired;
    forall i | 0 <= i < |n.users| ensures NoDup(PairsOfUser(i, n.userOrders[i])) {
      assert n.users[i].Valid() && n.users[i].table.order == n.userOrders[i];
      UniqueKeys(n.users[i].table);
    }
    forall j | 0 <= j < |n.channels| ensures NoDup(PairsOfChannel(j, n.channelOrders[j])) {
      assert n.channels[j].Valid() && n.channels[j].table.order == n.channelOrders[j];
      UniqueKeys(n.channels[j].table);
    }
  }

  lemma UserSideElems(uo: seq<seq<Element<UserSide>>>, co: seq<seq<Element<ChannelSide>>>,
                      pairs: Pairs, structs: Structs, user: nat)
    requires Paired(uo, co, pairs, structs) && user < |uo|
    ensures Elems(PairsOfUser(user, uo[user])) == set p | p in pairs && p.0 == user
  {
    var order := uo[user];
    forall p | p in pairs && p.0 == user ensures p in Elems(PairsOfUser(user, order)) {
      assert FiledTwice(uo, co, pairs[p]);
      var k :| 0 <= k < |order| && order[k] == pairs[p].fromUser;
      assert PairsOfUser(user, order)[k] == p;
    }
    forall k | 0 <= k < |order| ensures PairsOfUser(user, order)[k] in pairs {
      assert uo[user][k].data.user == user;
    }
  }

  lemma ChannelSideElems(uo: seq<seq<Element<UserSide>>>, co: seq<seq<Element<ChannelSide>>>, pairs: Pairs,
                         structs: Structs, channel: nat)
    requires Paired(uo, co, pairs, structs) && channel < |co|
    ensures Elems(PairsOfChannel(channel, co[channel])) == set p | p in pairs && p.1 == channel
  {
    var order := co[channel];
    forall p | p in pairs && p.1 == channel ensures p in Elems(PairsOfChannel(channel, order)) {
      assert FiledTwice(uo, co, pairs[p]);
      var k :| 0 <= k < |order| && order[k] == pairs[p].fromChannel;
      assert PairsOfChannel(channel, order)[k] == p;
    }
    forall k | 0 <= k < |order| ensures PairsOfChannel(channel, order)[k] in pairs {
      assert co[channel][k].data.channel == channel;
    }
  }

  lemma FiledAndDistinct(n: Network, cu: ChannelUser)
    requires n.Valid() && (cu.user, cu.channel) in n.pairs && n.pairs[(cu.user, cu.channel)] == cu
    ensures FiledTwice(n.userOrders, n.channelOrders, cu)
    ensures NoDup(n.userOrders[cu.user]) && NoDup(n.channelOrders[cu.channel])
  {
    hide HashTable.Valid;
    assert FiledTwice(n.userOrders, n.channelOrders, cu);
    assert n.users[cu.user].Valid() && n.channels[cu.channel].Valid();
    UniqueKeys(n.users[cu.user].table);
    UniqueKeys(n.channels[cu.channel].table);
  }

  /** A pair is looked up in the channel's table alone. */
  lemma AbsentPair(uo: seq<seq<Element<UserSide>>>, co: seq<seq<Element<ChannelSide>>>, pairs: Pairs, structs: Structs,
                   channel: nat, user: nat)
    requires Paired(uo, co, pairs, structs) && channel < |co|
    ensures (user, channel) in pairs <==> exists k :: 0 <= k < |co[channel]| && co[channel][k].data.user == user
    ensures (user, channel) !in pairs && user < |uo| ==>
              forall k :: 0 <= k < |uo[user]| ==> uo[user][k].data.channel != channel
  {
    if (user, channel) in pairs { assert FiledTwice(uo, co, pairs[(user, channel)]); }
  }

  /** What a look-up in the channel's table finds. */
  lemma Answer(uo: seq<seq<Element<UserSide>>>, co: seq<seq<Element<ChannelSide>>>, pairs: Pairs, structs: Structs,
               channel: nat, user: nat, e: Element?<ChannelSide>)
    requires Paired(uo, co, pairs, structs) && channel < |co|
    requires e != null ==> e in co[channel] && e.data.user == user
    requires e == null ==> forall k :: 0 <= k < |co[channel]| ==> co[channel][k].data.user != user
    ensures e == null ==> (user, channel) !in pairs
    ensures e != null ==> e in structs && (user, channel) in pairs && structs[e] == pairs[(user, channel)]
  {
    AbsentPair(uo, co, pairs, structs, channel, user);
    if e != null {
      var k :| 0 <= k < |co[channel]| && co[channel][k] == e;
    }
  }

  /** All users and channels of a server. */
  class Network {
    const users: seq<Owner<UserSide>>
    const channels: seq<Owner<ChannelSide>>

    /** The struct around a hash handle, which the C code finds by subtracting an offset. */
    var structs: Structs

    ghost var userOrders: seq<seq<Element<UserSide>>>
    ghost var channelOrders: seq<seq<Element<ChannelSide>>>
    ghost var pairs: Pairs

    ghost var userRepr: set<object>
    ghost var channelRepr: set<object>

    ghost predicate TablesOk()
      reads this, users, userRepr, channels, channelRepr
    {
      && AllValid(users, userOrders, userRepr) && |userOrders| == |users|
      && AllValid(channels, channelOrders, channelRepr) && |channelOrders| == |channels|
      && userRepr !! channelRepr && this !in userRepr && this !in channelRepr
      && (forall i, d :: 0 <= i < |users| ==> users[i].table.keyOf(d) == d.channel)
      && (forall j, d :: 0 <= j < |channels| ==> channels[j].table.keyOf(d) == d.user)
    }

    ghost predicate Valid()
      reads this, users, userRepr, channels, channelRepr
    {
      TablesOk() && Paired(userOrders, channelOrders, pairs, structs)
    }

    /** Users and channels without members. */
    constructor (users: seq<Owner<UserSide>>, channels: seq<Owner<ChannelSide>>,
                 ghost userRepr: set<object>, ghost channelRepr: set<object>)
      requires AllValid(users, seq(|users|, _ => []), userRepr)
      requires AllValid(channels, seq(|channels|, _ => []), channelRepr)
      requires userRepr !! channelRepr
      requires forall i, d :: 0 <= i < |users| ==> users[i].table.keyOf(d) == d.channel
      requires forall j, d :: 0 <= j < |channels| ==> channels[j].table.keyOf(d) == d.user
      ensures Valid() && pairs == map[]
      ensures this.users == users && this.channels == channels
      ensures this.userRepr == userRepr && this.channelRepr == channelRepr
    {
      this.users, this.channels, this.userRepr, this.channelRepr := users, channels, userRepr, channelRepr;
      userOrders, channelOrders := seq(|users|, _ => []), seq(|channels|, _ => []);
      structs, pairs := map[], map[];
      new;
      Within(users, userOrders, userRepr);
      Within(channels, channelOrders, channelRepr);
    }

    /** chirc_channeluser_get. */
    method Get(channel: nat, user: nat) returns (cu: ChannelUser?)
      requires Valid() && channel < |channels|
      ensures Valid()
      ensures cu == if (user, channel) in pairs then pairs[(user, channel)] else null
    {
      hide Owner.Valid, Paired;
      var e := channels[channel].Find(user);
      Answer(userOrders, channelOrders, pairs, structs, channel, user, e);
      cu := if e != null then structs[e] else null;
    }

    /** HASH_ADD with the handle hh_from_user. */
    method AddToUser(cu: ChannelUser)
      requires TablesOk() && cu.user < |users| && cu.fromUser.data == UserSide(cu.user, cu.channel)
      requires cu.fromUser !in userRepr + channelRepr
      requires forall k :: 0 <= k < |userOrders[cu.user]| ==> userOrders[cu.user][k].data.channel != cu.channel
      modifies this`userOrders, this`userRepr, userRepr, cu.fromUser
      ensures TablesOk() && userOrders == old(userOrders)[cu.user := old(userOrders)[cu.user] + [cu.fromUser]]
      ensures fresh(userRepr - old(userRepr) - {cu.fromUser})
    {
      hide AllValid;
      Within(users, userOrders, userRepr);
      Within(channels, channelOrders, channelRepr);
      userRepr := AddTo(users, cu.user, cu.fromUser, userOrders, userRepr);
      userOrders := userOrders[cu.user := userOrders[cu.user] + [cu.fromUser]];
    }

    /** HASH_ADD with the handle hh_from_channel. */
    method AddToChannel(cu: ChannelUser)
      requires TablesOk() && cu.channel < |channels| && cu.fromChannel.data == ChannelSide(cu.channel, cu.user)
      requires cu.fromChannel !in userRepr + channelRepr
      requires forall k :: 0 <= k < |channelOrders[cu.channel]| ==> channelOrders[cu.channel][k].data.user != cu.user
      modifies this`channelOrders, this`channelRepr, channelRepr, cu.fromChannel
      ensures TablesOk()
      ensures channelOrders == old(channelOrders)[cu.channel := old(channelOrders)[cu.channel] + [cu.fromChannel]]
      ensures fresh(channelRepr - old(channelRepr) - {cu.fromChannel})
    {
      hide AllValid;
      Within(users, userOrders, userRepr);
      Within(channels, channelOrders, channelRepr);
      channelRepr := AddTo(channels, cu.channel, cu.fromChannel, channelOrders, channelRepr);
      channelOrders := channelOrders[cu.channel := channelOrders[cu.channel] + [cu.fromChannel]];
    }

    /** Files a new struct with its user, and then with its channel. */
    method FileTwice(cu: ChannelUser)
      requires TablesOk() && cu.user < |users| && cu.channel < |channels|
      requires cu.fromUser.data == UserSide(cu.user, cu.channel)
      requires cu.fromChannel.data == ChannelSide(cu.channel, cu.user)
      requires cu.fromUser !in userRepr + channelRepr && cu.fromChannel !in userRepr + channelRepr
      requires forall k :: 0 <= k < |userOrders[cu.user]| ==> userOrders[cu.user][k].data.channel != cu.channel
      requires forall k :: 0 <= k < |channelOrders[cu.channel]| ==> channelOrders[cu.channel][k].data.user != cu.user
      modifies this`userOrders, this`userRepr, userRepr, cu.fromUser
      modifies this`channelOrders, this`channelRepr, channelRepr, cu.fromChannel
      ensures TablesOk() && userOrders == old(userOrders)[cu.user := old(userOrders)[cu.user] + [cu.fromUser]]
      ensures channelOrders == old(channelOrders)[cu.channel := old(channelOrders)[cu.channel] + [cu.fromChannel]]
      ensures fresh(userRepr - old(userRepr) - {cu.fromUser})
      ensures fresh(channelRepr - old(channelRepr) - {cu.fromChannel})
    {
      hide AllValid;
      AddToUser(cu);
      AddToChannel(cu);
    }

    /** A new membership, filed with its user and then with its channel. */
    method Create(channel: nat, user: nat) returns (cu: ChannelUser)
      requires Valid() && channel < |channels| && user < |users| && (user, channel) !in pairs
      modifies this, userRepr, channelRepr
      ensures Valid() && pairs == old(pairs)[(user, channel) := cu]
      ensures fresh(userRepr - old(userRepr)) && fresh(channelRepr - old(channelRepr))
    {
      hide AllValid, Paired;
      Within(users, userOrders, userRepr);
      Within(channels, channelOrders, channelRepr);
      AbsentPair(userOrders, channelOrders, pairs, structs, channel, user);
      cu := new ChannelUser(channel, user);
      PairedAdd(userOrders, channelOrders, pairs, structs, cu);
      FileTwice(cu);
      structs := structs[cu.fromChannel := cu];
      pairs := pairs[(user, channel) := cu];
    }

    /** chirc_channeluser_get_or_create. */
    method GetOrCreate(channel: nat, user: nat) returns (created: bool, cu: ChannelUser)
      requires Valid() && channel < |channels| && user < |users|
      modifies this, userRepr, channelRepr
      ensures Valid() && created == ((user, channel) !in old(pairs))
      ensures pairs == old(pairs)[(user, channel) := cu] && (!created ==> cu == old(pairs)[(user, channel)])
      ensures fresh(userRepr - old(userRepr)) && fresh(channelRepr - old(channelRepr))
    {
      hide AllValid, Paired;
      var found := Get(channel, user);
      created := found == null;
      if found != null {
        cu := found;
      } else {
        cu := Create(channel, user);
      }
    }

    /** chirc_user_num_channels. */
    method NumChannels(user: nat) returns (n: nat)
      requires Valid() && user < |users|
      ensures n == |set p | p in pairs && p.0 == user|
    {
      hide HashTable.Valid, Paired;
      n := users[user].Count();
      KeysDistinct(this);
      UserSideElems(userOrders, channelOrders, pairs, structs, user);
      CardOfNoDup(PairsOfUser(user, userOrders[user]));
    }

    /** chirc_channel_num_users. */
    method NumUsers(channel: nat) returns (n: nat)
      requires Valid() && channel < |channels|
      ensures n == |set p | p in pairs && p.1 == channel|
    {
      hide HashTable.Valid, Paired;
      n := channels[channel].Count();
      KeysDistinct(this);
      ChannelSideElems(userOrders, channelOrders, pairs, structs, channel);
      CardOfNoDup(PairsOfChannel(channel, channelOrders[channel]));
    }

    method DeleteFromUser(cu: ChannelUser) returns (ghost k: nat)
      requires TablesOk() && cu.user < |users| && cu.fromUser in userOrders[cu.user]
      modifies this`userOrders, userRepr
      ensures k < |old(userOrders)[cu.user]| && old(userOrders)[cu.user][k] == cu.fromUser
      ensures TablesOk() && userOrders == old(userOrders)[cu.user := RemoveAt(old(userOrders)[cu.user], k)]
    {
      hide AllValid;
      Within(users, userOrders, userRepr);
      Within(channels, channelOrders, channelRepr);
      k := DeleteFrom(users, cu.user, cu.fromUser, userOrders, userRepr);
      userOrders := userOrders[cu.user := RemoveAt(userOrders[cu.user], k)];
    }

    method DeleteFromChannel(cu: ChannelUser) returns (ghost k: nat)
      requires TablesOk() && cu.channel < |channels| && cu.fromChannel in channelOrders[cu.channel]
      modifies this`channelOrders, channelRepr
      ensures k < |old(channelOrders)[cu.channel]| && old(channelOrders)[cu.channel][k] == cu.fromChannel
      ensures TablesOk()
      ensures channelOrders == old(channelOrders)[cu.channel := RemoveAt(old(channelOrders)[cu.channel], k)]
    {
      hide AllValid;
      Within(users, userOrders, userRepr);
      Within(channels, channelOrders, channelRepr);
      k := DeleteFrom(channels, cu.channel, cu.fromChannel, channelOrders, channelRepr);
      channelOrders := channelOrders[cu.channel := RemoveAt(channelOrders[cu.channel], k)];
    }

    /** chirc_channeluser_remove. */
    method Remove(cu: ChannelUser)
      requires Valid() && (cu.user, cu.channel) in pairs && pairs[(cu.user, cu.channel)] == cu
      modifies this, userRepr, channelRepr
      ensures Valid() && pairs == old(pairs) - {(cu.user, cu.channel)}
      ensures userRepr == old(userRepr) && channelRepr == old(channelRepr)
    {
      hide AllValid, Paired;
      FiledAndDistinct(this, cu);
      ghost var uo, co, k, l := userOrders, channelOrders, 0, 0;
      l := DeleteFromChannel(cu);
      k := DeleteFromUser(cu);
      PairedRemove(uo, co, pairs, structs, cu, k, l);
      pairs := pairs - {(cu.user, cu.channel)};
    }
  }

  /** A membership is filed with the user exactly when it is filed with the channel, and at most once with each. */
  lemma SameMembership(n: Network, user: nat, channel: nat)
    requires n.Valid() && user < |n.users| && channel < |n.channels|
    ensures (user, channel) in PairsOfUser(user, n.userOrders[user]) <==> (user, channel) in n.pairs
    ensures (user, channel) in PairsOfChannel(channel, n.channelOrders[channel]) <==> (user, channel) in n.pairs
    ensures NoDup(PairsOfUser(user, n.userOrders[user])) && NoDup(PairsOfChannel(channel, n.channelOrders[channel]))
  {
    hide AllValid;
    KeysDistinct(n);
    UserSideElems(n.userOrders, n.channelOrders, n.pairs, n.structs, user);
    ChannelSideElems(n.userOrders, n.channelOrders, n.pairs, n.structs, channel);
    var us, cs := PairsOfUser(user, n.userOrders[user]), PairsOfChannel(channel, n.channelOrders[channel]);
    assert (user, channel) in us <==> (user, channel) in Elems(us);
    assert (user, channel) in cs <==> (user, channel) in Elems(cs);
  }

  /** The first n counts, added up. */
  ghost function Total<T>(orders: seq<seq<T>>, n: nat): nat
    requires n <= |orders|
  {
    if n == 0 then 0 else Total(orders, n - 1) + |orders[n - 1]|
  }

  lemma AllPairs(uo: seq<seq<Element<UserSide>>>, co: seq<seq<Element<ChannelSide>>>, pairs: Pairs, structs: Structs)
    requires Paired(uo, co, pairs, structs)
    ensures (set p | p in pairs && p.0 < |uo|) == (set p | p in pairs && p.1 < |co|) == pairs.Keys
    ensures |pairs| == |pairs.Keys|
  {
    assert forall p :: p in pairs ==> FiledTwice(uo, co, pairs[p]);
  }

  lemma {:induction false} UserTotal(uo: seq<seq<Element<UserSide>>>, co: seq<seq<Element<ChannelSide>>>, pairs: Pairs,
                                     structs: Structs, n: nat)
    requires Paired(uo, co, pairs, structs) && n <= |uo|
    requires forall i :: 0 <= i < |uo| ==> NoDup(PairsOfUser(i, uo[i]))
    ensures |set p | p in pairs && p.0 < n| == Total(uo, n)
  {
    hide Paired, NoDup;
    if n > 0 {
      UserTotal(uo, co, pairs, structs, n - 1);
      UserSideElems(uo, co, pairs, structs, n - 1);
      CardOfNoDup(PairsOfUser(n - 1, uo[n - 1]));
      var before, last := set p | p in pairs && p.0 < n - 1, set p | p in pairs && p.0 == n - 1;
      assert (set p | p in pairs && p.0 < n) == before + last && before !! last;
    } else {
      assert (set p | p in pairs && p.0 < n) == {};
    }
  }

  lemma {:induction false} ChannelTotal(uo: seq<seq<Element<UserSide>>>, co: seq<seq<Element<ChannelSide>>>,
                                        pairs: Pairs, structs: Structs, n: nat)
    requires Paired(uo, co, pairs, structs) && n <= |co|
    requires forall j :: 0 <= j < |co| ==> NoDup(PairsOfChannel(j, co[j]))
    ensures |set p | p in pairs && p.1 < n| == Total(co, n)
  {
    hide Paired, NoDup;
    if n > 0 {
      ChannelTotal(uo, co, pairs, structs, n - 1);
      ChannelSideElems(uo, co, pairs, structs, n - 1);
      CardOfNoDup(PairsOfChannel(n - 1, co[n - 1]));
      var before, last := set p | p in pairs && p.1 < n - 1, set p | p in pairs && p.1 == n - 1;
      assert (set p | p in pairs && p.1 < n) == before + last && before !! last;
    } else {
      assert (set p | p in pairs && p.1 < n) == {};
    }
  }

  /** Channels counted over all users, users counted over all channels, and memberships: all the same. */
  lemma CountsAgree(n: Network)
    requires n.Valid()
    ensures Total(n.userOrders, |n.users|) == Total(n.channelOrders, |n.channels|) == |n.pairs|
  {
    hide AllValid;
    KeysDistinct(n);
    UserTotal(n.userOrders, n.channelOrders, n.pairs, n.structs, |n.users|);
    ChannelTotal(n.userOrders, n.channelOrders, n.pairs, n.structs, |n.channels|);
    AllPairs(n.userOrders, n.channelOrders, n.pairs, n.structs);
  }

  // ---------- whole runs ----------

  /** A user joins or leaves a channel; leaving looks the membership up first. */
  datatype Op = Join(channel: nat, user: nat) | Part(channel: nat, user: nat)

  function Next(members: set<(nat, nat)>, op: Op): set<(nat, nat)> {
    match op
    case Join(channel, user) => members + {(user, channel)}
    case Part(channel, user) => members - {(user, channel)}
  }

  function Run(members: set<(nat, nat)>, ops: seq<Op>): set<(nat, nat)> {
    if ops == [] then members else Next(Run(members, ops[..|ops| - 1]), ops[|ops| - 1])
  }

  /** A run decides each pair by its last command alone. */
  lemma {:induction false} LastDecides(members: set<(nat, nat)>, ops: seq<Op>, k: nat)
    requires k < |ops|
    requires forall i :: k < i < |ops| ==> ops[i].user != ops[k].user || ops[i].channel != ops[k].channel
    ensures (ops[k].user, ops[k].channel) in Run(members, ops) <==> ops[k].Join?
  {
    if k < |ops| - 1 { LastDecides(members, ops[..|ops| - 1], k); }
  }

  lemma PairsNamed(n: Network)
    requires n.Valid()
    ensures forall p :: p in n.pairs ==> n.pairs[p].user == p.0 && n.pairs[p].channel == p.1
  {}

  method Perform(n: Network, op: Op)
    requires n.Valid() && op.channel < |n.channels| && op.user < |n.users|
    modifies n, n.userRepr, n.channelRepr
    ensures n.Valid() && n.pairs.Keys == Next(old(n.pairs.Keys), op)
    ensures fresh(n.userRepr - old(n.userRepr)) && fresh(n.channelRepr - old(n.channelRepr))
  {
    hide AllValid, Paired, Network.Valid;
    match op
    case Join(channel, user) =>
      var created, cu := n.GetOrCreate(channel, user);
    case Part(channel, user) =>
      var cu := n.Get(channel, user);
      PairsNamed(n);
      if cu != null { n.Remove(cu); }
  }

  method PerformAll(n: Network, ops: seq<Op>)
    requires n.Valid() && forall i :: 0 <= i < |ops| ==> ops[i].channel < |n.channels| && ops[i].user < |n.users|
    modifies n, n.userRepr, n.channelRepr
    ensures n.Valid() && n.pairs.Keys == Run(old(n.pairs.Keys), ops)
  {
    hide AllValid, Paired, Network.Valid;
    ghost var members := n.pairs.Keys;
    var i := 0;
    while i < |ops|
      invariant i <= |ops| && n.Valid() && n.pairs.Keys == Run(members, ops[..i])
      invariant fresh(n.userRepr - old(n.userRepr)) && fresh(n.channelRepr - old(n.channelRepr))
    {
      assert ops[..i + 1][..i] == ops[..i];
      Perform(n, ops[i]);
      i := i + 1;
    }
    assert ops[..i] == ops;
  }

  /** A server with so many users and channels, and a run on it. */
  method Serve(numUsers: nat, numChannels: nat, hash: nat -> nat, ops: seq<Op>) returns (n: Network)
    requires forall i :: 0 <= i < |ops| ==> ops[i].channel < numChannels && ops[i].user < numUsers
    ensures n.Valid() && |n.users| == numUsers && |n.channels| == numChannels
    ensures n.pairs.Keys == Run({}, ops)
  {
    hide AllValid, Paired, Network.Valid, Run;
    var users, channels;
    ghost var userRepr, channelRepr;
    users, userRepr := NewOwners(numUsers, (d: UserSide) => d.channel, hash);
    channels, channelRepr := NewOwners(numChannels, (d: ChannelSide) => d.user, hash);
    n := new Network(users, channels, userRepr, channelRepr);
    assert n.pairs.Keys == {};
    PerformAll(n, ops);
  }
}
