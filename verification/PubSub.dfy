/** The publish/subscribe index (src/pub_sub_manager.cpp) and the subscription sets the connections keep for
    themselves (src/redis_connection_context.cpp:46-92).  Channels and patterns are handled by the same code
    twice; here the code is written once for a `Kind`.  The replies sent to a subscriber are left out. */
module PubSub {
  import opened GlobMatch
  import opened GlobSyntax

  type Text = seq<Ch>

  datatype Kind = Channel | Pattern

  function Other(kind: Kind): Kind {
    if kind == Channel then Pattern else Channel
  }

  method IsMatch(pattern: Text, chan: Text) returns (matched: bool)
    ensures matched <==> Matches(pattern, chan)
  {
    matched := StringMatchLen(pattern, chan);
  }

  class Client {
    var channels: set<Text>
    var patterns: set<Text>

    constructor ()
      ensures channels == {} && patterns == {}
    {
      channels, patterns := {}, {};
    }

    function Own(kind: Kind): set<Text>
      reads this
    {
      if kind == Channel then channels else patterns
    }

    /** SubscribeChannel and SubscribePattern; the precondition is the assertion of the source. */
    method Note(kind: Kind, topic: Text)
      requires topic !in Own(kind)
      modifies this
      ensures Own(kind) == old(Own(kind)) + {topic}
      ensures Own(Other(kind)) == old(Own(Other(kind)))
    {
      if kind == Channel {
        channels := channels + {topic};
      } else {
        patterns := patterns + {topic};
      }
    }

    /** UnsubscribeChannel and UnsubscribePattern, likewise. */
    method Forget(kind: Kind, topic: Text)
      requires topic in Own(kind)
      modifies this
      ensures Own(kind) == old(Own(kind)) - {topic}
      ensures Own(Other(kind)) == old(Own(Other(kind)))
    {
      if kind == Channel {
        channels := channels - {topic};
      } else {
        patterns := patterns - {topic};
      }
    }
  }

  /** How a published message reaches a client. */
  datatype Delivery = Direct(to: Client) | ByPattern(to: Client, pattern: Text)

  type Index = map<Text, set<Client>>

  type Owns = map<Client, set<Text>>

  ghost predicate In(index: Index, topic: Text, older client: Client) {
    topic in index && client in index[topic]
  }

  /** The clients with their own sets. */
  ghost function OwnedBy(clients: set<Client>, kind: Kind): Owns
    reads clients
  {
    map c | c in clients :: c.Own(kind)
  }

  /** A snapshot of everybody's own sets, taken earlier and brought up to date for one client. */
  lemma OwnedAfter(before: Owns, clients: set<Client>, kind: Kind, client: Client)
    requires client in clients && before.Keys == clients
    requires forall c :: c in clients && c != client ==> before[c] == c.Own(kind)
    ensures OwnedBy(clients, kind) == before[client := client.Own(kind)]
    ensures before[client] == client.Own(kind) ==> OwnedBy(clients, kind) == before
  {
  }

  /** The two sides agree about every connected client, and the index holds no other client. */
  ghost predicate Agree(index: Index, owns: Owns) {
    && (forall t, c :: In(index, t, c) ==> c in owns && t in owns[c])
    && (forall t, c :: c in owns && t in owns[c] ==> In(index, t, c))
  }

  ghost predicate NoEmptySet(index: Index) {
    forall t :: t in index ==> index[t] != {}
  }

  /** The index says the same about everybody, except that `client` is now in (or out of) the topic's set. */
  ghost predicate Flipped(before: Index, after: Index, topic: Text, client: Client, member: bool) {
    && In(after, topic, client) == member
    && (forall t, c :: In(after, t, c) ==> (t, c) == (topic, client) || In(before, t, c))
    && (forall t, c :: In(before, t, c) ==> (t, c) == (topic, client) || In(after, t, c))
  }

  lemma AgreeAfterFlip(before: Index, after: Index, owns: Owns, topic: Text, client: Client, member: bool)
    requires Agree(before, owns) && client in owns && Flipped(before, after, topic, client, member)
    ensures Agree(after, owns[client := if member then owns[client] + {topic} else owns[client] - {topic}])
  {
    var owns' := owns[client := if member then owns[client] + {topic} else owns[client] - {topic}];
    forall t, c | c in owns' && t in owns'[c] ensures In(after, t, c) {
      if (t, c) != (topic, client) {
        assert In(before, t, c);
      }
    }
  }

  lemma OwnIffIn(index: Index, owns: Owns, topic: Text, client: Client)
    requires Agree(index, owns) && client in owns
    ensures topic in owns[client] <==> topic in index && client in index[topic]
  {
    assert topic in owns[client] <==> In(index, topic, client);
  }

  lemma AgreeAfterErasing(before: Index, after: Index, owns: Owns)
    requires Agree(before, owns)
    requires forall t, c :: In(after, t, c) <==> In(before, t, c)
    ensures Agree(after, owns)
  {
  }

  lemma AgreeAfterLeaving(before: Index, after: Index, owns: Owns, client: Client)
    requires Agree(before, owns)
    requires forall t, c :: In(after, t, c) <==> c != client && In(before, t, c)
    ensures Agree(after, owns - {client})
  {
  }

  lemma AddFlips(before: Index, after: Index, topic: Text, client: Client)
    requires after == before[topic := (if topic in before then before[topic] else {}) + {client}]
    ensures Flipped(before, after, topic, client, true)
    ensures NoEmptySet(before) ==> NoEmptySet(after)
  {
    assert client in after[topic];
  }

  lemma RemoveFlips(before: Index, after: Index, topic: Text, client: Client)
    requires topic in before
    requires
      || after == before[topic := before[topic] - {client}]
      || (before[topic] - {client} == {} && after == before - {topic})
    ensures Flipped(before, after, topic, client, false)
    ensures NoEmptySet(before) && (before[topic] - {client} == {} ==> topic !in after) ==> NoEmptySet(after)
  {
    forall t, c | In(before, t, c) && (t, c) != (topic, client) ensures In(after, t, c) {
      if t == topic {
        assert c in before[topic] - {client};
      }
    }
  }

  ghost predicate NoDuplicates(ds: seq<Delivery>) {
    forall i, j :: 0 <= i < j < |ds| ==> ds[i] != ds[j]
  }

  lemma AppendDistinct(ds: seq<Delivery>, batch: seq<Delivery>)
    requires NoDuplicates(ds) && NoDuplicates(batch)
    requires forall d: Delivery :: d in batch ==> d !in ds
    ensures NoDuplicates(ds + batch)
  {
    var all := ds + batch;
    forall i, j | 0 <= i < j < |all| ensures all[i] != all[j] {
      if i < |ds| <= j {
        assert all[j] in batch && all[i] in ds;
      }
    }
  }

  class PubSubManager {
    var channels: Index
    var patterns: Index
    /** The clients that are connected. */
    ghost var live: set<Client>

    function Of(kind: Kind): Index
      reads this
    {
      if kind == Channel then channels else patterns
    }

    method Put(kind: Kind, index: Index)
      modifies this`channels, this`patterns
      ensures Of(kind) == index
      ensures Of(Other(kind)) == old(Of(Other(kind)))
    {
      if kind == Channel {
        channels := index;
      } else {
        patterns := index;
      }
    }

    ghost predicate Valid()
      reads this, live
    {
      && Agree(Of(Channel), OwnedBy(live, Channel)) && NoEmptySet(Of(Channel))
      && Agree(Of(Pattern), OwnedBy(live, Pattern)) && NoEmptySet(Of(Pattern))
    }

    constructor ()
      ensures Valid() && live == {}
    {
      channels, patterns, live := map[], map[], {};
    }

    method Connect() returns (client: Client)
      requires Valid()
      modifies this`live
      ensures Valid() && live == old(live) + {client} && fresh(client)
      ensures client.channels == {} && client.patterns == {}
    {
      client := new Client();
      live := live + {client};
      assert forall k :: OwnedBy(live, k) == old(OwnedBy(live, k))[client := {}];
    }

    /** SubscribeChannel, SubscribePattern. */
    method SubscribeTopic(kind: Kind, topic: Text, client: Client) returns (success: bool)
      requires Valid() && client in live
      modifies this`channels, this`patterns, client
      ensures Valid() && success == (topic !in old(client.Own(kind)))
      ensures client.Own(kind) == old(client.Own(kind)) + {topic}
      ensures client.Own(Other(kind)) == old(client.Own(Other(kind)))
    {
      hide Agree, Flipped, NoEmptySet;
      var index := Of(kind);
      ghost var owns, others := OwnedBy(live, kind), OwnedBy(live, Other(kind));
      OwnIffIn(index, OwnedBy(live, kind), topic, client);
      if topic !in index {
        index := index[topic := {}];
      }
      success := client !in index[topic];
      index := index[topic := index[topic] + {client}];
      AddFlips(Of(kind), index, topic, client);
      AgreeAfterFlip(Of(kind), index, OwnedBy(live, kind), topic, client, true);
      Put(kind, index);
      if success {
        client.Note(kind, topic);
      }
      assert client.Own(kind) == old(client.Own(kind)) + {topic};
      OwnedAfter(owns, live, kind, client);
      OwnedAfter(others, live, Other(kind), client);
    }

    /** SUBSCRIBE and PSUBSCRIBE. */
    method Subscribe(kind: Kind, topics: seq<Text>, client: Client)
      requires Valid() && client in live
      modifies this`channels, this`patterns, client
      ensures Valid()
      ensures client.Own(kind) == old(client.Own(kind)) + (set t | t in topics)
      ensures client.Own(Other(kind)) == old(client.Own(Other(kind)))
    {
      for i := 0 to |topics|
        invariant Valid()
        invariant client.Own(kind) == old(client.Own(kind)) + (set t | t in topics[..i])
        invariant client.Own(Other(kind)) == old(client.Own(Other(kind)))
      {
        var _ := SubscribeTopic(kind, topics[i], client);
        assert topics[..i + 1] == topics[..i] + [topics[i]];
      }
      assert topics[..|topics|] == topics;
    }

    /** UnsubscribeChannel, UnsubscribePattern. */
    method UnsubscribeTopic(kind: Kind, topic: Text, client: Client) returns (success: bool)
      requires Valid() && client in live
      modifies this`channels, this`patterns, client
      ensures Valid() && success == (topic in old(client.Own(kind)))
      ensures client.Own(kind) == old(client.Own(kind)) - {topic}
      ensures client.Own(Other(kind)) == old(client.Own(Other(kind)))
    {
      hide Agree, Flipped, NoEmptySet;
      var index := Of(kind);
      ghost var owns, others := OwnedBy(live, kind), OwnedBy(live, Other(kind));
      OwnIffIn(index, OwnedBy(live, kind), topic, client);
      if topic in index && client in index[topic] {
        var clients := index[topic] - {client};
        if clients == {} {
          index := index - {topic};
        } else {
          index := index[topic := clients];
        }
        RemoveFlips(Of(kind), index, topic, client);
        AgreeAfterFlip(Of(kind), index, OwnedBy(live, kind), topic, client, false);
        Put(kind, index);
        client.Forget(kind, topic);
        OwnedAfter(owns, live, kind, client);
        OwnedAfter(others, live, Other(kind), client);
        return true;
      }
      return false;
    }

    /** UNSUBSCRIBE and PUNSUBSCRIBE; without topics, from everything. */
    method Unsubscribe(kind: Kind, topics: seq<Text>, client: Client)
      requires Valid() && client in live
      modifies this`channels, this`patterns, client
      ensures Valid()
      ensures topics == [] ==> client.Own(kind) == {}
      ensures topics != [] ==> client.Own(kind) == old(client.Own(kind)) - set t | t in topics
      ensures client.Own(Other(kind)) == old(client.Own(Other(kind)))
    {
      if topics == [] {
        UnsubscribeEverything(kind, client);
      } else {
        for i := 0 to |topics|
          invariant Valid()
          invariant client.Own(kind) == old(client.Own(kind)) - (set t | t in topics[..i])
          invariant client.Own(Other(kind)) == old(client.Own(Other(kind)))
        {
          var _ := UnsubscribeTopic(kind, topics[i], client);
          assert topics[..i + 1] == topics[..i] + [topics[i]];
        }
        assert topics[..|topics|] == topics;
      }
    }

    method UnsubscribeEverything(kind: Kind, client: Client)
      requires Valid() && client in live
      modifies this`channels, this`patterns, client
      ensures Valid()
      ensures client.Own(kind) == {}
      ensures client.Own(Other(kind)) == old(client.Own(Other(kind)))
    {
      hide Agree, Flipped, NoEmptySet;
      Sweep(kind, client);
      ghost var swept := Of(kind);
      EraseEmpty(kind);
      AgreeAfterErasing(swept, Of(kind), OwnedBy(live, kind));
    }

    method Sweep(kind: Kind, client: Client)
      requires Agree(Of(kind), OwnedBy(live, kind)) && client in live
      modifies this`channels, this`patterns, client
      ensures Agree(Of(kind), OwnedBy(live, kind)) && client.Own(kind) == {}
      ensures Of(Other(kind)) == old(Of(Other(kind))) && OwnedBy(live, Other(kind)) == old(OwnedBy(live, Other(kind)))
      ensures client.Own(Other(kind)) == old(client.Own(Other(kind)))
    {
      hide Agree, Flipped, NoEmptySet, Other;
      var rest := Of(kind).Keys;
      assert OwnedBy(live, kind)[client] == client.Own(kind);
      forall t | t in client.Own(kind) ensures t in rest {
        OwnIffIn(Of(kind), OwnedBy(live, kind), t, client);
      }
      hide Of;
      while rest != {}
        invariant Agree(Of(kind), OwnedBy(live, kind))
        invariant Of(Other(kind)) == old(Of(Other(kind)))
        invariant OwnedBy(live, Other(kind)) == old(OwnedBy(live, Other(kind)))
        invariant client.Own(Other(kind)) == old(client.Own(Other(kind)))
        invariant rest <= Of(kind).Keys
        invariant client.Own(kind) <= rest
        decreases |rest|
      {
        var topic :| topic in rest;
        rest := rest - {topic};
        DropFrom(kind, topic, client);
      }
    }

    /** One step of the loop over all topics; the topic's set may be left empty. */
    method DropFrom(kind: Kind, topic: Text, client: Client)
      requires Agree(Of(kind), OwnedBy(live, kind)) && client in live && topic in Of(kind)
      modifies this`channels, this`patterns, client
      ensures Agree(Of(kind), OwnedBy(live, kind)) && Of(kind).Keys == old(Of(kind).Keys)
      ensures Of(Other(kind)) == old(Of(Other(kind))) && OwnedBy(live, Other(kind)) == old(OwnedBy(live, Other(kind)))
      ensures client.Own(Other(kind)) == old(client.Own(Other(kind)))
      ensures client.Own(kind) == old(client.Own(kind)) - {topic}
    {
      hide Agree, Flipped, NoEmptySet;
      var index := Of(kind);
      ghost var owns, others := OwnedBy(live, kind), OwnedBy(live, Other(kind));
      OwnIffIn(index, OwnedBy(live, kind), topic, client);
      if client in index[topic] {
        index := index[topic := index[topic] - {client}];
        RemoveFlips(Of(kind), index, topic, client);
        AgreeAfterFlip(Of(kind), index, OwnedBy(live, kind), topic, client, false);
        Put(kind, index);
        client.Forget(kind, topic);
        OwnedAfter(owns, live, kind, client);
        OwnedAfter(others, live, Other(kind), client);
      }
    }

    method EraseEmpty(kind: Kind)
      modifies this`channels, this`patterns
      ensures NoEmptySet(Of(kind))
      ensures forall t, c :: In(Of(kind), t, c) <==> In(old(Of(kind)), t, c)
      ensures Of(Other(kind)) == old(Of(Other(kind)))
    {
      var index := Of(kind);
      var kept := map t | t in index && index[t] != {} :: index[t];
      assert forall t, c :: In(kept, t, c) <==> In(index, t, c);
      Put(kind, kept);
    }

    // ---- disconnecting ----------------------------------------------------------------------------

    /** The connection's destructor: UnsubscribeAll is called when the client has subscriptions of its own, and
        leaves the client's own sets alone.  Afterwards no set mentions the client. */
    method Disconnect(client: Client)
      requires Valid() && client in live
      modifies this
      ensures Valid() && live == old(live) - {client}
      ensures forall k, t :: !In(Of(k), t, client)
    {
      if client.channels != {} || client.patterns != {} {
        UnsubscribeAll(client);
      } else {
        assert forall k :: OwnedBy(live, k)[client] == {};
      }
      AgreeAfterLeaving(old(Of(Channel)), Of(Channel), old(OwnedBy(live, Channel)), client);
      AgreeAfterLeaving(old(Of(Pattern)), Of(Pattern), old(OwnedBy(live, Pattern)), client);
      assert NoEmptySet(Of(Channel)) && NoEmptySet(Of(Pattern));
      live := live - {client};
      assert OwnedBy(live, Channel) == old(OwnedBy(live, Channel)) - {client};
      assert OwnedBy(live, Pattern) == old(OwnedBy(live, Pattern)) - {client};
    }

    method UnsubscribeAll(client: Client)
      requires Valid()
      modifies this`channels, this`patterns
      ensures NoEmptySet(Of(Channel)) && NoEmptySet(Of(Pattern))
      ensures forall k, t, c :: In(Of(k), t, c) <==> c != client && In(old(Of(k)), t, c)
    {
      EraseClient(Channel, client);
      EraseClient(Pattern, client);
    }

    method EraseClient(kind: Kind, client: Client)
      modifies this`channels, this`patterns
      ensures NoEmptySet(Of(kind))
      ensures Of(Other(kind)) == old(Of(Other(kind)))
      ensures forall t, c :: In(Of(kind), t, c) <==> c != client && In(old(Of(kind)), t, c)
    {
      var index := Of(kind);
      var rest := index.Keys;
      while rest != {}
        invariant rest <= index.Keys
        invariant forall t, c :: In(index, t, c) <==> In(old(Of(kind)), t, c) && (c == client ==> t in rest)
        decreases |rest|
      {
        var topic :| topic in rest;
        rest := rest - {topic};
        index := index[topic := index[topic] - {client}];
      }
      var kept := map t | t in index && index[t] != {} :: index[t];
      assert forall t, c :: In(kept, t, c) <==> In(index, t, c);
      Put(kind, kept);
    }

    // ---- publishing -------------------------------------------------------------------------------

    /** Who a message on the channel is for, read off the clients' own sets alone. */
    ghost predicate Entitled(chan: Text, d: Delivery)
      reads this, live
    {
      && d.to in live
      && match d
         case Direct(c) => chan in c.channels
         case ByPattern(c, p) => p in c.patterns && Matches(p, chan)
    }

    lemma EntitledIff(chan: Text, d: Delivery)
      requires Valid()
      ensures Entitled(chan, d) <==>
        match d
        case Direct(c) => In(channels, chan, c)
        case ByPattern(c, p) => In(patterns, p, c) && Matches(p, chan)
    {
      hide Matches;
      assert Agree(Of(Channel), OwnedBy(live, Channel)) && Agree(Of(Pattern), OwnedBy(live, Pattern));
    }

    /** Every entitled client gets the message exactly once per way it is entitled, nobody else gets it, and the
        result is the number of deliveries. */
    method Publish(chan: Text) returns (received: int, deliveries: seq<Delivery>)
      requires Valid()
      ensures received == |deliveries| && NoDuplicates(deliveries)
      ensures forall d: Delivery :: d in deliveries <==> Entitled(chan, d)
    {
      hide Agree, Matches;
      deliveries := [];
      if chan in channels {
        deliveries := DirectBatch(channels[chan]);
      }
      received := |deliveries|;

      var rest := patterns.Keys;
      while rest != {}
        invariant rest <= patterns.Keys && NoDuplicates(deliveries) && received == |deliveries|
        invariant forall d: Delivery :: d in deliveries <==>
          if d.Direct? then In(channels, chan, d.to)
          else In(patterns, d.pattern, d.to) && d.pattern !in rest && Matches(d.pattern, chan)
        decreases |rest|
      {
        var pattern :| pattern in rest;
        rest := rest - {pattern};
        var matched := IsMatch(pattern, chan);
        if matched {
          var batch := PatternBatch(pattern, patterns[pattern]);
          AppendDistinct(deliveries, batch);
          deliveries := deliveries + batch;
          received := received + |batch|;
        }
      }
      forall d: Delivery ensures d in deliveries <==> Entitled(chan, d) {
        EntitledIff(chan, d);
      }
    }

    static method DirectBatch(clients: set<Client>) returns (batch: seq<Delivery>)
      ensures NoDuplicates(batch)
      ensures forall d: Delivery :: d in batch <==> d.Direct? && d.to in clients
    {
      batch := [];
      var rest := clients;
      while rest != {}
        invariant rest <= clients && NoDuplicates(batch)
        invariant forall d: Delivery :: d in batch <==> d.Direct? && d.to in clients && d.to !in rest
        decreases |rest|
      {
        var client :| client in rest;
        rest := rest - {client};
        batch := batch + [Direct(client)];
      }
    }

    static method PatternBatch(pattern: Text, clients: set<Client>) returns (batch: seq<Delivery>)
      ensures NoDuplicates(batch)
      ensures forall d: Delivery :: d in batch <==> d.ByPattern? && d.pattern == pattern && d.to in clients
    {
      batch := [];
      var rest := clients;
      while rest != {}
        invariant rest <= clients && NoDuplicates(batch)
        invariant forall d: Delivery :: d in batch <==>
          d.ByPattern? && d.pattern == pattern && d.to in clients && d.to !in rest
        decreases |rest|
      {
        var client :| client in rest;
        rest := rest - {client};
        batch := batch + [ByPattern(client, pattern)];
      }
    }
  }
}
