/** The topic reader: a list of channel readers over one ring reader, its life
    cycle events, and the fan-out of messages to channel readers. */
module TopicReading {
  import opened Bytes
  import opened Records
  import opened Slots
  import opened Topics
  import opened RingReader
  import opened QuiescentRead

  datatype ChannelReader = ChannelReader(id: nat, name: seq<Byte>, handleDescendants: bool, generation: nat)

  datatype Call = Call(id: nat, payload: seq<Byte>)

  datatype ReaderEvent = FirstCreated | LastClosed | AllExpired

  // ----- Fan-out -----

  predicate IsTopicMessage(data: seq<Byte>) {
    SizeOf([], 0) <= |data|
  }

  /** The handler calls one message leads to, in the order of the channel readers.
      Every one of them looks at the whole message. */
  function Deliveries(readers: seq<ChannelReader>, data: seq<Byte>): seq<Call>
    requires IsTopicMessage(data)
  {
    if readers == [] then []
    else
      var last := readers[|readers| - 1];
      var r := Filter(data, |data|, last.generation, last.name, last.handleDescendants);
      Deliveries(readers[..|readers| - 1], data) + (if r.Accepted? then [Call(last.id, r.payload)] else [])
  }

  /** Message by message. */
  function FanOut(readers: seq<ChannelReader>, messages: seq<seq<Byte>>): seq<Call>
    requires forall m :: m in messages ==> IsTopicMessage(m)
  {
    if messages == [] then []
    else
      var last := messages[|messages| - 1];
      FanOut(readers, messages[..|messages| - 1]) + Deliveries(readers, last)
  }

  /** A message as its sender sees it. */
  datatype Post = Post(generation: nat, postToDescendants: bool, name: seq<Byte>, payload: seq<Byte>) {
    predicate Valid() {
      generation < Range(GENERATION_BYTES) && NUL !in name
    }
    function Image(): (bs: seq<Byte>)
      ensures IsTopicMessage(bs)
    {
      Layout(generation, postToDescendants, name, payload)
    }
    predicate For(reader: ChannelReader) {
      generation >= reader.generation && Matches(reader.name, reader.handleDescendants, name, postToDescendants)
    }
  }

  function Images(posts: seq<Post>): (ms: seq<seq<Byte>>)
    ensures |ms| == |posts|
    ensures forall m :: m in ms ==> IsTopicMessage(m)
    ensures forall k :: 0 <= k < |posts| ==> ms[k] == posts[k].Image()
  {
    if posts == [] then [] else Images(posts[..|posts| - 1]) + [posts[|posts| - 1].Image()]
  }

  function Addressed(readers: seq<ChannelReader>, post: Post): seq<Call> {
    if readers == [] then []
    else
      var last := readers[|readers| - 1];
      Addressed(readers[..|readers| - 1], post) + (if post.For(last) then [Call(last.id, post.payload)] else [])
  }

  /** What publish/subscribe promises: post by post, the payload to every channel
      reader it is for, in order, and nothing else. */
  function Subscribed(readers: seq<ChannelReader>, posts: seq<Post>): seq<Call> {
    if posts == [] then []
    else Subscribed(readers, posts[..|posts| - 1]) + Addressed(readers, posts[|posts| - 1])
  }

  lemma {:induction false} DeliveriesAreAddressed(readers: seq<ChannelReader>, post: Post)
    requires post.Valid()
    ensures Deliveries(readers, post.Image()) == Addressed(readers, post)
  {
    if readers != [] {
      var last := readers[|readers| - 1];
      DeliveriesAreAddressed(readers[..|readers| - 1], post);
      RoundTrip(post.generation, post.postToDescendants, post.name, post.payload, [],
                last.generation, last.name, last.handleDescendants);
      assert post.Image() + [] == post.Image();
    }
  }

  /** The fan-out of what senders serialized is exactly the subscription. */
  lemma {:induction false} FanOutIsSubscription(readers: seq<ChannelReader>, posts: seq<Post>)
    requires forall p :: p in posts ==> p.Valid()
    ensures FanOut(readers, Images(posts)) == Subscribed(readers, posts)
  {
    if posts != [] {
      var n := |posts| - 1;
      FanOutIsSubscription(readers, posts[..n]);
      DeliveriesAreAddressed(readers, posts[n]);
      assert Images(posts)[..n] == Images(posts[..n]);
    }
  }

  lemma {:induction false} AddressedExactly(readers: seq<ChannelReader>, post: Post, call: Call)
    ensures call in Addressed(readers, post)
       <==> call.payload == post.payload && exists c :: c in readers && c.id == call.id && post.For(c)
  {
    if readers != [] {
      var n := |readers| - 1;
      AddressedExactly(readers[..n], post, call);
      hide Post.For;
      assert readers == readers[..n] + [readers[n]];
    }
  }

  /** A channel reader alone of its identity is called for a serialized post, with its
      payload, iff the post is not too old and is for the reader's topic, or posted to
      descendants from above it, or from below it while the reader handles descendants. */
  lemma CalledForExactly(readers: seq<ChannelReader>, post: Post, c: ChannelReader)
    requires post.Valid() && c in readers && forall d :: d in readers && d.id == c.id ==> d == c
    ensures Call(c.id, post.payload) in Deliveries(readers, post.Image())
       <==> && post.generation >= c.generation
            && (|| c.name == post.name
                || (post.postToDescendants && exists rest :: c.name == post.name + rest)
                || (c.handleDescendants && exists rest :: post.name == c.name + rest))
    ensures forall call :: call in Deliveries(readers, post.Image()) ==> call.payload == post.payload
  {
    DeliveriesAreAddressed(readers, post);
    forall call: Call
      ensures call in Addressed(readers, post)
         <==> call.payload == post.payload && exists d :: d in readers && d.id == call.id && post.For(d)
    {
      AddressedExactly(readers, post, call);
    }
    Below(c.name, post.name);
    Below(post.name, c.name);
    hide Deliveries, Addressed;
  }

  lemma Below(name: seq<Byte>, above: seq<Byte>)
    ensures above <= name <==> exists rest :: name == above + rest
  {
    if above <= name { assert name == above + name[|above|..]; }
  }

  /** End to end: when the ring's messages grew by what senders posted, fanning out
      what a reader finds behind its position is exactly the subscription. */
  lemma {:induction false} PostedIsDelivered(log: Log, log': Log, readers: seq<ChannelReader>, posts: seq<Post>)
    requires log <= log' && Messages(log') == Messages(log) + Images(posts)
    requires forall p :: p in posts ==> p.Valid()
    ensures Messages(log'[|log|..]) == Images(posts)
    ensures FanOut(readers, Messages(log'[|log|..])) == Subscribed(readers, posts)
  {
    hide FanOut, Subscribed, Messages, Images;
    assert log' == log + log'[|log|..];
    MessagesConcat(log, log'[|log|..]);
    SameTail(Messages(log), Messages(log'[|log|..]), Images(posts));
    FanOutIsSubscription(readers, posts);
  }

  lemma SameTail<T>(a: seq<T>, b: seq<T>, c: seq<T>)
    requires a + b == a + c
    ensures b == c
  {
    assert b == (a + b)[|a|..];
    assert c == (a + c)[|a|..];
  }

  // ----- Life cycle -----

  predicate IsOpen(events: seq<ReaderEvent>) {
    if events == [] then false
    else match events[|events| - 1]
      case FirstCreated => true
      case LastClosed => false
      case AllExpired => IsOpen(events[..|events| - 1])
  }

  /** First and last events strictly alternate, starting with a first. */
  predicate Alternate(events: seq<ReaderEvent>) {
    events == [] ||
    (var before := events[..|events| - 1];
     Alternate(before) && match events[|events| - 1]
       case FirstCreated => !IsOpen(before)
       case LastClosed => IsOpen(before)
       case AllExpired => true)
  }

  lemma NextEvent(events: seq<ReaderEvent>, e: ReaderEvent)
    ensures IsOpen(events + [e]) == (e.FirstCreated? || (e.AllExpired? && IsOpen(events)))
    ensures Alternate(events + [e])
         == (Alternate(events) && (e.FirstCreated? ==> !IsOpen(events)) && (e.LastClosed? ==> IsOpen(events)))
  {
    assert (events + [e])[..|events|] == events;
  }

  /** The list without its first entry of this identity. */
  function Erase(readers: seq<ChannelReader>, id: nat): (r: seq<ChannelReader>)
    ensures (forall c :: c in readers ==> c.id != id) ==> r == readers
    ensures (exists c :: c in readers && c.id == id) ==> |r| == |readers| - 1
  {
    if readers == [] then []
    else if readers[0].id == id then readers[1..]
    else [readers[0]] + Erase(readers[1..], id)
  }

  lemma {:induction false} EraseAt(readers: seq<ChannelReader>, id: nat, k: nat)
    requires k < |readers| && readers[k].id == id && forall j :: 0 <= j < k ==> readers[j].id != id
    ensures Erase(readers, id) == readers[..k] + readers[k + 1..]
  {
    if k > 0 {
      EraseAt(readers[1..], id, k - 1);
      assert readers[..k] == [readers[0]] + readers[1..][..k - 1];
    }
  }

  class TopicReader {
    const rmp: ReaderWithBackpressure
    var channelReaders: seq<ChannelReader>
    var events: seq<ReaderEvent>
    var calls: seq<Call>
    ghost var at: nat      // log index of the reader's position

    ghost predicate Valid()
      reads this, rmp, rmp.ring, rmp.ring.bytes, rmp.readerInfo, rmp.readerInfo.infos
    {
      && rmp.Valid()
      && (rmp.IsActive() <==> channelReaders != [])
      && Alternate(events) && (IsOpen(events) <==> channelReaders != [])
      && (rmp.IsActive() ==> at <= |rmp.ring.log| && rmp.readerPos == PosOf(rmp.ring.log, rmp.ring.freePos, at))
    }

    constructor (rmp: ReaderWithBackpressure)
      requires rmp.Valid() && !rmp.IsActive()
      ensures Valid() && this.rmp == rmp && channelReaders == [] && events == [] && calls == []
    {
      this.rmp := rmp;
      channelReaders, events, calls := [], [], [];
      at := 0;
    }

    /** The first channel reader activates the ring reader at the stream end. */
    method AddChannelReader(reader: ChannelReader)
      requires Valid()
      modifies this`channelReaders, this`events, this`at
      modifies rmp`readerPos, rmp.readerInfo`readersMinMax, rmp.readerInfo.infos
      ensures Valid() && channelReaders == old(channelReaders) + [reader]
      ensures events == old(events) + (if old(channelReaders) == [] then [FirstCreated] else [])
      ensures at == if old(channelReaders) == [] then |rmp.ring.log| else old(at)
    {
      channelReaders := channelReaders + [reader];
      if |channelReaders| == 1 {
        rmp.Activate();
        at := |rmp.ring.log|;
        NextEvent(events, FirstCreated);
        events := events + [FirstCreated];
      }
    }

    /** Removing the last one deactivates it; removing an unknown one does nothing. */
    method RemoveChannelReader(id: nat)
      requires Valid()
      modifies this`channelReaders, this`events
      modifies rmp.readerInfo`readersMinMax, rmp.readerInfo.infos
      ensures Valid() && channelReaders == Erase(old(channelReaders), id)
      ensures events == old(events) + (if old(channelReaders) != [] && channelReaders == [] then [LastClosed] else [])
    {
      var lastReader := false;
      var k := 0;
      while k < |channelReaders|
        invariant k <= |channelReaders| && channelReaders == old(channelReaders) && !lastReader
        invariant forall j :: 0 <= j < k ==> channelReaders[j].id != id
        invariant unchanged(rmp.readerInfo) && unchanged(rmp.readerInfo.infos) && events == old(events)
      {
        if channelReaders[k].id == id {
          EraseAt(channelReaders, id, k);
          channelReaders := channelReaders[..k] + channelReaders[k + 1..];
          lastReader := channelReaders == [];
          break;
        }
        k := k + 1;
      }
      if lastReader {
        rmp.Deactivate();
        NextEvent(events, LastClosed);
        events := events + [LastClosed];
      }
    }

    /** On a notification: the list to schedule a pass with, unless it is empty. */
    method Run() returns (scheduled: Option<seq<ChannelReader>>)
      ensures channelReaders == [] <==> scheduled == None
      ensures scheduled.Some? ==> scheduled.value == channelReaders
    {
      var channelReadersCopy := channelReaders;
      scheduled := if |channelReadersCopy| == 0 then None else Some(channelReadersCopy);
    }

    /** Hands one message to every channel reader it is for. */
    method Dispatch(readers: seq<ChannelReader>, data: seq<Byte>)
      requires IsTopicMessage(data)
      modifies this`calls
      ensures calls == old(calls) + Deliveries(readers, data)
    {
      for k := 0 to |readers|
        invariant calls == old(calls) + Deliveries(readers[..k], data)
      {
        var cr := readers[k];
        assert readers[..k + 1][..k] == readers[..k];
        var r := DeserializeAndFilter(data, |data|, cr.generation, cr.name, cr.handleDescendants);
        if r.Accepted? {
          calls := calls + [Call(cr.id, r.payload)];
        }
      }
      assert readers[..|readers|] == readers;
    }

    method DispatchAll(readers: seq<ChannelReader>, messages: seq<seq<Byte>>)
      requires forall m :: m in messages ==> IsTopicMessage(m)
      modifies this`calls
      ensures calls == old(calls) + FanOut(readers, messages)
    {
      for k := 0 to |messages|
        invariant calls == old(calls) + FanOut(readers, messages[..k])
      {
        assert messages[..k + 1][..k] == messages[..k];
        assert messages[k] in messages;
        Dispatch(readers, messages[k]);
      }
      assert messages[..|messages|] == messages;
    }

    /** The messages logged since the last read, up to where the ring reader stops. */
    method Pull() returns (messages: seq<seq<Byte>>, expired: bool)
      requires Valid() && rmp.IsActive()
      requires Sound(rmp.readerPos, rmp.ring.freePos, rmp.ring.dirty, rmp.ring.configBufSizeBytes)
      modifies this`at, rmp`readerPos, rmp.readerInfo`expiredReaders, rmp.readerInfo.infos
      ensures Valid() && old(at) <= at
      ensures at == StopAt(rmp.ring.log, rmp.ring.freePos, rmp.ring.configBufSizeBytes, old(at)) <= |rmp.ring.log|
      ensures messages == Messages(rmp.ring.log[old(at)..at])
      ensures expired <==> at != |rmp.ring.log|
    {
      ghost var stop := StopAt(rmp.ring.log, rmp.ring.freePos, rmp.ring.configBufSizeBytes, at);
      UndeclinedAll(Messages(rmp.ring.log[at..stop]), {});
      hide Holds, Messages, RangeCurrent, StopAt, Undeclined, Alternate, IsOpen, Near, PosOf, Sound;
      var cch := new RingReader.CopyConfirmHandler({});
      var res := rmp.ReadEx(cch, at);
      at := stop;
      messages := cch.confirmed;
      expired := res == Expiry;
    }

    /** Reads what was logged since and fans it out, in log order and, per message,
        in channel-reader order. */
    method ReadRmp(readers: seq<ChannelReader>)
      requires Valid() && readers != []
      requires Sound(rmp.readerPos, rmp.ring.freePos, rmp.ring.dirty, rmp.ring.configBufSizeBytes)
      requires forall m :: m in Messages(rmp.ring.log) ==> IsTopicMessage(m)
      modifies this`events, this`calls, this`at
      modifies rmp`readerPos, rmp.readerInfo`expiredReaders, rmp.readerInfo.infos
      ensures Valid() && channelReaders == old(channelReaders) && old(at) <= at
      ensures !old(rmp.IsActive()) ==> calls == old(calls) && events == old(events) && at == old(at)
      ensures old(rmp.IsActive()) ==>
                && at == StopAt(rmp.ring.log, rmp.ring.freePos, rmp.ring.configBufSizeBytes, old(at))
                && (forall m :: m in Messages(rmp.ring.log[old(at)..at]) ==> IsTopicMessage(m))
                && calls == old(calls) + FanOut(readers, Messages(rmp.ring.log[old(at)..at]))
                && events == old(events) + (if at == |rmp.ring.log| then [] else [AllExpired])
    {
      if !rmp.IsActive() { return; }
      SomeMessages(rmp.ring.log, at, StopAt(rmp.ring.log, rmp.ring.freePos, rmp.ring.configBufSizeBytes, at));
      hide Holds, Messages, RangeCurrent, StopAt, FanOut, Deliveries, Chained, Alternate, IsOpen;
      var messages, expired := Pull();
      DispatchAll(readers, messages);
      if expired { RaiseExpired(); }
    }

    method RaiseExpired()
      requires Valid()
      modifies this`events
      ensures Valid() && events == old(events) + [AllExpired]
    {
      NextEvent(events, AllExpired);
      hide Alternate, IsOpen, Holds, RangeCurrent;
      events := events + [AllExpired];
    }
  }

  lemma SomeMessages(log: Log, a: nat, b: nat)
    requires a <= b <= |log|
    ensures forall m :: m in Messages(log[a..b]) ==> m in Messages(log)
  {
    assert log[..b] == log[..a] + log[a..b];
    assert log == log[..b] + log[b..];
    MessagesConcat(log[..a], log[a..b]);
    MessagesConcat(log[..b], log[b..]);
    hide Messages;
  }
}
