/** Topic messages: their byte layout, the topic matcher, and the filter that
    readers put every message through. */
module Topics {
  import opened Bytes
  import opened Slots

  const GENERATION_BYTES: nat := 8
  const PREFIX_SIZE: nat := 9   // generation and the post-to-descendants flag
  const NUL: Byte := 0

  // ----- Layout -----

  function SizeOf(name: seq<Byte>, dataLen: nat): nat {
    8 + 1 + (|name| + 1) + dataLen
  }

  /** The bytes before the first NUL. */
  function UpToNul(bs: seq<Byte>): (r: seq<Byte>)
    ensures |r| <= |bs| && r == bs[..|r|] && NUL !in r
    ensures |r| < |bs| ==> bs[|r|] == NUL
  {
    if bs == [] || bs[0] == NUL then [] else [bs[0]] + UpToNul(bs[1..])
  }

  function Zeros(n: nat): (z: seq<Byte>)
    ensures |z| == n && forall i :: 0 <= i < n ==> z[i] == NUL
  {
    if n == 0 then [] else [NUL] + Zeros(n - 1)
  }

  /** The name as a C string padded with NULs to its full length plus one: what
      lies behind a NUL inside the name is lost. */
  function NameField(name: seq<Byte>): (f: seq<Byte>)
    ensures |f| == |name| + 1
  {
    UpToNul(name) + Zeros(|name| + 1 - |UpToNul(name)|)
  }

  function Layout(generation: nat, postToDescendants: bool, name: seq<Byte>, data: seq<Byte>): (bs: seq<Byte>)
    ensures |bs| == SizeOf(name, |data|)
  {
    ToBytes(generation, GENERATION_BYTES) + [if postToDescendants then 1 else 0] + NameField(name) + data
  }

  /** Writes a topic message into preallocated memory, field after field. */
  method Serialize(dst: array<Byte>, generation: nat, postToDescendants: bool, name: seq<Byte>, data: seq<Byte>)
    requires SizeOf(name, |data|) <= dst.Length
    modifies dst
    ensures dst[..] == Layout(generation, postToDescendants, name, data) + old(dst[SizeOf(name, |data|)..])
  {
    hide ToBytes, NameField;
    var at := Put(dst, 0, ToBytes(generation, GENERATION_BYTES));
    at := Put(dst, at, [if postToDescendants then 1 else 0]);
    at := Put(dst, at, NameField(name));
    at := Put(dst, at, data);
    assert dst[..at] == Layout(generation, postToDescendants, name, data);
    assert dst[..] == dst[..at] + dst[at..];
  }

  /** Copies elements to an index and returns the index behind them. */
  method Put<T>(dst: array<T>, at: nat, bs: seq<T>) returns (next: nat)
    requires at + |bs| <= dst.Length
    modifies dst
    ensures next == at + |bs|
    ensures dst[..next] == old(dst[..at]) + bs
    ensures forall k :: next <= k < dst.Length ==> dst[k] == old(dst[k])
  {
    forall k | 0 <= k < |bs| {
      dst[at + k] := bs[k];
    }
    next := at + |bs|;
  }

  // ----- Matching -----

  /** Equal topics match; a topic posted to descendants matches every topic it is a
      prefix of; so does one read with descendants. */
  predicate Matches(reader: seq<Byte>, handleDescendants: bool, writer: seq<Byte>, postToDescendants: bool) {
    reader == writer || (postToDescendants && writer <= reader) || (handleDescendants && reader <= writer)
  }

  /** Whom the flags reach: a post to descendants reaches its own topic and everything
      below, a reader with descendants gets posts to its own topic and everything below,
      and neither flag reaches upwards. */
  lemma Descendants(name: seq<Byte>, rest: seq<Byte>, flag: bool)
    ensures Matches(name + rest, flag, name, true) && Matches(name, true, name + rest, flag)
    ensures rest != [] ==> !Matches(name + rest, flag, name, false) && !Matches(name, false, name + rest, flag)
    ensures Matches(name, false, name, false)
  {
    assert rest != [] ==> name + rest != name && !(name + rest <= name);
  }

  /** Topics of which neither lies below the other never match. */
  lemma Unrelated(common: seq<Byte>, a: seq<Byte>, b: seq<Byte>, handleDescendants: bool, postToDescendants: bool)
    requires a != [] && b != [] && a[0] != b[0]
    ensures !Matches(common + a, handleDescendants, common + b, postToDescendants)
  {
    assert (common + a)[|common|] == a[0] && (common + b)[|common|] == b[0];
  }

  method TopicMatches(reader: seq<Byte>, handleDescendants: bool, writer: seq<Byte>, postToDescendants: bool)
    returns (r: bool)
    ensures r <==> Matches(reader, handleDescendants, writer, postToDescendants)
  {
    var mlen := if |reader| < |writer| then |reader| else |writer|;
    var clen := 0;
    while clen < mlen && reader[clen] == writer[clen]
      invariant clen <= mlen
      invariant reader[..clen] == writer[..clen]
    {
      clen := clen + 1;
    }
    assert clen < mlen ==> reader[clen] != writer[clen];
    if clen == |reader| && clen == |writer| { return true; }
    if postToDescendants && clen == |writer| { return true; }
    if handleDescendants && clen == |reader| { return true; }
    return false;
  }

  // ----- Deserializing -----

  datatype Filtered = Rejected | Accepted(payload: seq<Byte>) | Unterminated

  /** What a reader makes of the first `dataSize` bytes of `data`. The length of
      the name is found by scanning the memory for a NUL. */
  function Filter(data: seq<Byte>, dataSize: nat, generation: nat, name: seq<Byte>, handleDescendants: bool): Filtered
    requires SizeOf([], 0) <= dataSize <= |data|
  {
    var writerName := UpToNul(data[PREFIX_SIZE..]);
    var payloadAt := PREFIX_SIZE + |writerName| + 1;
    if FromBytes(data[..GENERATION_BYTES]) < generation then Rejected
    else if payloadAt > dataSize then Unterminated
    else if Matches(name, handleDescendants, writerName, data[GENERATION_BYTES] != 0)
    then Accepted(data[payloadAt..dataSize])
    else Rejected
  }

  method DeserializeAndFilter(data: seq<Byte>, dataSize: nat, generation: nat, name: seq<Byte>, handleDescendants: bool)
    returns (r: Filtered)
    requires SizeOf([], 0) <= dataSize <= |data|
    ensures r == Filter(data, dataSize, generation, name, handleDescendants)
  {
    if FromBytes(data[..GENERATION_BYTES]) < generation { return Rejected; }
    var writerPd := data[GENERATION_BYTES] != 0;
    var end := PREFIX_SIZE;
    while end < |data| && data[end] != NUL
      invariant PREFIX_SIZE <= end <= |data|
      invariant NUL !in data[PREFIX_SIZE..end]
    {
      end := end + 1;
    }
    FirstNul(data[PREFIX_SIZE..], end - PREFIX_SIZE);
    assert data[PREFIX_SIZE..][..end - PREFIX_SIZE] == data[PREFIX_SIZE..end];
    if end + 1 > dataSize { return Unterminated; }
    var matches := TopicMatches(name, handleDescendants, data[PREFIX_SIZE..end], writerPd);
    if matches { return Accepted(data[end + 1..dataSize]); }
    return Rejected;
  }

  lemma {:induction false} FirstNul(bs: seq<Byte>, n: nat)
    requires n <= |bs| && NUL !in bs[..n] && (n < |bs| ==> bs[n] == NUL)
    ensures UpToNul(bs) == bs[..n]
  {
    if n > 0 {
      assert bs[0] == bs[..n][0];
      assert bs[1..][..n - 1] == bs[..n][1..];
      FirstNul(bs[1..], n - 1);
    }
  }

  // ----- Round trip -----

  lemma NameFieldTerminates(name: seq<Byte>, rest: seq<Byte>)
    ensures UpToNul(NameField(name) + rest) == UpToNul(name)
  {
    var bs, n := NameField(name) + rest, |UpToNul(name)|;
    assert bs[..n] == UpToNul(name);
    assert bs[n] == NUL;
    FirstNul(bs, n);
  }

  lemma Fields(gen: seq<Byte>, flag: Byte, name: seq<Byte>, data: seq<Byte>, tail: seq<Byte>)
    requires |gen| == GENERATION_BYTES
    ensures var bs := gen + [flag] + name + data + tail;
            && bs[..GENERATION_BYTES] == gen && bs[GENERATION_BYTES] == flag
            && bs[PREFIX_SIZE..] == name + (data + tail)
            && bs[PREFIX_SIZE + |name|..PREFIX_SIZE + |name| + |data|] == data
  {
  }

  lemma {:induction false} LayoutFields(generation: nat, postToDescendants: bool, name: seq<Byte>, data: seq<Byte>,
                                        tail: seq<Byte>)
    requires generation < Range(GENERATION_BYTES)
    ensures var bs := Layout(generation, postToDescendants, name, data) + tail;
            && FromBytes(bs[..GENERATION_BYTES]) == generation
            && (bs[GENERATION_BYTES] != 0 <==> postToDescendants)
            && UpToNul(bs[PREFIX_SIZE..]) == UpToNul(name)
            && bs[PREFIX_SIZE + |name| + 1..SizeOf(name, |data|)] == data
  {
    FromToBytes(generation, GENERATION_BYTES);
    NameFieldTerminates(name, data + tail);
    hide ToBytes, FromBytes, UpToNul, NameField, Range;
    Fields(ToBytes(generation, GENERATION_BYTES), if postToDescendants then 1 else 0, NameField(name), data, tail);
  }

  /** Deserializing a serialized message, in a buffer with anything behind it. It is
      accepted iff the reader is no younger and the topics match, with exactly the
      payload, when the name has no NUL in it. */
  lemma RoundTrip(generation: nat, postToDescendants: bool, name: seq<Byte>, data: seq<Byte>, tail: seq<Byte>,
                  readerGen: nat, readerName: seq<Byte>, handleDescendants: bool)
    requires generation < Range(GENERATION_BYTES) && NUL !in name
    ensures var bs := Layout(generation, postToDescendants, name, data) + tail;
            Filter(bs, SizeOf(name, |data|), readerGen, readerName, handleDescendants)
            == if generation >= readerGen && Matches(readerName, handleDescendants, name, postToDescendants)
               then Accepted(data) else Rejected
  {
    LayoutFields(generation, postToDescendants, name, data, tail);
    FirstNul(name, |name|);
    assert name[..|name|] == name;
  }

  /** With a NUL in the name given to the serializer, a reader of what is left of the
      name gets a payload that is not the one sent: so the round trip holds iff the
      name has none. */
  lemma RoundTripExactly(generation: nat, postToDescendants: bool, name: seq<Byte>, data: seq<Byte>)
    requires generation < Range(GENERATION_BYTES)
    ensures Filter(Layout(generation, postToDescendants, name, data), SizeOf(name, |data|), generation,
                   UpToNul(name), false)
            == Accepted(data)
            <==> NUL !in name
  {
    var bs := Layout(generation, postToDescendants, name, data);
    LayoutFields(generation, postToDescendants, name, data, []);
    assert bs + [] == bs;
    var n := |UpToNul(name)|;
    assert name[..|name|] == name;
    if NUL !in name { FirstNul(name, |name|); }
    assert NUL in name ==> n < |name|;
  }

  // ----- Creating messages -----

  /** The message for the ring, or nothing if it cannot fit there. The name is a C
      string, so it ends at the first NUL, and every filter sees exactly it. */
  method CreateMessage(generation: nat, postToDescendants: bool, channelName: seq<Byte>, data: seq<Byte>,
                       maxMessageSize: nat)
    returns (msg: Option<seq<Byte>>)
    requires generation < Range(GENERATION_BYTES) && NUL in channelName && data != []
    ensures msg == None <==> SizeOf(UpToNul(channelName), |data|) > maxMessageSize
    ensures msg.Some? ==> msg.value == Layout(generation, postToDescendants, UpToNul(channelName), data)
    ensures msg.Some? ==>
              forall readerGen, readerName, handleDescendants ::
                Filter(msg.value, |msg.value|, readerGen, readerName, handleDescendants)
                == if && generation >= readerGen
                      && Matches(readerName, handleDescendants, UpToNul(channelName), postToDescendants)
                   then Accepted(data) else Rejected
  {
    var name := UpToNul(channelName);
    var size := SizeOf(name, |data|);
    if size > maxMessageSize { return None; }
    var dst := new Byte[size];
    Serialize(dst, generation, postToDescendants, name, data);
    msg := Some(dst[..]);
    forall readerGen, readerName, handleDescendants
      ensures Filter(msg.value, |msg.value|, readerGen, readerName, handleDescendants)
              == if generation >= readerGen && Matches(readerName, handleDescendants, name, postToDescendants)
                 then Accepted(data) else Rejected
    {
      RoundTrip(generation, postToDescendants, name, data, [], readerGen, readerName, handleDescendants);
      assert msg.value + [] == msg.value;
    }
  }
}
