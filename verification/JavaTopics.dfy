/** The Java side of the topic protocol where it differs from plain bytes: signed
    bytes and longs, and a copy buffer that is reused and may hold a stale tail. */
module JavaTopics {
  import opened Arithmetic
  import opened Bytes
  import opened Positions
  import opened Topics

  type SignedByte = b: int | -128 <= b < 128
  type Long = n: int | -(HALF as int) <= n < HALF

  function ToSignedByte(b: Byte): SignedByte {
    if b < 128 then b else b - 256
  }

  /** What `b & 255` gives for a signed byte. */
  function Masked(b: SignedByte): Byte {
    b % 256
  }

  function WrapLong(n: int): Long {
    Signed(Residue(n))
  }

  function UnsignedBytes(data: seq<SignedByte>): (bs: seq<Byte>)
    ensures |bs| == |data| && forall i :: 0 <= i < |data| ==> bs[i] == Masked(data[i])
  {
    if data == [] then [] else [Masked(data[0])] + UnsignedBytes(data[1..])
  }

  function SignedBytes(bs: seq<Byte>): (data: seq<SignedByte>)
    ensures |data| == |bs| && forall i :: 0 <= i < |bs| ==> data[i] == ToSignedByte(bs[i])
  {
    if bs == [] then [] else [ToSignedByte(bs[0])] + SignedBytes(bs[1..])
  }

  /** Shifting right by k bytes and keeping the low eight bits. */
  function LongByte(x: Long, k: nat): SignedByte {
    ToSignedByte((x / Range(k)) % 256)
  }

  function LongToByteArray(x: Long): (data: seq<SignedByte>)
    ensures |data| == 8
  {
    [LongByte(x, 0), LongByte(x, 1), LongByte(x, 2), LongByte(x, 3),
     LongByte(x, 4), LongByte(x, 5), LongByte(x, 6), LongByte(x, 7)]
  }

  /** Accumulates eight bytes from the most significant down. */
  method ReadLongValue(data: array<SignedByte>, from: nat) returns (value: Long)
    requires from + 8 <= data.Length
    ensures value == WrapLong(FromBytes(UnsignedBytes(data[from..from + 8])))
  {
    ghost var bs := UnsignedBytes(data[from..from + 8]);
    value := 0;
    var i := 8;
    assert bs[8..] == [];
    while i > 0
      invariant i <= 8
      invariant value == WrapLong(FromBytes(bs[i..]))
    {
      i := i - 1;
      assert bs[i..] == [bs[i]] + bs[i + 1..];
      assert data[from..from + 8][i] == data[from + i];
      ShiftIn(FromBytes(bs[i + 1..]), bs[i]);
      value := WrapLong(value * 256 + Masked(data[from + i]));
    }
    assert bs[0..] == bs;
  }

  /** Shifting in a byte commutes with wrapping to 64 bits. */
  lemma ShiftIn(n: nat, b: Byte)
    ensures WrapLong(WrapLong(n) * 256 + b) == WrapLong(b + 256 * n)
  {
    var q := (n - WrapLong(n)) / WORD;
    assert n == q * WORD + WrapLong(n);
    ShiftedResidue(q * 256, WrapLong(n) * 256 + b);
    assert b + 256 * n == (q * 256) * WORD + (WrapLong(n) * 256 + b);
  }

  /** The `k`th byte of a number. */
  lemma {:induction false} ByteAt(n: nat, width: nat, k: nat)
    requires k < width
    ensures ToBytes(n, width)[k] == (n / Range(k)) % 256
  {
    if k > 0 {
      ByteAt(n / 256, width - 1, k - 1);
      DivideTwice(n, Range(k - 1));
    }
  }

  lemma DivideTwice(n: nat, m: nat)
    requires m > 0
    ensures (n / 256) / m == n / (256 * m)
  {
    var a := n / 256;
    var q, r := a / m, a % m;
    assert a == q * m + r;
    assert n == q * (256 * m) + (256 * r + n % 256);
    RemainderUnique(q, 256 * r + n % 256, 256 * m);
  }

  /** Bytes of a negative long are those of its two's complement. */
  lemma ByteOfResidue(x: int, m: nat, rest: nat)
    requires m > 0 && m * (256 * rest) == WORD
    ensures (x / m) % 256 == (Residue(x) / m) % 256
  {
    var q, w := x / WORD, Residue(x);
    var a, b := w / m, w % m;
    calc {
      x;
      q * WORD + w;
      q * (m * (256 * rest)) + (a * m + b);
      (q * (256 * rest) + a) * m + b;
    }
    RemainderUnique(q * (256 * rest) + a, b, m);
    assert x / m == (q * rest) * 256 + a;
    RemainderUnique(q * rest + a / 256, a % 256, 256);
  }

  lemma {:induction false} RangeSum(a: nat, b: nat)
    ensures Range(a + b) == Range(a) * Range(b)
  {
    if a > 0 {
      RangeSum(a - 1, b);
      assert Range(a + b) == 256 * (Range(a - 1) * Range(b));
    }
  }

  lemma RangeOfWord()
    ensures Range(8) == WORD
  {
    assert Range(2) == 0x1_0000;
    RangeSum(2, 2);
    RangeSum(4, 4);
  }

  lemma SameByte(x: Long, k: nat)
    requires k < 8
    ensures Masked(LongByte(x, k)) == ToBytes(Residue(x), 8)[k]
  {
    RangeOfWord();
    RangeSum(k, 8 - k);
    assert Range(8 - k) == 256 * Range(7 - k);
    ByteAt(Residue(x), 8, k);
    hide ToBytes, Range;
    ByteOfResidue(x, Range(k), Range(7 - k));
  }

  /** The bytes Java stores are the little-endian bytes C++ stores. */
  lemma SameBytes(x: Long)
    ensures UnsignedBytes(LongToByteArray(x)) == ToBytes(Residue(x), 8)
  {
    hide UnsignedBytes, ToBytes, LongByte, Residue, Masked;
    forall k | 0 <= k < 8
      ensures UnsignedBytes(LongToByteArray(x))[k] == ToBytes(Residue(x), 8)[k]
    {
      SameByte(x, k);
      assert LongToByteArray(x)[k] == LongByte(x, k);
    }
  }

  lemma WrapResidue(x: Long)
    ensures WrapLong(Residue(x)) == x
  {
  }

  /** Reading back what was stored gives the same long, negative ones included. */
  lemma {:induction false} LongRoundTrip(x: Long)
    ensures WrapLong(FromBytes(UnsignedBytes(LongToByteArray(x)))) == x
  {
    hide ToBytes, FromBytes, UnsignedBytes, LongToByteArray, WrapLong, Residue;
    SameBytes(x);
    RangeOfWord();
    FromToBytes(Residue(x), 8);
    WrapResidue(x);
  }

  /** Java compares generations signed, C++ unsigned: the two filters agree on "too
      old" iff both generations lie in the same half of the range. */
  lemma GenerationTestAgrees(writerGen: Word, readerGen: Word)
    ensures (Signed(writerGen) < Signed(readerGen) <==> writerGen < readerGen)
       <==> (writerGen < HALF <==> readerGen < HALF)
  {
  }

  // ----- The layout Java writes -----

  /** The whole name, NULs included, and one more NUL behind it. */
  function JavaLayout(generation: Long, postToDescendants: bool, name: seq<Byte>, data: seq<Byte>): (bs: seq<Byte>)
    ensures |bs| == SizeOf(name, |data|)
  {
    ToBytes(Residue(generation), 8) + [if postToDescendants then 1 else 0] + (name + [NUL]) + data
  }

  /** Fills a preallocated message field after field, with a running index. */
  method Serialize(rbMsg: array<SignedByte>, generation: Long, postToDescendants: bool, name: seq<SignedByte>,
                   msg: seq<SignedByte>)
    requires SizeOf(UnsignedBytes(name), |msg|) <= rbMsg.Length
    modifies rbMsg
    ensures UnsignedBytes(rbMsg[..])
         == JavaLayout(generation, postToDescendants, UnsignedBytes(name), UnsignedBytes(msg))
            + UnsignedBytes(old(rbMsg[SizeOf(UnsignedBytes(name), |msg|)..]))
  {
    hide UnsignedBytes, LongToByteArray, ToBytes, JavaLayout;
    var flag: SignedByte := if postToDescendants then 1 else 0;
    var at := Put(rbMsg, 0, LongToByteArray(generation));
    at := Put(rbMsg, at, [flag]);
    at := Put(rbMsg, at, name);
    at := Put(rbMsg, at, [0]);
    at := Put(rbMsg, at, msg);
    ghost var tail := old(rbMsg[SizeOf(UnsignedBytes(name), |msg|)..]);
    assert rbMsg[..] == rbMsg[..at] + rbMsg[at..];
    assert rbMsg[..at] == LongToByteArray(generation) + [flag] + name + [0] + msg;
    assert rbMsg[at..] == tail;
    SignedLayout(generation, postToDescendants, name, msg, tail);
  }

  lemma SignedLayout(generation: Long, postToDescendants: bool, name: seq<SignedByte>, msg: seq<SignedByte>,
                     tail: seq<SignedByte>)
    ensures var flag: SignedByte := if postToDescendants then 1 else 0;
            UnsignedBytes(LongToByteArray(generation) + [flag] + name + [0] + msg + tail)
            == JavaLayout(generation, postToDescendants, UnsignedBytes(name), UnsignedBytes(msg)) + UnsignedBytes(tail)
  {
    SameBytes(generation);
    hide UnsignedBytes, LongToByteArray, ToBytes;
  }

  /** Java and C++ lay a message out alike iff behind a NUL in the name only NULs
      follow; without a NUL they always do. */
  lemma LayoutsAgree(generation: Long, postToDescendants: bool, name: seq<Byte>, data: seq<Byte>)
    ensures JavaLayout(generation, postToDescendants, name, data)
            == Layout(Residue(generation), postToDescendants, name, data)
       <==> forall k :: |UpToNul(name)| <= k < |name| ==> name[k] == NUL
    ensures NUL !in name ==> |UpToNul(name)| == |name|
  {
    hide ToBytes;
    var java := JavaLayout(generation, postToDescendants, name, data);
    var cpp := Layout(Residue(generation), postToDescendants, name, data);
    var n := |UpToNul(name)|;
    assert java[PREFIX_SIZE..PREFIX_SIZE + |name| + 1] == name + [NUL];
    assert cpp[PREFIX_SIZE..PREFIX_SIZE + |name| + 1] == NameField(name);
    if forall k :: n <= k < |name| ==> name[k] == NUL {
      assert name + [NUL] == NameField(name);
    } else {
      var k :| n <= k < |name| && name[k] != NUL;
      assert NameField(name)[k] == NUL && (name + [NUL])[k] != NUL;
    }
  }

  lemma {:induction false} NameTerminates(name: seq<Byte>, rest: seq<Byte>)
    ensures UpToNul((name + [NUL]) + rest) == UpToNul(name)
  {
    var bs, n := (name + [NUL]) + rest, |UpToNul(name)|;
    assert bs[..n] == UpToNul(name);
    assert bs[n] == NUL;
    FirstNul(bs, n);
  }

  lemma {:induction false} JavaFields(generation: Long, postToDescendants: bool, name: seq<Byte>, data: seq<Byte>)
    ensures var bs := JavaLayout(generation, postToDescendants, name, data);
            && FromBytes(bs[..GENERATION_BYTES]) == Residue(generation)
            && UpToNul(bs[PREFIX_SIZE..]) == UpToNul(name)
            && bs[PREFIX_SIZE + |name| + 1..SizeOf(name, |data|)] == data
  {
    RangeOfWord();
    FromToBytes(Residue(generation), 8);
    NameTerminates(name, data + []);
    hide ToBytes, FromBytes, UpToNul, Range, Residue;
    var flag: Byte := if postToDescendants then 1 else 0;
    Fields(ToBytes(Residue(generation), 8), flag, name + [NUL], data, []);
    assert JavaLayout(generation, postToDescendants, name, data) + []
           == JavaLayout(generation, postToDescendants, name, data);
  }

  /** With a NUL in the name, which Java lets through, a reader of what is left of the
      name gets the rest of the name in front of the payload: so the round trip holds
      iff the name has none. */
  lemma {:induction false} JavaRoundTripExactly(generation: Long, postToDescendants: bool, name: seq<Byte>,
                                                data: seq<Byte>)
    ensures Filter(JavaLayout(generation, postToDescendants, name, data), SizeOf(name, |data|), Residue(generation),
                   UpToNul(name), false)
            == Accepted(data)
            <==> NUL !in name
  {
    var bs, n := JavaLayout(generation, postToDescendants, name, data), |UpToNul(name)|;
    JavaFields(generation, postToDescendants, name, data);
    assert name[..|name|] == name;
    if NUL !in name { FirstNul(name, |name|); }
    assert NUL in name ==> n < |name|;
    hide JavaLayout, ToBytes, FromBytes, UpToNul, Residue, Range;
    assert |bs[PREFIX_SIZE + n + 1..SizeOf(name, |data|)]| == |name| - n + |data|;
  }

  // ----- The copy buffer -----

  /** The copy buffer: replaced when too small, otherwise overwritten from the
      front, so bytes of longer earlier messages stay behind the current one. */
  class CopyConfirmHandler {
    var data: array<SignedByte>
    var length: nat

    constructor ()
      ensures fresh(data) && data.Length == 4096 && length == 0
    {
      data := new SignedByte[4096](_ => 0);
      length := 0;
    }

    method Copy(ring: array<SignedByte>, index: nat, length: nat) returns (ok: bool)
      requires index + length <= ring.Length && ring != data
      modifies this, data
      ensures ok && this.length == length <= data.Length && ring[..] == old(ring[..])
      ensures data[..length] == ring[index..index + length]
      ensures if length > old(data.Length) then fresh(data) && data.Length == length
              else data == old(data) && forall k :: length <= k < data.Length ==> data[k] == old(data[k])
    {
      if length > data.Length {
        data := new SignedByte[length](_ => 0);
      }
      forall k | 0 <= k < length {
        data[k] := ring[index + k];
      }
      this.length := length;
      ok := true;
    }
  }

  /** Whatever tail the copy buffer carries, the filter sees only the message. */
  lemma {:induction false} StaleTailIgnored(generation: nat, postToDescendants: bool, name: seq<Byte>,
                                            payload: seq<Byte>,
                         buffer: seq<SignedByte>, readerGen: nat, readerName: seq<Byte>, handleDescendants: bool)
    requires generation < Range(GENERATION_BYTES) && NUL !in name
    requires SizeOf(name, |payload|) <= |buffer|
    requires buffer[..SizeOf(name, |payload|)] == SignedBytes(Layout(generation, postToDescendants, name, payload))
    ensures Filter(UnsignedBytes(buffer), SizeOf(name, |payload|), readerGen, readerName, handleDescendants)
            == if generation >= readerGen && Matches(readerName, handleDescendants, name, postToDescendants)
               then Accepted(payload) else Rejected
  {
    hide Layout, SignedBytes, UnsignedBytes, Filter;
    var bs, n := Layout(generation, postToDescendants, name, payload), SizeOf(name, |payload|);
    var all := UnsignedBytes(buffer);
    forall k | 0 <= k < n
      ensures all[k] == bs[k]
    {
      assert buffer[..n][k] == buffer[k];
    }
    assert all == bs + all[n..];
    RoundTrip(generation, postToDescendants, name, payload, all[n..], readerGen, readerName, handleDescendants);
  }
}
