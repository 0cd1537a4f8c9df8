/** From the bytes of the server to the mailboxes. Writing and decoding one whole message are unknown
    functions; all that is known of them is that decoding undoes writing on what the server writes. */
module Stream {
  import opened Ber
  import opened Bytes
  import opened Text
  import opened Framing
  import opened Connection

  /** decode gives None where LDAPMessage.load raises an exception. */
  datatype Codec = Codec(encode: Message -> seq<byte>, decode: seq<byte> -> Option<Message>)

  /** These messages have definite lengths and six bytes or more, and they can be decoded. The
      shortest LDAPMessage, with an id and an operation, has seven bytes. */
  predicate Fits(codec: Codec, ms: seq<Message>) {
    forall m | m in ms :: FitsOne(codec, m)
  }

  predicate FitsOne(codec: Codec, m: Message) {
    var bs := codec.encode(m);
    IsMessage(bs) && |bs| >= PREREAD && codec.decode(bs) == Some(m)
  }

  function EncodeAll(codec: Codec, ms: seq<Message>): (bs: seq<seq<byte>>)
    ensures |bs| == |ms|
  {
    if ms == [] then [] else [codec.encode(ms[0])] + EncodeAll(codec, ms[1..])
  }

  /** What the server writes. */
  function Written(codec: Codec, ms: seq<Message>): seq<byte> { Joined(EncodeAll(codec, ms)) }

  /** The messages that end within the first n bytes of it. */
  function Come(codec: Codec, ms: seq<Message>, n: nat): seq<Message> {
    if ms == [] || |codec.encode(ms[0])| > n then []
    else [ms[0]] + Come(codec, ms[1..], n - |codec.encode(ms[0])|)
  }

  // -------------------------------------------------- the reading task

  function DecodeAll(codec: Codec, parts: seq<seq<byte>>): (ms: Option<seq<Message>>)
    ensures ms.Some? ==> |ms.value| == |parts|
  {
    if parts == [] then Some([])
    else
      var m, rest := codec.decode(parts[0]), DecodeAll(codec, parts[1..]);
      if m.None? || rest.None? then None else Some([m.value] + rest.value)
  }

  /** What the reading task does with a packet: it takes it apart, decodes it and files the
      messages, or ends with an exception. */
  function Filing(codec: Codec, packet: seq<byte>): Step {
    var parts := Parts(packet);
    if parts.None? || parts.value == [] then Break
    else
      match DecodeAll(codec, parts.value)
      case None => Break
      case Some(ms) => Arrive(ms)
  }

  /** The loop over the packets of a chunk, during which nothing else runs. */
  function ReadTask(w: World, codec: Codec, packets: seq<seq<byte>>): World
    decreases |packets|
  {
    if packets == [] || !w.s.running then w
    else ReadTask(After(w, Filing(codec, packets[0])), codec, packets[1..])
  }

  /** The messages filed one by one, each in a packet of its own. */
  function FiledAll(w: World, ms: seq<Message>): (w': World)
    requires w.s.running
    ensures w'.s.running
    decreases |ms|
  {
    if ms == [] then w else FiledAll(After(w, Arrive([ms[0]])), ms[1..])
  }

  lemma FilingOne(codec: Codec, m: Message)
    requires FitsOne(codec, m)
    ensures Filing(codec, codec.encode(m)) == Arrive([m])
  {
    hide Parts;
    var bs := codec.encode(m);
    LengthIs(bs);
    OnePart(bs);
    assert DecodeAll(codec, [bs][1..]) == Some([]);
    assert DecodeAll(codec, [bs]) == Some([m] + []);
  }

  lemma {:induction false} ReadTaskFiles(w: World, codec: Codec, ms: seq<Message>)
    requires w.s.running && Fits(codec, ms)
    ensures ReadTask(w, codec, EncodeAll(codec, ms)) == FiledAll(w, ms)
    decreases |ms|
  {
    hide Filing, FitsOne, After;
    if ms != [] {
      FilingOne(codec, ms[0]);
      Running(w, [ms[0]]);
      assert EncodeAll(codec, ms)[1..] == EncodeAll(codec, ms[1..]);
      ReadTaskFiles(After(w, Arrive([ms[0]])), codec, ms[1..]);
    }
  }

  lemma Running(w: World, ms: seq<Message>)
    requires w.s.running && ms != []
    ensures After(w, Arrive(ms)).s.running
  {}

  // -------------------------------------------------- bytes and messages

  /** The packets in the first bytes are exactly the messages that end within them. */
  lemma {:induction false} PacketsCome(codec: Codec, ms: seq<Message>, bytes: seq<byte>)
    requires Fits(codec, ms) && bytes <= Written(codec, ms)
    ensures Packets(true, bytes) == EncodeAll(codec, Come(codec, ms, |bytes|))
    decreases |ms|
  {
    hide IsMessage;
    if ms != [] {
      var m, rest := codec.encode(ms[0]), EncodeAll(codec, ms[1..]);
      assert FitsOne(codec, ms[0]);
      assert EncodeAll(codec, ms)[1..] == rest && Written(codec, ms) == m + Joined(rest);
      if |m| <= |bytes| {
        var more := bytes[|m|..];
        assert bytes == m + more && more <= Joined(rest);
        CutFrame(true, m, more);
        PacketsCome(codec, ms[1..], more);
        var come := Come(codec, ms[1..], |more|);
        assert ([ms[0]] + come)[1..] == come;
      } else {
        Incomplete(m, Joined(rest), bytes);
      }
    }
  }

  lemma Incomplete(m: seq<byte>, more: seq<byte>, bytes: seq<byte>)
    requires IsMessage(m) && bytes <= m + more && |bytes| < |m|
    ensures Packets(true, bytes) == []
  {
    hide IsMessage;
    if |bytes| >= PREREAD {
      LengthThen(m, more);
      assert bytes[..PREREAD] == (m + more)[..PREREAD];
    }
  }

  lemma {:induction false} ComeGrows(codec: Codec, ms: seq<Message>, n: nat, n': nat)
    requires n <= n'
    ensures Come(codec, ms, n) <= Come(codec, ms, n')
    decreases |ms|
  {
    if ms != [] && |codec.encode(ms[0])| <= n {
      ComeGrows(codec, ms[1..], n - |codec.encode(ms[0])|, n' - |codec.encode(ms[0])|);
    }
  }

  lemma {:induction false} ComeAll(codec: Codec, ms: seq<Message>)
    ensures Come(codec, ms, |Written(codec, ms)|) == ms
    decreases |ms|
  {
    if ms != [] {
      ComeAll(codec, ms[1..]);
      assert EncodeAll(codec, ms)[1..] == EncodeAll(codec, ms[1..]);
    }
  }

  lemma {:induction false} ComeFits(codec: Codec, ms: seq<Message>, n: nat)
    ensures forall m | m in Come(codec, ms, n) :: m in ms
    decreases |ms|
  {
    if ms != [] && |codec.encode(ms[0])| <= n { ComeFits(codec, ms[1..], n - |codec.encode(ms[0])|); }
  }

  /** The messages that a chunk completes, when `came` are the bytes before it. */
  function News(codec: Codec, ms: seq<Message>, came: nat, n: nat): seq<Message> {
    Drop(Come(codec, ms, came + n), |Come(codec, ms, came)|)
  }

  lemma {:induction false} EncodeAppend(codec: Codec, a: seq<Message>, b: seq<Message>)
    ensures EncodeAll(codec, a + b) == EncodeAll(codec, a) + EncodeAll(codec, b)
    decreases |a|
  {
    if a == [] {
      assert a + b == b;
    } else {
      assert (a + b)[1..] == a[1..] + b;
      EncodeAppend(codec, a[1..], b);
    }
  }

  lemma NewsBehind(codec: Codec, ms: seq<Message>, came: nat, n: nat)
    ensures Come(codec, ms, came + n) == Come(codec, ms, came) + News(codec, ms, came, n)
  {
    hide Come;
    ComeGrows(codec, ms, came, came + n);
    TakeDrop(Come(codec, ms, came), Come(codec, ms, came + n));
  }

  lemma TakeDrop(a: seq<Message>, b: seq<Message>)
    requires a <= b
    ensures b == a + Drop(b, |a|)
  {}

  /** The packets of a chunk that continues the stream are exactly the messages it completes. */
  lemma NewPackets(codec: Codec, ms: seq<Message>, came: seq<byte>, chunk: seq<byte>)
    requires Fits(codec, ms) && came + chunk <= Written(codec, ms)
    ensures Packets(true, Left(true, came) + chunk) == EncodeAll(codec, News(codec, ms, |came|, |chunk|))
    ensures Left(true, Left(true, came) + chunk) == Left(true, came + chunk)
  {
    hide *;
    PacketsAppend(true, came, chunk);
    var a, b := EncodeAll(codec, Come(codec, ms, |came|)), EncodeAll(codec, News(codec, ms, |came|, |chunk|));
    assert Packets(true, came) == a by { PacketsBefore(codec, ms, came, chunk); }
    assert Packets(true, came + chunk) == a + b by { PacketsTwice(codec, ms, came + chunk, |came|, |chunk|); }
    SamePackets(Packets(true, came + chunk), a, Packets(true, Left(true, came) + chunk), b);
  }

  lemma PacketsBefore(codec: Codec, ms: seq<Message>, came: seq<byte>, chunk: seq<byte>)
    requires Fits(codec, ms) && came + chunk <= Written(codec, ms)
    ensures Packets(true, came) == EncodeAll(codec, Come(codec, ms, |came|))
  {
    hide *;
    PrefixOfPrefix(came, chunk, Written(codec, ms));
    PacketsCome(codec, ms, came);
  }

  lemma PacketsTwice(codec: Codec, ms: seq<Message>, all: seq<byte>, came: nat, n: nat)
    requires Fits(codec, ms) && all <= Written(codec, ms) && |all| == came + n
    ensures Packets(true, all) == EncodeAll(codec, Come(codec, ms, came)) + EncodeAll(codec, News(codec, ms, came, n))
  {
    hide *;
    PacketsCome(codec, ms, all);
    NewsEncoded(codec, ms, came, n);
  }

  lemma SamePackets(all: seq<seq<byte>>, a: seq<seq<byte>>, b: seq<seq<byte>>, c: seq<seq<byte>>)
    requires all == a + b && all == a + c
    ensures b == c
  {
    assert b == all[|a|..] == c;
  }

  lemma NewsEncoded(codec: Codec, ms: seq<Message>, came: nat, n: nat)
    ensures EncodeAll(codec, Come(codec, ms, came + n))
         == EncodeAll(codec, Come(codec, ms, came)) + EncodeAll(codec, News(codec, ms, came, n))
  {
    hide *;
    NewsBehind(codec, ms, came, n);
    EncodeAppend(codec, Come(codec, ms, came), News(codec, ms, came, n));
  }

  lemma PrefixOfPrefix(a: seq<byte>, b: seq<byte>, c: seq<byte>)
    requires a + b <= c
    ensures a <= c && |a + b| == |a| + |b|
  {
    assert a <= a + b;
  }

  lemma NewsFit(codec: Codec, ms: seq<Message>, came: nat, n: nat)
    requires Fits(codec, ms)
    ensures Fits(codec, News(codec, ms, came, n))
  {
    hide Come, FitsOne;
    ComeFits(codec, ms, came + n);
    var all := Come(codec, ms, came + n);
    assert forall m | m in News(codec, ms, came, n) :: m in all;
  }

  /** However the network cuts the server's bytes, and whenever one looks: the reading task has filed
      exactly the messages that have come in whole, each once, in order and in a packet of its own;
      and all of them when all bytes are there. */
  lemma StreamIsFiled(w: World, codec: Codec, ms: seq<Message>, chunks: seq<seq<byte>>)
    requires w.s.running && Fits(codec, ms) && Joined(chunks) <= Written(codec, ms)
    ensures ReadTask(w, codec, Fed(true, [], chunks).0) == FiledAll(w, Come(codec, ms, |Joined(chunks)|))
    ensures Joined(chunks) == Written(codec, ms) ==> Come(codec, ms, |Joined(chunks)|) == ms
  {
    hide Joined, FitsOne, Come, ReadTask, FiledAll;
    var bytes := Joined(chunks);
    ChunksDoNotMatter(true, [], chunks);
    assert [] + bytes == bytes;
    PacketsCome(codec, ms, bytes);
    ComeFits(codec, ms, |bytes|);
    ReadTaskFiles(w, codec, Come(codec, ms, |bytes|));
    ComeAll(codec, ms);
  }

  // -------------------------------------------------- an example

  /** Two messages, written by hand: an entry without attributes and the end of a search, whose length is
      in the long form. */
  const ENTRY := Message(0, Entry("x"))
  const DONE := Message(0, Done(true, []))

  const ENTRY_BYTES: seq<byte> := [48, 10, 2, 1, 0, 100, 5, 4, 1, 120, 48, 0]
  const DONE_BYTES: seq<byte> := [48, 0x84, 0, 0, 0, 12, 2, 1, 0, 101, 7, 10, 1, 0, 4, 0, 4, 0]

  const EXAMPLE: Codec := Codec(
    m => if m == ENTRY then ENTRY_BYTES else DONE_BYTES,
    bs => if bs == ENTRY_BYTES then Some(ENTRY) else if bs == DONE_BYTES then Some(DONE) else None)

  lemma ExampleFits()
    ensures Fits(EXAMPLE, [ENTRY, DONE])
  {
    var entry, done := ENTRY_BYTES, DONE_BYTES;
    assert entry[1..2] == [10] && done[1..6] == [0x84, 0, 0, 0, 12];
    assert HasLength(entry, 1) && HasLength(done, 5);
    assert FitsOne(EXAMPLE, ENTRY) && FitsOne(EXAMPLE, DONE);
  }
}
