/** IPC channels and their queued messages as a checkpoint blob. */
module IpcTable {
  import opened Bytes
  import opened Rows

  const MAGIC: U64 := 0x494B49504331
  const VERSION: U32 := 1
  const MAX_CHANNELS: nat := 32
  const MAX_MESSAGES: nat := 16
  const DATA_MAX: nat := 4096
  const HEADER_WIDTHS: seq<nat> := [8, 4, 4, 4, 4]
  const CHANNEL_WIDTHS: seq<nat> := [4, 4, 4, 1, 3]
  const MESSAGE_WIDTHS: seq<nat> := [4, 4, 4, 4, 4, 4, 4, 4, 8]
  const HEADER_SIZE: nat := 24
  const CHANNEL_SIZE: nat := 16
  const MESSAGE_SIZE: nat := 4136

  type Data = s: seq<Byte> | |s| == 4096 witness Zeros(4096)

  datatype Channel = Channel(id: U32, ownerPid: U32, permissions: U32, active: Byte, reserved: U24)

  datatype Message = Message(channelId: U32, kind: U32, srcPid: U32, dstPid: U32, messageId: U32, dataSize: U32,
                             flags: U32, reserved: U32, timestamp: U64, data: Data)

  lemma Sizes()
    ensures Size(HEADER_WIDTHS) == HEADER_SIZE && Size(CHANNEL_WIDTHS) == CHANNEL_SIZE && Size(MESSAGE_WIDTHS) == 40
  {
    assert HEADER_WIDTHS[1..] == [4, 4, 4, 4] && CHANNEL_WIDTHS[1..] == [4, 4, 1, 3];
    assert Size([4, 8]) == 12;
    assert [4, 4, 8][1..] == [4, 8];
    assert [4, 4, 4, 8][1..] == [4, 4, 8];
    assert [4, 4, 4, 4, 8][1..] == [4, 4, 4, 8];
    assert MESSAGE_WIDTHS[3..][1..] == [4, 4, 4, 4, 8];
    assert MESSAGE_WIDTHS[2..][1..] == MESSAGE_WIDTHS[3..];
    assert MESSAGE_WIDTHS[1..][1..] == MESSAGE_WIDTHS[2..];
  }

  // ----- Channels -----

  function ChannelFields(c: Channel): seq<nat> {
    [c.id, c.ownerPid, c.permissions, c.active, c.reserved]
  }

  function PackChannel(c: Channel): seq<Byte> {
    Pack(ChannelFields(c), CHANNEL_WIDTHS)
  }

  lemma ChannelBounds(v: seq<nat>)
    requires Fits(v, CHANNEL_WIDTHS)
    ensures v[0] < 0x1_0000_0000 && v[1] < 0x1_0000_0000 && v[2] < 0x1_0000_0000
    ensures v[3] < 0x100 && v[4] < 0x100_0000
  {
    hide Pow256;
    FieldWidths();
    assert forall i :: 0 <= i < 5 ==> v[i] < Pow256(CHANNEL_WIDTHS[i]);
  }

  function UnpackChannel(s: seq<Byte>): Channel
    requires |s| == CHANNEL_SIZE
  {
    Sizes();
    var v := Unpack(CHANNEL_WIDTHS, s);
    ChannelBounds(v);
    Channel(v[0], v[1], v[2], v[3], v[4])
  }

  lemma ChannelInverse()
    ensures Inverse(PackChannel, UnpackChannel, CHANNEL_SIZE)
  {
    forall c: Channel ensures |PackChannel(c)| == CHANNEL_SIZE && UnpackChannel(PackChannel(c)) == c {
      PackedChannel(c);
    }
    forall s: seq<Byte> | |s| == CHANNEL_SIZE ensures PackChannel(UnpackChannel(s)) == s {
      UnpackedChannel(s);
    }
  }

  lemma PackedChannel(c: Channel)
    ensures |PackChannel(c)| == CHANNEL_SIZE && UnpackChannel(PackChannel(c)) == c
  {
    hide Pack, Unpack, Size, Pow256;
    Sizes();
    FieldWidths();
    UnpackPack(ChannelFields(c), CHANNEL_WIDTHS, []);
    assert PackChannel(c) + [] == PackChannel(c);
  }

  lemma UnpackedChannel(s: seq<Byte>)
    requires |s| == CHANNEL_SIZE
    ensures PackChannel(UnpackChannel(s)) == s
  {
    hide Pack, Unpack, Size, Pow256;
    Sizes();
    PackUnpack(CHANNEL_WIDTHS, s);
    assert ChannelFields(UnpackChannel(s)) == Unpack(CHANNEL_WIDTHS, s);
    assert s[..CHANNEL_SIZE] == s;
  }

  // ----- Messages -----

  function MessageFields(m: Message): seq<nat> {
    [m.channelId, m.kind, m.srcPid, m.dstPid, m.messageId, m.dataSize, m.flags, m.reserved, m.timestamp]
  }

  function PackMessage(m: Message): seq<Byte> {
    Pack(MessageFields(m), MESSAGE_WIDTHS) + m.data
  }

  lemma MessageBounds(v: seq<nat>)
    requires Fits(v, MESSAGE_WIDTHS)
    ensures v[0] < 0x1_0000_0000 && v[1] < 0x1_0000_0000 && v[2] < 0x1_0000_0000 && v[3] < 0x1_0000_0000
    ensures v[4] < 0x1_0000_0000 && v[5] < 0x1_0000_0000 && v[6] < 0x1_0000_0000 && v[7] < 0x1_0000_0000
    ensures v[8] < 0x1_0000_0000_0000_0000
  {
    hide Pow256;
    FieldWidths();
    assert forall i :: 0 <= i < 9 ==> v[i] < Pow256(MESSAGE_WIDTHS[i]);
  }

  function UnpackMessage(s: seq<Byte>): Message
    requires |s| == MESSAGE_SIZE
  {
    Sizes();
    var v := Unpack(MESSAGE_WIDTHS, s);
    MessageBounds(v);
    Message(v[0], v[1], v[2], v[3], v[4], v[5], v[6], v[7], v[8], s[40..])
  }

  lemma MessageInverse()
    ensures Inverse(PackMessage, UnpackMessage, MESSAGE_SIZE)
  {
    forall m: Message ensures |PackMessage(m)| == MESSAGE_SIZE && UnpackMessage(PackMessage(m)) == m {
      PackedMessage(m);
    }
    forall s: seq<Byte> | |s| == MESSAGE_SIZE ensures PackMessage(UnpackMessage(s)) == s {
      UnpackedMessage(s);
    }
  }

  lemma PackedMessage(m: Message)
    ensures |PackMessage(m)| == MESSAGE_SIZE && UnpackMessage(PackMessage(m)) == m
  {
    hide Pack, Unpack, Size, Pow256;
    Sizes();
    FieldWidths();
    UnpackPack(MessageFields(m), MESSAGE_WIDTHS, m.data);
    assert PackMessage(m)[40..] == m.data;
  }

  lemma UnpackedMessage(s: seq<Byte>)
    requires |s| == MESSAGE_SIZE
    ensures PackMessage(UnpackMessage(s)) == s
  {
    hide Pack, Unpack, Size, Pow256;
    Sizes();
    PackUnpack(MESSAGE_WIDTHS, s);
    assert MessageFields(UnpackMessage(s)) == Unpack(MESSAGE_WIDTHS, s);
    assert s[..40] + s[40..] == s;
  }

  // ----- The blob -----

  datatype Ipc = Ipc(channels: seq<Channel>, messages: seq<Message>)

  lemma RowOffsets()
    ensures Offset(CHANNEL_WIDTHS, 0) == 0 && Offset(CHANNEL_WIDTHS, 1) == 4 && Offset(CHANNEL_WIDTHS, 2) == 8
    ensures Offset(CHANNEL_WIDTHS, 3) == 12
    ensures Offset(MESSAGE_WIDTHS, 0) == 0 && Offset(MESSAGE_WIDTHS, 1) == 4 && Offset(MESSAGE_WIDTHS, 2) == 8
    ensures Offset(MESSAGE_WIDTHS, 3) == 12 && Offset(MESSAGE_WIDTHS, 4) == 16 && Offset(MESSAGE_WIDTHS, 5) == 20
    ensures Offset(MESSAGE_WIDTHS, 6) == 24 && Offset(MESSAGE_WIDTHS, 7) == 28 && Offset(MESSAGE_WIDTHS, 8) == 32
  {
    hide Offset;
    OffsetStart(CHANNEL_WIDTHS);
    OffsetNext(CHANNEL_WIDTHS, 0);
    OffsetNext(CHANNEL_WIDTHS, 1);
    OffsetNext(CHANNEL_WIDTHS, 2);
    var w := MESSAGE_WIDTHS;
    OffsetStart(w);
    OffsetNext(w, 0);
    OffsetNext(w, 1);
    OffsetNext(w, 2);
    OffsetNext(w, 3);
    OffsetNext(w, 4);
    OffsetNext(w, 5);
    OffsetNext(w, 6);
    OffsetNext(w, 7);
  }

  /** A channel field by field. */
  lemma ChannelOnDisk(c: Channel)
    ensures
      var s := PackChannel(c);
      && |s| == 16 && s[0..4] == LE(c.id, 4) && s[4..8] == LE(c.ownerPid, 4)
      && s[8..12] == LE(c.permissions, 4) && s[12..13] == LE(c.active, 1)
  {
    hide LE, Pack, Offset;
    Sizes();
    RowOffsets();
    var v, w := ChannelFields(c), CHANNEL_WIDTHS;
    PackAt(v, w, 0);
    PackAt(v, w, 1);
    PackAt(v, w, 2);
    PackAt(v, w, 3);
  }

  /** A message field by field, and then its data. */
  lemma MessageOnDisk(m: Message)
    ensures
      var s := PackMessage(m);
      && |s| == 4136 && s[0..4] == LE(m.channelId, 4) && s[4..8] == LE(m.kind, 4) && s[8..12] == LE(m.srcPid, 4)
      && s[12..16] == LE(m.dstPid, 4) && s[16..20] == LE(m.messageId, 4) && s[20..24] == LE(m.dataSize, 4)
      && s[24..28] == LE(m.flags, 4) && s[32..40] == LE(m.timestamp, 8) && s[40..] == m.data
  {
    hide LE, Pack, Offset;
    Sizes();
    RowOffsets();
    var v, w := MessageFields(m), MESSAGE_WIDTHS;
    var s, head := PackMessage(m), Pack(v, w);
    PackAt(v, w, 0);
    PackAt(v, w, 1);
    PackAt(v, w, 2);
    PackAt(v, w, 3);
    PackAt(v, w, 4);
    PackAt(v, w, 5);
    PackAt(v, w, 6);
    PackAt(v, w, 8);
    assert s[0..4] == head[0..4] && s[4..8] == head[4..8] && s[8..12] == head[8..12] && s[12..16] == head[12..16];
    assert s[16..20] == head[16..20] && s[20..24] == head[20..24] && s[24..28] == head[24..28];
    assert s[32..40] == head[32..40] && s[40..] == m.data;
  }

  predicate Small(t: Ipc) {
    |t.channels| <= MAX_CHANNELS && |t.messages| <= MAX_MESSAGES
  }

  function Header(channels: U32, messages: U32, reserved: U32): (s: seq<Byte>)
    ensures |s| == HEADER_SIZE
  {
    Sizes();
    Pack([MAGIC, VERSION, channels, messages, reserved], HEADER_WIDTHS)
  }

  function MessagesAt(channels: nat): nat {
    HEADER_SIZE + channels * CHANNEL_SIZE
  }

  function BlobSize(channels: nat, messages: nat): nat {
    MessagesAt(channels) + messages * MESSAGE_SIZE
  }

  function Blob(t: Ipc): seq<Byte>
    requires Small(t)
  {
    Header(|t.channels|, |t.messages|, 0) + EncodeRows(PackChannel, t.channels) + EncodeRows(PackMessage, t.messages)
  }

  function Parse(s: seq<Byte>): Option<Ipc> {
    if |s| < HEADER_SIZE then None
    else
      Sizes();
      var h := Unpack(HEADER_WIDTHS, s);
      if h[0] != MAGIC || h[1] != VERSION || h[2] > MAX_CHANNELS || h[3] > MAX_MESSAGES then None
      else if |s| < BlobSize(h[2], h[3]) then None
      else Some(Ipc(DecodeRows(UnpackChannel, CHANNEL_SIZE, h[2], s[HEADER_SIZE..]),
                    DecodeRows(UnpackMessage, MESSAGE_SIZE, h[3], s[MessagesAt(h[2])..])))
  }

  lemma BlobLength(t: Ipc)
    requires Small(t)
    ensures |EncodeRows(PackChannel, t.channels)| == |t.channels| * CHANNEL_SIZE
    ensures |EncodeRows(PackMessage, t.messages)| == |t.messages| * MESSAGE_SIZE
    ensures |Blob(t)| == BlobSize(|t.channels|, |t.messages|)
  {
    hide EncodeRows, PackChannel, UnpackChannel, PackMessage, UnpackMessage;
    ChannelInverse();
    MessageInverse();
    EncodedSize(PackChannel, UnpackChannel, CHANNEL_SIZE, t.channels);
    EncodedSize(PackMessage, UnpackMessage, MESSAGE_SIZE, t.messages);
  }

  /** Which header bytes are accepted, and what they say. */
  lemma HeaderExactly(s: seq<Byte>, channels: U32, messages: U32, reserved: U32)
    requires |s| >= HEADER_SIZE == Size(HEADER_WIDTHS)
    ensures Unpack(HEADER_WIDTHS, s) == [MAGIC, VERSION, channels, messages, reserved] <==>
              s[..HEADER_SIZE] == Header(channels, messages, reserved)
  {
    hide Pack, Unpack, Size, Pow256;
    FieldWidths();
    PackUnpack(HEADER_WIDTHS, s);
    if s[..HEADER_SIZE] == Header(channels, messages, reserved) {
      assert s == Header(channels, messages, reserved) + s[HEADER_SIZE..];
      UnpackPack([MAGIC, VERSION, channels, messages, reserved], HEADER_WIDTHS, s[HEADER_SIZE..]);
    }
  }

  lemma HeaderOffsets()
    ensures Offset(HEADER_WIDTHS, 0) == 0 && Offset(HEADER_WIDTHS, 1) == 8
    ensures Offset(HEADER_WIDTHS, 2) == 12 && Offset(HEADER_WIDTHS, 3) == 16
  {
    assert HEADER_WIDTHS[1..] == [4, 4, 4, 4] && [4, 4, 4, 4][1..] == [4, 4, 4];
    assert Offset([4, 4, 4, 4], 1) == 4 && Offset([4, 4, 4, 4], 2) == 8;
  }

  /** Every blob starts with the magic, the version and the two counts. */
  lemma BlobStarts(t: Ipc)
    requires |t.channels| <= 32 && |t.messages| <= 16
    ensures |Blob(t)| >= 24
    ensures UnLE(Blob(t)[..8]) == 0x494B_4950_4331 && UnLE(Blob(t)[8..12]) == 1
    ensures UnLE(Blob(t)[12..16]) == |t.channels| && UnLE(Blob(t)[16..20]) == |t.messages|
  {
    hide UnLE, Unpack, EncodeRows, PackChannel, PackMessage, Header;
    Sizes();
    BlobLength(t);
    var s, w := Blob(t), HEADER_WIDTHS;
    HeaderExactly(s, |t.channels|, |t.messages|, 0);
    assert s[..24] == Header(|t.channels|, |t.messages|, 0);
    HeaderOffsets();
    hide Offset, Blob, Small;
    FieldAt(w, s, 0);
    FieldAt(w, s, 1);
    FieldAt(w, s, 2);
    FieldAt(w, s, 3);
    assert s[0..8] == s[..8];
  }

  /** What the reserved word of the header holds. */
  function ReservedOf(s: seq<Byte>): U32
    requires |s| >= HEADER_SIZE
  {
    Sizes();
    FieldWidths();
    Unpack(HEADER_WIDTHS, s)[4]
  }

  /** A blob is read as a table exactly when it starts with what writing that table produces, up to
      the reserved word, which the reader ignores. */
  lemma ParseExactly(s: seq<Byte>, t: Ipc)
    ensures Parse(s) == Some(t) <==>
              && |t.channels| <= 32 && |t.messages| <= 16 && |s| >= BlobSize(|t.channels|, |t.messages|)
              && s[..HEADER_SIZE] == Header(|t.channels|, |t.messages|, ReservedOf(s))
              && s[HEADER_SIZE..BlobSize(|t.channels|, |t.messages|)] == Blob(t)[HEADER_SIZE..]
  {
    hide Unpack, Size, Header, EncodeRows, DecodeRows, PackChannel, UnpackChannel, PackMessage, UnpackMessage;
    Sizes();
    var c, m := |t.channels|, |t.messages|;
    if Small(t) && |s| >= BlobSize(c, m) {
      var h := Unpack(HEADER_WIDTHS, s);
      assert h == [h[0], h[1], h[2], h[3], h[4]];
      HeaderExactly(s, c, m, ReservedOf(s));
      BodyExactly(s, t);
    }
  }

  lemma BodyExactly(s: seq<Byte>, t: Ipc)
    requires Small(t) && |s| >= BlobSize(|t.channels|, |t.messages|)
    ensures
      var c, m := |t.channels|, |t.messages|;
      && |Blob(t)| == BlobSize(c, m)
      && (s[HEADER_SIZE..BlobSize(c, m)] == Blob(t)[HEADER_SIZE..] <==>
            && DecodeRows(UnpackChannel, CHANNEL_SIZE, c, s[HEADER_SIZE..]) == t.channels
            && DecodeRows(UnpackMessage, MESSAGE_SIZE, m, s[MessagesAt(c)..]) == t.messages)
  {
    hide Header, EncodeRows, DecodeRows, PackChannel, UnpackChannel, PackMessage, UnpackMessage;
    var c, m := |t.channels|, |t.messages|;
    BlobLength(t);
    ChannelInverse();
    MessageInverse();
    RowsExactly(PackChannel, UnpackChannel, CHANNEL_SIZE, s[HEADER_SIZE..], t.channels);
    RowsExactly(PackMessage, UnpackMessage, MESSAGE_SIZE, s[MessagesAt(c)..], t.messages);
    TwoParts(s[HEADER_SIZE..BlobSize(c, m)], EncodeRows(PackChannel, t.channels), EncodeRows(PackMessage, t.messages));
    assert Blob(t)[HEADER_SIZE..] == EncodeRows(PackChannel, t.channels) + EncodeRows(PackMessage, t.messages);
    assert s[HEADER_SIZE..BlobSize(c, m)][..c * CHANNEL_SIZE] == s[HEADER_SIZE..][..c * CHANNEL_SIZE];
    assert s[HEADER_SIZE..BlobSize(c, m)][c * CHANNEL_SIZE..] == s[MessagesAt(c)..][..m * MESSAGE_SIZE];
  }

  lemma TwoParts(s: seq<Byte>, a: seq<Byte>, b: seq<Byte>)
    requires |s| == |a| + |b|
    ensures s == a + b <==> s[..|a|] == a && s[|a|..] == b
  {
    if s[..|a|] == a && s[|a|..] == b {
      assert s == s[..|a|] + s[|a|..];
    }
  }

  /** Two adjacent stretches copied one after the other. */
  lemma TwoCopies(b: seq<Byte>, off: nat, c: seq<Byte>, m: seq<Byte>)
    requires off + |c| + |m| <= |b|
    ensures
      var x := b[..off] + c + b[off + |c|..];
      x[..off + |c|] + m + x[off + |c| + |m|..] == b[..off] + c + m + b[off + |c| + |m|..]
  {
  }

  /** A header copied in front, then the rows behind it. */
  lemma HeaderThenRows(b: seq<Byte>, h: seq<Byte>, c: seq<Byte>, m: seq<Byte>)
    requires |h| + |c| + |m| <= |b|
    ensures
      var x, n := b[..0] + h + b[0 + |h|..], |h| + |c| + |m|;
      x[..|h|] + c + m + x[n..] == h + c + m + b[n..]
  {
    var x := b[..0] + h + b[0 + |h|..];
    assert x[..|h|] == h && x[|h| + |c| + |m|..] == b[|h| + |c| + |m|..];
  }

  lemma BlobHeader(t: Ipc, s: seq<Byte>)
    requires Small(t) && |s| >= |Blob(t)| && s[..|Blob(t)|] == Blob(t)
    ensures |s| >= HEADER_SIZE && ReservedOf(s) == 0
    ensures s[..HEADER_SIZE] == Header(|t.channels|, |t.messages|, 0)
  {
    hide Unpack, Size, Header, EncodeRows;
    Sizes();
    BlobLength(t);
    assert s[..HEADER_SIZE] == s[..|Blob(t)|][..HEADER_SIZE];
    HeaderExactly(s, |t.channels|, |t.messages|, 0);
  }

  /** Channels and messages come back as they were, the messages in queue order, and no shorter
      blob is read. */
  lemma RoundTrip(t: Ipc, tail: seq<Byte>, n: nat)
    requires Small(t) && n < |Blob(t)|
    ensures Parse(Blob(t) + tail) == Some(t)
    ensures Parse(Blob(t)[..n]) == None
  {
    hide Parse, Header, ReservedOf, EncodeRows;
    BlobLength(t);
    var s := Blob(t) + tail;
    assert s[..|Blob(t)|] == Blob(t);
    BlobHeader(t, s);
    ParseExactly(s, t);
    assert s[HEADER_SIZE..|Blob(t)|] == Blob(t)[HEADER_SIZE..];
    Truncated(t, n);
  }

  lemma Truncated(t: Ipc, n: nat)
    requires Small(t) && n < |Blob(t)|
    ensures Parse(Blob(t)[..n]) == None
  {
    hide Blob, DecodeRows, Unpack, Size;
    Sizes();
    BlobLength(t);
    var s := Blob(t)[..n];
    assert Blob(t)[..|Blob(t)|] == Blob(t);
    BlobHeader(t, Blob(t));
    if n >= HEADER_SIZE {
      assert s[..HEADER_SIZE] == Blob(t)[..HEADER_SIZE];
      HeaderExactly(s, |t.channels|, |t.messages|, 0);
    }
  }

  // ----- Referential integrity -----

  ghost predicate Present(cs: seq<Channel>, id: U32) {
    exists i :: 0 <= i < |cs| && cs[i].id == id
  }

  ghost predicate Consistent(t: Ipc) {
    && Small(t)
    && (forall i :: 0 <= i < |t.channels| ==> t.channels[i].id != 0)
    && (forall i, j :: 0 <= i < j < |t.channels| ==> t.channels[i].id != t.channels[j].id)
    && (forall i :: 0 <= i < |t.messages| ==>
          t.messages[i].dataSize <= 4096 && Present(t.channels, t.messages[i].channelId))
  }

  class Table {
    const channels: array<Channel>
    const messages: array<Message>
    var channelCount: U32
    var messageCount: U32

    ghost predicate Valid() {
      channels.Length == MAX_CHANNELS && messages.Length == MAX_MESSAGES
    }

    ghost predicate InBounds()
      reads this
    {
      channelCount <= MAX_CHANNELS && messageCount <= MAX_MESSAGES
    }

    ghost function View(): Ipc
      requires Valid() && InBounds()
      reads this, channels, messages
    {
      Ipc(channels[..channelCount], messages[..messageCount])
    }

    /** Writes the table, or nothing when a count is too high or the buffer too short. */
    method Serialize(buf: array<Byte>) returns (n: nat)
      requires Valid()
      modifies buf
      ensures n == 0 <==> !InBounds() || buf.Length < BlobSize(channelCount, messageCount)
      ensures n == 0 ==> buf[..] == old(buf[..])
      ensures n > 0 ==> n <= buf.Length && buf[..] == Blob(View()) + old(buf[n..])
    {
      hide PackChannel, UnpackChannel, PackMessage, UnpackMessage, Header, EncodeRows;
      if channelCount > MAX_CHANNELS || messageCount > MAX_MESSAGES || buf.Length < BlobSize(channelCount, messageCount) {
        return 0;
      }
      n := BlobSize(channelCount, messageCount);
      ghost var t := View();
      ghost var h, c, m :=
        Header(channelCount, messageCount, 0), EncodeRows(PackChannel, t.channels), EncodeRows(PackMessage, t.messages);
      BlobLength(t);
      HeaderThenRows(buf[..], h, c, m);
      CopyInto(buf, 0, Header(channelCount, messageCount, 0));
      WriteRows(buf);
    }

    /** The rows, behind the place of the header. */
    method WriteRows(buf: array<Byte>)
      requires Valid() && InBounds() && buf.Length >= BlobSize(channelCount, messageCount)
      modifies buf
      ensures
        var t, n := View(), BlobSize(channelCount, messageCount);
        buf[..] == old(buf[..HEADER_SIZE]) + EncodeRows(PackChannel, t.channels) + EncodeRows(PackMessage, t.messages)
                   + old(buf[n..])
    {
      hide PackChannel, UnpackChannel, PackMessage, UnpackMessage, EncodeRows;
      ChannelInverse();
      MessageInverse();
      ghost var t := View();
      BlobLength(t);
      TwoCopies(buf[..], HEADER_SIZE, EncodeRows(PackChannel, t.channels), EncodeRows(PackMessage, t.messages));
      WriteFrom(buf, HEADER_SIZE, channels, PackChannel, CHANNEL_SIZE, channelCount);
      WriteFrom(buf, MessagesAt(channelCount), messages, PackMessage, MESSAGE_SIZE, messageCount);
    }

    /** Takes the blob's rows when it is well formed; otherwise leaves the table as it was. */
    method Deserialize(s: seq<Byte>) returns (ok: bool)
      requires Valid()
      modifies this, channels, messages
      ensures ok <==> Parse(s).Some?
      ensures ok ==> InBounds() && Parse(s) == Some(View())
      ensures ok ==> channels[channelCount..] == old(channels[..])[channelCount..]
      ensures ok ==> messages[messageCount..] == old(messages[..])[messageCount..]
      ensures !ok ==> unchanged(this) && channels[..] == old(channels[..]) && messages[..] == old(messages[..])
    {
      hide UnpackChannel, UnpackMessage, Unpack, Size, DecodeRows;
      if |s| < HEADER_SIZE {
        return false;
      }
      Sizes();
      var h := Unpack(HEADER_WIDTHS, s);
      if h[0] != MAGIC || h[1] != VERSION || h[2] > MAX_CHANNELS || h[3] > MAX_MESSAGES {
        return false;
      }
      if |s| < BlobSize(h[2], h[3]) {
        return false;
      }
      channelCount, messageCount := h[2], h[3];
      ReadInto(channels, UnpackChannel, CHANNEL_SIZE, h[2], s[HEADER_SIZE..]);
      ReadInto(messages, UnpackMessage, MESSAGE_SIZE, h[3], s[MessagesAt(h[2])..]);
      ok := true;
    }

    /** The first channel with this id. */
    method FindChannel(id: U32) returns (at: Option<nat>)
      requires Valid() && InBounds()
      ensures at.None? <==> !Present(View().channels, id)
      ensures at.Some? ==> at.value < channelCount && channels[at.value].id == id &&
                           forall j :: 0 <= j < at.value ==> channels[j].id != id
    {
      for i := 0 to channelCount
        invariant forall j :: 0 <= j < i ==> channels[j].id != id
      {
        if channels[i].id == id {
          assert View().channels[i].id == id;
          return Some(i);
        }
      }
      at := None;
    }

    /** Accepts exactly the tables whose channel ids are nonzero and unique and whose messages all
        belong to a channel and fit their buffer. */
    method Validate() returns (ok: bool)
      requires Valid()
      ensures ok <==> InBounds() && Consistent(View())
    {
      hide Present;
      if channelCount > MAX_CHANNELS || messageCount > MAX_MESSAGES {
        return false;
      }
      ghost var t := View();
      for i := 0 to channelCount
        invariant forall j :: 0 <= j < i ==> t.channels[j].id != 0
        invariant forall j, k :: 0 <= j < i && j < k < |t.channels| ==> t.channels[j].id != t.channels[k].id
      {
        assert channels[i] == t.channels[i];
        if channels[i].id == 0 {
          return false;
        }
        for j := i + 1 to channelCount
          invariant forall k :: i < k < j ==> t.channels[k].id != t.channels[i].id
        {
          assert channels[j] == t.channels[j];
          if channels[j].id == channels[i].id {
            return false;
          }
        }
      }
      for i := 0 to messageCount
        invariant forall j :: 0 <= j < i ==>
                    t.messages[j].dataSize <= DATA_MAX && Present(t.channels, t.messages[j].channelId)
      {
        assert messages[i] == t.messages[i];
        if messages[i].dataSize > DATA_MAX {
          return false;
        }
        var at := FindChannel(messages[i].channelId);
        if at.None? {
          return false;
        }
      }
      ok := true;
    }
  }
}
