/**
 * The MotoROS "simple message" used for real-time joint state feedback and
 * joint commands, as a byte codec.
 *
 * The source declares the message as packed (pack(1)) structs, enums and a
 * union. Every field is a 4-byte word: `int` and enum fields are 32-bit
 * signed integers, `float` fields are 32-bit IEEE words that the codec only
 * moves and never interprets. The packed struct is therefore a fixed image
 * of 91 words (364 bytes). The model writes that image explicitly: a message
 * becomes a sequence of words, and the words become little-endian bytes.
 */
module SimpleMessageCodec {
  import opened Wrappers

  /** Joints per group (ROS_MAX_JOINT) */
  const RosMaxJoint: nat := 10
  /** Groups per message (MOT_MAX_GR) */
  const MotMaxGr: nat := 4

  /** Sizes in bytes of the packed structs */
  const PrefixSize: nat := 4
  const HeaderSize: nat := 12
  const JointStateExDataSize: nat := 84
  const JointStateExSize: nat := 348
  const JointCommandExDataSize: nat := 44
  const JointCommandExSize: nat := 184
  const BodySize: nat := 348
  const MessageSize: nat := 364

  /** The same sizes counted in 4-byte words */
  const StateDataWords: nat := JointStateExDataSize / 4
  const CommandDataWords: nat := JointCommandExDataSize / 4
  const MessageWords: nat := MessageSize / 4
  /** Words of the command variant before the union's unused tail */
  const CommandImageWords: nat := (PrefixSize + HeaderSize + JointCommandExSize) / 4
  const CommandBodyWords: nat := JointCommandExSize / 4

  type Byte = x: int | 0 <= x < 0x100
  type Word = x: int | 0 <= x < 0x1_0000_0000
  type Int32 = x: int | -0x8000_0000 <= x < 0x8000_0000

  // ---------------------------------------------------------------------
  // 32-bit words
  // ---------------------------------------------------------------------

  /** The two's-complement word that stores a signed 32-bit integer */
  function IntWord(i: Int32): (w: Word)
    ensures w % 0x1_0000_0000 == i % 0x1_0000_0000
    ensures (w < 0x8000_0000) == (0 <= i)
  {
    if i < 0 then i + 0x1_0000_0000 else i
  }

  /** The signed 32-bit integer a word stores */
  function WordInt(w: Word): (i: Int32)
    ensures IntWord(i) == w
  {
    if w < 0x8000_0000 then w else w - 0x1_0000_0000
  }

  lemma IntWordRoundTrip(i: Int32)
    ensures WordInt(IntWord(i)) == i
  {
  }

  /** The four bytes of a word, least significant first */
  function WordBytes(w: Word): (r: seq<Byte>)
    ensures |r| == 4
  {
    [w % 0x100, (w / 0x100) % 0x100, (w / 0x1_0000) % 0x100, w / 0x100_0000]
  }

  /** The word four little-endian bytes hold */
  function WordOf(b: seq<Byte>): (w: Word)
    requires |b| == 4
    ensures WordBytes(w) == b
  {
    var w: int := b[0] as int + 0x100 * b[1] as int + 0x1_0000 * b[2] as int + 0x100_0000 * b[3] as int;
    ByteDigits(b[0], b[1], b[2], b[3]);
    w
  }

  lemma ByteDigits(b0: Byte, b1: Byte, b2: Byte, b3: Byte)
    ensures var w: int := b0 as int + 0x100 * b1 as int + 0x1_0000 * b2 as int + 0x100_0000 * b3 as int;
      w < 0x1_0000_0000 &&
      w % 0x100 == b0 && (w / 0x100) % 0x100 == b1 &&
      (w / 0x1_0000) % 0x100 == b2 && w / 0x100_0000 == b3
  {
    var w: int := b0 as int + 0x100 * b1 as int + 0x1_0000 * b2 as int + 0x100_0000 * b3 as int;
    var u: int := b1 as int + 0x100 * b2 as int + 0x1_0000 * b3 as int;
    var v: int := b2 as int + 0x100 * b3 as int;
    assert w == b0 + 0x100 * u;
    assert u == b1 + 0x100 * v;
    assert w / 0x100 == u && w % 0x100 == b0;
    assert u / 0x100 == v && u % 0x100 == b1;
    assert v / 0x100 == b3 && v % 0x100 == b2;
    assert w / 0x1_0000 == v;
    assert w / 0x100_0000 == b3;
  }

  lemma WordRoundTrip(w: Word)
    ensures WordOf(WordBytes(w)) == w
  {
    var b := WordBytes(w);
    var u := w / 0x100;
    var v := u / 0x100;
    assert w == b[0] + 0x100 * u;
    assert u == b[1] + 0x100 * v;
    assert v == b[2] + 0x100 * (v / 0x100);
    assert v / 0x100 == b[3];
  }

  /** Little-endian bytes of a sequence of words, in order */
  function WordsBytes(ws: seq<Word>): (r: seq<Byte>)
    ensures |r| == 4 * |ws|
  {
    if ws == [] then [] else WordBytes(ws[0]) + WordsBytes(ws[1..])
  }

  /** The words a byte sequence of whole words holds */
  function BytesWords(b: seq<Byte>): (ws: seq<Word>)
    requires |b| % 4 == 0
    ensures 4 * |ws| == |b|
    ensures WordsBytes(ws) == b
    decreases |b|
  {
    if b == [] then [] else [WordOf(b[..4])] + BytesWords(b[4..])
  }

  /** Word k of a byte image sits at byte offset 4 * k */
  lemma {:induction false} WordsBytesAt(ws: seq<Word>, k: nat)
    requires k < |ws|
    ensures WordsBytes(ws)[4 * k .. 4 * k + 4] == WordBytes(ws[k])
  {
    if k > 0 {
      WordsBytesAt(ws[1..], k - 1);
      assert WordsBytes(ws) == WordBytes(ws[0]) + WordsBytes(ws[1..]);
    }
  }

  lemma {:induction false} BytesWordsRoundTrip(ws: seq<Word>)
    ensures BytesWords(WordsBytes(ws)) == ws
  {
    if ws != [] {
      var b := WordsBytes(ws);
      assert b[..4] == WordBytes(ws[0]);
      assert b[4..] == WordsBytes(ws[1..]);
      WordRoundTrip(ws[0]);
      BytesWordsRoundTrip(ws[1..]);
    }
  }

  /** The word stored at a byte offset of a buffer */
  function WordAt(b: seq<Byte>, offset: nat): Word
    requires offset + 4 <= |b|
  {
    WordOf(b[offset .. offset + 4])
  }

  lemma WordAtImage(ws: seq<Word>, k: nat)
    requires k < |ws|
    ensures WordAt(WordsBytes(ws), 4 * k) == ws[k]
  {
    WordsBytesAt(ws, k);
    WordRoundTrip(ws[k]);
  }

  /** The first k words of an image are its first 4 * k bytes */
  lemma {:induction false} WordsBytesPrefix(ws: seq<Word>, k: nat)
    requires k <= |ws|
    ensures WordsBytes(ws)[..4 * k] == WordsBytes(ws[..k])
  {
    if k > 0 {
      WordsBytesPrefix(ws[1..], k - 1);
      assert ws[..k] == [ws[0]] + ws[1..][..k - 1];
      assert WordsBytes(ws[..k]) == WordBytes(ws[0]) + WordsBytes(ws[1..][..k - 1]);
    }
  }

  // ---------------------------------------------------------------------
  // Arrays of fixed-size structs
  // ---------------------------------------------------------------------

  /** The words of an array of structs, element after element */
  function Flatten(xss: seq<seq<Word>>): seq<Word>
  {
    if xss == [] then [] else xss[0] + Flatten(xss[1..])
  }

  /** Word offset of element g in an array of w-word structs */
  function Offset(w: nat, g: nat): nat
  {
    if g == 0 then 0 else w + Offset(w, g - 1)
  }

  lemma {:induction false} OffsetIsProduct(w: nat, g: nat)
    ensures Offset(w, g) == w * g
  {
    if g > 0 {
      OffsetIsProduct(w, g - 1);
      assert w * g == w * (g - 1) + w;
    }
  }

  /** A word sequence cut into n structs of w words */
  function Chunks(ws: seq<Word>, w: nat, n: nat): (r: seq<seq<Word>>)
    requires Offset(w, n) <= |ws|
    ensures |r| == n
    ensures forall g :: 0 <= g < n ==> |r[g]| == w
  {
    if n == 0 then [] else [ws[..w]] + Chunks(ws[w..], w, n - 1)
  }

  lemma {:induction false} ChunkAt(ws: seq<Word>, w: nat, n: nat, g: nat)
    requires Offset(w, n) <= |ws| && g < n
    ensures Offset(w, g) + w <= |ws|
    ensures Chunks(ws, w, n)[g] == ws[Offset(w, g) .. Offset(w, g) + w]
  {
    if g > 0 {
      ChunkAt(ws[w..], w, n - 1, g - 1);
    }
  }

  lemma {:induction false} FlattenLength(xss: seq<seq<Word>>, w: nat)
    requires forall i :: 0 <= i < |xss| ==> |xss[i]| == w
    ensures |Flatten(xss)| == Offset(w, |xss|)
  {
    if xss != [] {
      FlattenLength(xss[1..], w);
    }
  }

  /** Element g of an array of w-word structs starts at word Offset(w, g) */
  lemma {:induction false} FlattenAt(xss: seq<seq<Word>>, w: nat, g: nat)
    requires forall i :: 0 <= i < |xss| ==> |xss[i]| == w
    requires g < |xss|
    ensures |Flatten(xss)| == Offset(w, |xss|)
    ensures Offset(w, g) + w <= |Flatten(xss)|
    ensures Flatten(xss)[Offset(w, g) .. Offset(w, g) + w] == xss[g]
  {
    FlattenLength(xss, w);
    if g > 0 {
      FlattenAt(xss[1..], w, g - 1);
      assert Flatten(xss) == xss[0] + Flatten(xss[1..]);
    }
  }

  /** Cutting a word sequence into structs and laying them out again gives it back */
  lemma {:induction false} FlattenChunks(ws: seq<Word>, w: nat, n: nat)
    requires Offset(w, n) <= |ws|
    ensures Flatten(Chunks(ws, w, n)) == ws[..Offset(w, n)]
  {
    if n > 0 {
      var tail := ws[w..];
      FlattenChunks(tail, w, n - 1);
      assert Chunks(ws, w, n)[1..] == Chunks(tail, w, n - 1);
      assert ws[..Offset(w, n)] == ws[..w] + tail[..Offset(w, n - 1)];
    }
  }

  // ---------------------------------------------------------------------
  // Enumerations
  // ---------------------------------------------------------------------

  datatype MsgType = MotoRealtimeMotionJointStateEx | MotoRealtimeMotionJointCommandEx
  datatype CommType = CommInvalid | Topic | ServiceRequest | ServiceReply
  datatype ReplyType = ReplyInvalid | Success | Failure
  datatype MotoRealTimeMotionMode = Idle | JointPosition | JointVelocity

  function MsgTypeCode(t: MsgType): Int32
  {
    match t
    case MotoRealtimeMotionJointStateEx => 2030
    case MotoRealtimeMotionJointCommandEx => 2031
  }

  /** The message type a code names; only 2030 and 2031 name one */
  function MsgTypeOf(c: Int32): (r: Option<MsgType>)
    ensures r.Some? <==> c == 2030 || c == 2031
    ensures r.Some? ==> MsgTypeCode(r.value) == c
  {
    if c == 2030 then Some(MotoRealtimeMotionJointStateEx)
    else if c == 2031 then Some(MotoRealtimeMotionJointCommandEx)
    else None
  }

  function CommTypeCode(t: CommType): Int32
  {
    match t
    case CommInvalid => 0
    case Topic => 1
    case ServiceRequest => 2
    case ServiceReply => 3
  }

  /** The communication type a code names; only 0 to 3 name one */
  function CommTypeOf(c: Int32): (r: Option<CommType>)
    ensures r.Some? <==> 0 <= c <= 3
    ensures r.Some? ==> CommTypeCode(r.value) == c
  {
    if c == 0 then Some(CommInvalid)
    else if c == 1 then Some(Topic)
    else if c == 2 then Some(ServiceRequest)
    else if c == 3 then Some(ServiceReply)
    else None
  }

  function ReplyTypeCode(t: ReplyType): Int32
  {
    match t
    case ReplyInvalid => 0
    case Success => 1
    case Failure => 2
  }

  /** The reply type a code names; only 0 to 2 name one */
  function ReplyTypeOf(c: Int32): (r: Option<ReplyType>)
    ensures r.Some? <==> 0 <= c <= 2
    ensures r.Some? ==> ReplyTypeCode(r.value) == c
  {
    if c == 0 then Some(ReplyInvalid)
    else if c == 1 then Some(Success)
    else if c == 2 then Some(Failure)
    else None
  }

  function ModeCode(m: MotoRealTimeMotionMode): Int32
  {
    match m
    case Idle => 0
    case JointPosition => 1
    case JointVelocity => 2
  }

  /** The motion mode a code names; only 0 to 2 name one */
  function ModeOf(c: Int32): (r: Option<MotoRealTimeMotionMode>)
    ensures r.Some? <==> 0 <= c <= 2
    ensures r.Some? ==> ModeCode(r.value) == c
  {
    if c == 0 then Some(Idle)
    else if c == 1 then Some(JointPosition)
    else if c == 2 then Some(JointVelocity)
    else None
  }

  /** Every enumerator's code decodes back to it */
  lemma EnumCodesRoundTrip(t: MsgType, c: CommType, r: ReplyType, m: MotoRealTimeMotionMode)
    ensures MsgTypeOf(MsgTypeCode(t)) == Some(t)
    ensures CommTypeOf(CommTypeCode(c)) == Some(c)
    ensures ReplyTypeOf(ReplyTypeCode(r)) == Some(r)
    ensures ModeOf(ModeCode(m)) == Some(m)
  {
  }

  // ---------------------------------------------------------------------
  // Messages
  // ---------------------------------------------------------------------

  /** Feedback of one group: its id, then positions and velocities (float words) */
  datatype JointStateExData = JointStateExData(groupno: Int32, pos: seq<Word>, vel: seq<Word>)

  /** Command for one group: its id, then one float word per joint */
  datatype JointCommandExData = JointCommandExData(groupno: Int32, command: seq<Word>)

  datatype Header = Header(msgType: MsgType, commType: CommType, replyType: ReplyType)

  /** The union of the two bodies, tagged by its variant */
  datatype Body =
    | JointStateEx(messageId: Int32, mode: MotoRealTimeMotionMode, numberOfValidGroups: Int32,
                   jointStateExData: seq<JointStateExData>)
    | JointCommandEx(messageId: Int32, numberOfValidGroups: Int32,
                     jointCommandExData: seq<JointCommandExData>)

  datatype SimpleMessage = SimpleMessage(length: Int32, header: Header, body: Body)

  /** The message type that announces a body variant */
  function BodyType(b: Body): MsgType
  {
    match b
    case JointStateEx(_, _, _, _) => MotoRealtimeMotionJointStateEx
    case JointCommandEx(_, _, _) => MotoRealtimeMotionJointCommandEx
  }

  predicate ValidStateData(d: JointStateExData)
  {
    |d.pos| == RosMaxJoint && |d.vel| == RosMaxJoint
  }

  predicate ValidCommandData(d: JointCommandExData)
  {
    |d.command| == RosMaxJoint
  }

  /** The fixed capacities of the packed arrays */
  predicate ValidBody(b: Body)
  {
    match b
    case JointStateEx(_, _, _, ds) =>
      |ds| == MotMaxGr && forall g :: 0 <= g < |ds| ==> ValidStateData(ds[g])
    case JointCommandEx(_, _, ds) =>
      |ds| == MotMaxGr && forall g :: 0 <= g < |ds| ==> ValidCommandData(ds[g])
  }

  /** A message the packed struct can hold, whose header announces its body */
  predicate Valid(m: SimpleMessage)
  {
    ValidBody(m.body) && m.header.msgType == BodyType(m.body)
  }

  // ---------------------------------------------------------------------
  // Word images of the packed structs
  // ---------------------------------------------------------------------

  function StateDataImage(d: JointStateExData): (ws: seq<Word>)
    requires ValidStateData(d)
    ensures 4 * |ws| == JointStateExDataSize
  {
    [IntWord(d.groupno)] + d.pos + d.vel
  }

  function StateDataOf(ws: seq<Word>): (d: JointStateExData)
    requires 4 * |ws| == JointStateExDataSize
    ensures ValidStateData(d) && StateDataImage(d) == ws
  {
    var d := JointStateExData(WordInt(ws[0]), ws[1 .. 1 + RosMaxJoint], ws[1 + RosMaxJoint ..]);
    assert StateDataImage(d) == ws by {
      assert ws == [ws[0]] + ws[1 .. 1 + RosMaxJoint] + ws[1 + RosMaxJoint ..];
    }
    d
  }

  function CommandDataImage(d: JointCommandExData): (ws: seq<Word>)
    requires ValidCommandData(d)
    ensures 4 * |ws| == JointCommandExDataSize
  {
    [IntWord(d.groupno)] + d.command
  }

  function CommandDataOf(ws: seq<Word>): (d: JointCommandExData)
    requires 4 * |ws| == JointCommandExDataSize
    ensures ValidCommandData(d) && CommandDataImage(d) == ws
  {
    var d := JointCommandExData(WordInt(ws[0]), ws[1..]);
    assert CommandDataImage(d) == ws by {
      assert ws == [ws[0]] + ws[1..];
    }
    d
  }

  lemma StateDataRoundTrip(d: JointStateExData)
    requires ValidStateData(d)
    ensures StateDataOf(StateDataImage(d)) == d
  {
    IntWordRoundTrip(d.groupno);
  }

  lemma CommandDataRoundTrip(d: JointCommandExData)
    requires ValidCommandData(d)
    ensures CommandDataOf(CommandDataImage(d)) == d
  {
    IntWordRoundTrip(d.groupno);
  }

  function StateGroupsImage(ds: seq<JointStateExData>): (ws: seq<Word>)
    requires forall g :: 0 <= g < |ds| ==> ValidStateData(ds[g])
    ensures |ws| == StateDataWords * |ds|
  {
    var xss := seq(|ds|, g requires 0 <= g < |ds| => StateDataImage(ds[g]));
    FlattenLength(xss, StateDataWords);
    OffsetIsProduct(StateDataWords, |ds|);
    Flatten(xss)
  }

  function CommandGroupsImage(ds: seq<JointCommandExData>): (ws: seq<Word>)
    requires forall g :: 0 <= g < |ds| ==> ValidCommandData(ds[g])
    ensures |ws| == CommandDataWords * |ds|
  {
    var xss := seq(|ds|, g requires 0 <= g < |ds| => CommandDataImage(ds[g]));
    FlattenLength(xss, CommandDataWords);
    OffsetIsProduct(CommandDataWords, |ds|);
    Flatten(xss)
  }

  /** The words of the union: the command variant is followed by zero words up to the union's size */
  function BodyImage(b: Body): (ws: seq<Word>)
    requires ValidBody(b)
    ensures 4 * |ws| == BodySize
    ensures b.JointStateEx? ==> 4 * |ws| == JointStateExSize
    ensures b.JointCommandEx? ==> forall k :: CommandBodyWords <= k < |ws| ==> ws[k] == 0
  {
    match b
    case JointStateEx(id, mode, n, ds) =>
      [IntWord(id), IntWord(ModeCode(mode)), IntWord(n)] + StateGroupsImage(ds)
    case JointCommandEx(id, n, ds) =>
      var cmd := [IntWord(id), IntWord(n)] + CommandGroupsImage(ds);
      assert 4 * |cmd| == JointCommandExSize;
      cmd + seq((BodySize - JointCommandExSize) / 4, _ => 0)
  }

  function HeaderImage(h: Header): (ws: seq<Word>)
    ensures 4 * |ws| == HeaderSize
  {
    [IntWord(MsgTypeCode(h.msgType)), IntWord(CommTypeCode(h.commType)), IntWord(ReplyTypeCode(h.replyType))]
  }

  /** The packed SimpleMessage as words: prefix, header, body */
  function MessageImage(m: SimpleMessage): (ws: seq<Word>)
    requires Valid(m)
    ensures 4 * |ws| == PrefixSize + HeaderSize + BodySize
    ensures |ws| == MessageWords
  {
    [IntWord(m.length)] + HeaderImage(m.header) + BodyImage(m.body)
  }

  // ---------------------------------------------------------------------
  // Encoder and decoder
  // ---------------------------------------------------------------------

  datatype DecodeError = Truncated | UnknownMsgType | UnknownCommType | UnknownReplyType | UnknownMotionMode

  datatype Result<T> = Ok(value: T) | Err(error: DecodeError)

  /** The byte image of a message; the same size whatever its variant */
  function Encode(m: SimpleMessage): (b: seq<Byte>)
    requires Valid(m)
    ensures |b| == MessageSize
  {
    WordsBytes(MessageImage(m))
  }

  /** Reads a body of the announced variant from the union's words */
  function BodyOf(t: MsgType, ws: seq<Word>): (r: Result<Body>)
    requires 4 * |ws| == BodySize
    ensures r.Ok? ==> ValidBody(r.value) && BodyType(r.value) == t
    ensures r.Err? ==> r.error == UnknownMotionMode
    ensures r.Err? <==> t == MotoRealtimeMotionJointStateEx && ModeOf(WordInt(ws[1])).None?
  {
    match t
    case MotoRealtimeMotionJointStateEx =>
      var mode := ModeOf(WordInt(ws[1]));
      if mode.None? then Err(UnknownMotionMode)
      else
        OffsetIsProduct(StateDataWords, MotMaxGr);
        var chunks := Chunks(ws[3..], StateDataWords, MotMaxGr);
        var ds := seq(MotMaxGr, g requires 0 <= g < MotMaxGr => StateDataOf(chunks[g]));
        Ok(JointStateEx(WordInt(ws[0]), mode.value, WordInt(ws[2]), ds))
    case MotoRealtimeMotionJointCommandEx =>
      OffsetIsProduct(CommandDataWords, MotMaxGr);
      var chunks := Chunks(ws[2..], CommandDataWords, MotMaxGr);
      var ds := seq(MotMaxGr, g requires 0 <= g < MotMaxGr => CommandDataOf(chunks[g]));
      Ok(JointCommandEx(WordInt(ws[0]), WordInt(ws[1]), ds))
  }

  /** Reads a message from its word image, checking every enumeration code */
  function MessageOf(ws: seq<Word>): (r: Result<SimpleMessage>)
    requires |ws| == MessageWords
    ensures r.Ok? ==> Valid(r.value)
    ensures MsgTypeOf(WordInt(ws[1])).None? ==> r == Err(UnknownMsgType)
    ensures MsgTypeOf(WordInt(ws[1])).Some? && CommTypeOf(WordInt(ws[2])).None? ==> r == Err(UnknownCommType)
    ensures MsgTypeOf(WordInt(ws[1])).Some? && CommTypeOf(WordInt(ws[2])).Some? && ReplyTypeOf(WordInt(ws[3])).None?
      ==> r == Err(UnknownReplyType)
    ensures r.Err? <==>
      MsgTypeOf(WordInt(ws[1])).None? || CommTypeOf(WordInt(ws[2])).None? || ReplyTypeOf(WordInt(ws[3])).None? ||
      (MsgTypeOf(WordInt(ws[1])) == Some(MotoRealtimeMotionJointStateEx) && ModeOf(WordInt(ws[5])).None?)
  {
    var t := MsgTypeOf(WordInt(ws[1]));
    var c := CommTypeOf(WordInt(ws[2]));
    var rt := ReplyTypeOf(WordInt(ws[3]));
    if t.None? then Err(UnknownMsgType)
    else if c.None? then Err(UnknownCommType)
    else if rt.None? then Err(UnknownReplyType)
    else
      match BodyOf(t.value, ws[4..])
      case Err(e) => Err(e)
      case Ok(body) => Ok(SimpleMessage(WordInt(ws[0]), Header(t.value, c.value, rt.value), body))
  }

  /**
   * Reads a message from a received buffer. Fewer bytes than the packed
   * struct are rejected; bytes beyond it are not read.
   */
  function Decode(b: seq<Byte>): (r: Result<SimpleMessage>)
    ensures r == Err(Truncated) <==> |b| < MessageSize
    ensures r.Ok? ==> Valid(r.value)
  {
    if |b| < MessageSize then Err(Truncated)
    else MessageOf(BytesWords(b[..MessageSize]))
  }

  // ---------------------------------------------------------------------
  // Round trips
  // ---------------------------------------------------------------------

  lemma StateBodyRoundTrip(b: Body)
    requires ValidBody(b) && b.JointStateEx?
    ensures BodyOf(MotoRealtimeMotionJointStateEx, BodyImage(b)) == Ok(b)
  {
    var ws := BodyImage(b);
    var ds := b.jointStateExData;
    var xss := seq(|ds|, g requires 0 <= g < |ds| => StateDataImage(ds[g]));
    var f := Flatten(xss);
    assert ws == [IntWord(b.messageId), IntWord(ModeCode(b.mode)), IntWord(b.numberOfValidGroups)] + f;
    assert ws[3..] == f;
    IntWordRoundTrip(b.messageId);
    IntWordRoundTrip(ModeCode(b.mode));
    IntWordRoundTrip(b.numberOfValidGroups);
    EnumCodesRoundTrip(MotoRealtimeMotionJointStateEx, CommInvalid, ReplyInvalid, b.mode);
    OffsetIsProduct(StateDataWords, MotMaxGr);
    var chunks := Chunks(f, StateDataWords, MotMaxGr);
    forall g | 0 <= g < MotMaxGr
      ensures StateDataOf(chunks[g]) == ds[g]
    {
      ChunkAt(f, StateDataWords, MotMaxGr, g);
      FlattenAt(xss, StateDataWords, g);
      StateDataRoundTrip(ds[g]);
    }
    assert seq(MotMaxGr, g requires 0 <= g < MotMaxGr => StateDataOf(chunks[g])) == ds;
  }

  lemma CommandBodyRoundTrip(b: Body)
    requires ValidBody(b) && b.JointCommandEx?
    ensures BodyOf(MotoRealtimeMotionJointCommandEx, BodyImage(b)) == Ok(b)
  {
    var ws := BodyImage(b);
    var ds := b.jointCommandExData;
    var xss := seq(|ds|, g requires 0 <= g < |ds| => CommandDataImage(ds[g]));
    var f := Flatten(xss);
    assert ws[..2] == [IntWord(b.messageId), IntWord(b.numberOfValidGroups)];
    assert ws[2..][..|f|] == f;
    IntWordRoundTrip(b.messageId);
    IntWordRoundTrip(b.numberOfValidGroups);
    OffsetIsProduct(CommandDataWords, MotMaxGr);
    var chunks := Chunks(ws[2..], CommandDataWords, MotMaxGr);
    forall g | 0 <= g < MotMaxGr
      ensures CommandDataOf(chunks[g]) == ds[g]
    {
      ChunkAt(ws[2..], CommandDataWords, MotMaxGr, g);
      FlattenAt(xss, CommandDataWords, g);
      assert chunks[g] == f[Offset(CommandDataWords, g) .. Offset(CommandDataWords, g) + CommandDataWords];
      CommandDataRoundTrip(ds[g]);
    }
    assert seq(MotMaxGr, g requires 0 <= g < MotMaxGr => CommandDataOf(chunks[g])) == ds;
  }

  lemma BodyRoundTrip(b: Body)
    requires ValidBody(b)
    ensures BodyOf(BodyType(b), BodyImage(b)) == Ok(b)
  {
    if b.JointStateEx? {
      StateBodyRoundTrip(b);
    } else {
      CommandBodyRoundTrip(b);
    }
  }

  /** Reading the word image of a well-formed message gives the message back */
  lemma MessageRoundTrip(m: SimpleMessage)
    requires Valid(m)
    ensures MessageOf(MessageImage(m)) == Ok(m)
  {
    var ws := MessageImage(m);
    var h := m.header;
    IntWordRoundTrip(m.length);
    IntWordRoundTrip(MsgTypeCode(h.msgType));
    IntWordRoundTrip(CommTypeCode(h.commType));
    IntWordRoundTrip(ReplyTypeCode(h.replyType));
    EnumCodesRoundTrip(h.msgType, h.commType, h.replyType, Idle);
    assert ws[4..] == BodyImage(m.body);
    BodyRoundTrip(m.body);
  }

  /** decode(encode(m)) == m for every message the packed struct can hold */
  lemma DecodeEncode(m: SimpleMessage)
    requires Valid(m)
    ensures Decode(Encode(m)) == Ok(m)
  {
    var b := Encode(m);
    assert b[..MessageSize] == b;
    BytesWordsRoundTrip(MessageImage(m));
    MessageRoundTrip(m);
  }

  /** A decoded body, written back, gives the words it was read from (the command variant up to its own size) */
  lemma BodyImageOf(t: MsgType, ws: seq<Word>, b: Body)
    requires 4 * |ws| == BodySize && BodyOf(t, ws) == Ok(b)
    ensures b.JointStateEx? ==> BodyImage(b) == ws
    ensures b.JointCommandEx? ==> BodyImage(b)[..CommandBodyWords] == ws[..CommandBodyWords]
  {
    match b
    case JointStateEx(id, mode, n, ds) =>
      OffsetIsProduct(StateDataWords, MotMaxGr);
      var chunks := Chunks(ws[3..], StateDataWords, MotMaxGr);
      var xss := seq(|ds|, g requires 0 <= g < |ds| => StateDataImage(ds[g]));
      assert xss == chunks;
      FlattenChunks(ws[3..], StateDataWords, MotMaxGr);
      assert ws == [ws[0], ws[1], ws[2]] + ws[3..];
    case JointCommandEx(id, n, ds) =>
      OffsetIsProduct(CommandDataWords, MotMaxGr);
      var chunks := Chunks(ws[2..], CommandDataWords, MotMaxGr);
      var xss := seq(|ds|, g requires 0 <= g < |ds| => CommandDataImage(ds[g]));
      assert xss == chunks;
      FlattenChunks(ws[2..], CommandDataWords, MotMaxGr);
      assert ws[..CommandBodyWords] == [ws[0], ws[1]] + ws[2..][..Offset(CommandDataWords, MotMaxGr)];
  }

  /** A decoded message, written back, gives the words it was read from */
  lemma MessageImageOf(ws: seq<Word>, m: SimpleMessage)
    requires |ws| == MessageWords && MessageOf(ws) == Ok(m)
    ensures m.body.JointStateEx? ==> MessageImage(m) == ws
    ensures m.body.JointCommandEx? ==> MessageImage(m)[..CommandImageWords] == ws[..CommandImageWords]
  {
    BodyImageOf(m.header.msgType, ws[4..], m.body);
    var img := MessageImage(m);
    assert img[..4] == ws[..4];
    assert img == img[..4] + BodyImage(m.body);
    assert ws == ws[..4] + ws[4..];
    if m.body.JointCommandEx? {
      assert img[..CommandImageWords] == img[..4] + BodyImage(m.body)[..CommandBodyWords];
      assert ws[..CommandImageWords] == ws[..4] + ws[4..][..CommandBodyWords];
    }
  }

  /**
   * The packed struct is its own byte image: every byte a joint-state
   * message occupies is one of its fields, and so is every byte of a
   * joint-command message up to the end of its own variant.
   */
  lemma EncodeDecode(b: seq<Byte>, m: SimpleMessage)
    requires Decode(b) == Ok(m)
    ensures |b| >= MessageSize
    ensures m.body.JointStateEx? ==> Encode(m) == b[..MessageSize]
    ensures m.body.JointCommandEx? ==> Encode(m)[..4 * CommandImageWords] == b[..4 * CommandImageWords]
  {
    var ws := BytesWords(b[..MessageSize]);
    MessageImageOf(ws, m);
    if m.body.JointCommandEx? {
      WordsBytesPrefix(MessageImage(m), CommandImageWords);
      WordsBytesPrefix(ws, CommandImageWords);
    }
  }

  // ---------------------------------------------------------------------
  // Field offsets
  // ---------------------------------------------------------------------

  /**
   * A buffer of full length is rejected exactly when its message type
   * (byte 4), communication type (byte 8) or reply type (byte 12) names no
   * enumerator, or it is a joint state whose mode (byte 20) names none.
   */
  lemma {:induction false} DecodeRejects(b: seq<Byte>)
    requires |b| >= MessageSize
    ensures Decode(b).Err? <==>
      MsgTypeOf(WordInt(WordAt(b, 4))).None? || CommTypeOf(WordInt(WordAt(b, 8))).None? ||
      ReplyTypeOf(WordInt(WordAt(b, 12))).None? ||
      (MsgTypeOf(WordInt(WordAt(b, 4))) == Some(MotoRealtimeMotionJointStateEx) && ModeOf(WordInt(WordAt(b, 20))).None?)
  {
    var ws := BytesWords(b[..MessageSize]);
    WordAtPrefix(b, MessageSize, 4);
    WordAtPrefix(b, MessageSize, 8);
    WordAtPrefix(b, MessageSize, 12);
    WordAtPrefix(b, MessageSize, 20);
    WordAtImage(ws, 1);
    WordAtImage(ws, 2);
    WordAtImage(ws, 3);
    WordAtImage(ws, 5);
  }

  lemma WordAtPrefix(b: seq<Byte>, n: nat, offset: nat)
    requires offset + 4 <= n <= |b|
    ensures WordAt(b[..n], offset) == WordAt(b, offset)
  {
    assert b[..n][offset .. offset + 4] == b[offset .. offset + 4];
  }

  /** Prefix, header and message id sit at the same offsets in both variants */
  lemma HeaderOffsets(m: SimpleMessage)
    requires Valid(m)
    ensures WordAt(Encode(m), 0) == IntWord(m.length)
    ensures WordAt(Encode(m), 4) == IntWord(MsgTypeCode(m.header.msgType))
    ensures WordAt(Encode(m), 8) == IntWord(CommTypeCode(m.header.commType))
    ensures WordAt(Encode(m), 12) == IntWord(ReplyTypeCode(m.header.replyType))
    ensures WordAt(Encode(m), 16) == IntWord(m.body.messageId)
  {
    var ws := MessageImage(m);
    WordAtImage(ws, 0);
    WordAtImage(ws, 1);
    WordAtImage(ws, 2);
    WordAtImage(ws, 3);
    WordAtImage(ws, 4);
  }

  /** The word image of a message is its prefix and header words, then its body's */
  lemma ImageParts(m: SimpleMessage)
    requires Valid(m)
    ensures MessageImage(m)[0] == IntWord(m.length)
    ensures MessageImage(m)[1..4] == HeaderImage(m.header)
    ensures MessageImage(m)[4..] == BodyImage(m.body)
  {
  }

  lemma StateGroupImage(m: SimpleMessage, g: nat)
    requires Valid(m) && m.body.JointStateEx? && g < MotMaxGr
    ensures 7 + StateDataWords * g + StateDataWords <= |MessageImage(m)|
    ensures MessageImage(m)[7 + StateDataWords * g .. 7 + StateDataWords * g + StateDataWords]
      == StateDataImage(m.body.jointStateExData[g])
  {
    var ds := m.body.jointStateExData;
    var xss := seq(|ds|, i requires 0 <= i < |ds| => StateDataImage(ds[i]));
    FlattenAt(xss, StateDataWords, g);
    OffsetIsProduct(StateDataWords, g);
    ImageParts(m);
    var ws := MessageImage(m);
    assert BodyImage(m.body)[3..] == Flatten(xss);
    assert ws[7..] == Flatten(xss);
  }

  lemma CommandGroupImage(m: SimpleMessage, g: nat)
    requires Valid(m) && m.body.JointCommandEx? && g < MotMaxGr
    ensures 6 + CommandDataWords * g + CommandDataWords <= |MessageImage(m)|
    ensures MessageImage(m)[6 + CommandDataWords * g .. 6 + CommandDataWords * g + CommandDataWords]
      == CommandDataImage(m.body.jointCommandExData[g])
  {
    var ds := m.body.jointCommandExData;
    var xss := seq(|ds|, i requires 0 <= i < |ds| => CommandDataImage(ds[i]));
    FlattenAt(xss, CommandDataWords, g);
    OffsetIsProduct(CommandDataWords, g);
    ImageParts(m);
    var ws := MessageImage(m);
    assert BodyImage(m.body)[2..][..Offset(CommandDataWords, MotMaxGr)] == Flatten(xss);
    assert ws[6..][..Offset(CommandDataWords, MotMaxGr)] == Flatten(xss);
  }

  /** Word positions of one group of a joint-state message */
  lemma StateFieldWords(m: SimpleMessage, g: nat, j: nat)
    requires Valid(m) && m.body.JointStateEx? && g < MotMaxGr && j < RosMaxJoint
    ensures 18 + 21 * g + j < |MessageImage(m)|
    ensures MessageImage(m)[7 + 21 * g] == IntWord(m.body.jointStateExData[g].groupno)
    ensures MessageImage(m)[8 + 21 * g + j] == m.body.jointStateExData[g].pos[j]
    ensures MessageImage(m)[18 + 21 * g + j] == m.body.jointStateExData[g].vel[j]
  {
    var ws := MessageImage(m);
    var d := m.body.jointStateExData[g];
    StateGroupImage(m, g);
    var slice := ws[7 + 21 * g .. 28 + 21 * g];
    assert slice == [IntWord(d.groupno)] + d.pos + d.vel;
    assert ws[7 + 21 * g] == slice[0];
    assert ws[8 + 21 * g + j] == slice[1 + j];
    assert ws[18 + 21 * g + j] == slice[11 + j];
  }

  lemma StateFieldOffsets(m: SimpleMessage, g: nat, j: nat)
    requires Valid(m) && m.body.JointStateEx? && g < MotMaxGr && j < RosMaxJoint
    ensures WordAt(Encode(m), 28 + 84 * g) == IntWord(m.body.jointStateExData[g].groupno)
    ensures WordAt(Encode(m), 32 + 84 * g + 4 * j) == m.body.jointStateExData[g].pos[j]
    ensures WordAt(Encode(m), 72 + 84 * g + 4 * j) == m.body.jointStateExData[g].vel[j]
  {
    var ws := MessageImage(m);
    StateFieldWords(m, g, j);
    WordAtImage(ws, 7 + 21 * g);
    WordAtImage(ws, 8 + 21 * g + j);
    WordAtImage(ws, 18 + 21 * g + j);
  }

  /** Byte offsets of the joint-state body: mode at 20, group count at 24, group g at 28 + 84 * g */
  lemma StateOffsets(m: SimpleMessage)
    requires Valid(m) && m.body.JointStateEx?
    ensures WordAt(Encode(m), 20) == IntWord(ModeCode(m.body.mode))
    ensures WordAt(Encode(m), 24) == IntWord(m.body.numberOfValidGroups)
    ensures forall g :: 0 <= g < MotMaxGr ==>
      WordAt(Encode(m), 28 + 84 * g) == IntWord(m.body.jointStateExData[g].groupno)
    ensures forall g, j :: 0 <= g < MotMaxGr && 0 <= j < RosMaxJoint ==>
      WordAt(Encode(m), 32 + 84 * g + 4 * j) == m.body.jointStateExData[g].pos[j] &&
      WordAt(Encode(m), 72 + 84 * g + 4 * j) == m.body.jointStateExData[g].vel[j]
  {
    var ws := MessageImage(m);
    ImageParts(m);
    assert ws[5] == BodyImage(m.body)[1];
    assert ws[6] == BodyImage(m.body)[2];
    WordAtImage(ws, 5);
    WordAtImage(ws, 6);
    forall g | 0 <= g < MotMaxGr
      ensures WordAt(Encode(m), 28 + 84 * g) == IntWord(m.body.jointStateExData[g].groupno)
    {
      StateFieldOffsets(m, g, 0);
    }
    forall g, j | 0 <= g < MotMaxGr && 0 <= j < RosMaxJoint
      ensures WordAt(Encode(m), 32 + 84 * g + 4 * j) == m.body.jointStateExData[g].pos[j]
      ensures WordAt(Encode(m), 72 + 84 * g + 4 * j) == m.body.jointStateExData[g].vel[j]
    {
      StateFieldOffsets(m, g, j);
    }
  }

  /** Word positions of one group of a joint-command message */
  lemma CommandFieldWords(m: SimpleMessage, g: nat, j: nat)
    requires Valid(m) && m.body.JointCommandEx? && g < MotMaxGr && j < RosMaxJoint
    ensures 7 + 11 * g + j < |MessageImage(m)|
    ensures MessageImage(m)[6 + 11 * g] == IntWord(m.body.jointCommandExData[g].groupno)
    ensures MessageImage(m)[7 + 11 * g + j] == m.body.jointCommandExData[g].command[j]
  {
    var ws := MessageImage(m);
    var d := m.body.jointCommandExData[g];
    CommandGroupImage(m, g);
    var slice := ws[6 + 11 * g .. 17 + 11 * g];
    assert slice == [IntWord(d.groupno)] + d.command;
    assert ws[6 + 11 * g] == slice[0];
    assert ws[7 + 11 * g + j] == slice[1 + j];
  }

  lemma CommandFieldOffsets(m: SimpleMessage, g: nat, j: nat)
    requires Valid(m) && m.body.JointCommandEx? && g < MotMaxGr && j < RosMaxJoint
    ensures WordAt(Encode(m), 24 + 44 * g) == IntWord(m.body.jointCommandExData[g].groupno)
    ensures WordAt(Encode(m), 28 + 44 * g + 4 * j) == m.body.jointCommandExData[g].command[j]
  {
    var ws := MessageImage(m);
    CommandFieldWords(m, g, j);
    WordAtImage(ws, 6 + 11 * g);
    WordAtImage(ws, 7 + 11 * g + j);
  }

  /** Byte offsets of the joint-command body: group count at 20, group g at 24 + 44 * g */
  lemma CommandOffsets(m: SimpleMessage)
    requires Valid(m) && m.body.JointCommandEx?
    ensures WordAt(Encode(m), 20) == IntWord(m.body.numberOfValidGroups)
    ensures forall g :: 0 <= g < MotMaxGr ==>
      WordAt(Encode(m), 24 + 44 * g) == IntWord(m.body.jointCommandExData[g].groupno)
    ensures forall g, j :: 0 <= g < MotMaxGr && 0 <= j < RosMaxJoint ==>
      WordAt(Encode(m), 28 + 44 * g + 4 * j) == m.body.jointCommandExData[g].command[j]
  {
    var ws := MessageImage(m);
    ImageParts(m);
    assert ws[5] == BodyImage(m.body)[1];
    WordAtImage(ws, 5);
    forall g | 0 <= g < MotMaxGr
      ensures WordAt(Encode(m), 24 + 44 * g) == IntWord(m.body.jointCommandExData[g].groupno)
    {
      CommandFieldOffsets(m, g, 0);
    }
    forall g, j | 0 <= g < MotMaxGr && 0 <= j < RosMaxJoint
      ensures WordAt(Encode(m), 28 + 44 * g + 4 * j) == m.body.jointCommandExData[g].command[j]
    {
      CommandFieldOffsets(m, g, j);
    }
  }

  // ---------------------------------------------------------------------
  // Message id acknowledgement
  // ---------------------------------------------------------------------

  /** The message id at byte 16, readable without knowing the variant */
  function MessageIdOf(b: seq<Byte>): (r: Option<Int32>)
    ensures r.Some? <==> 20 <= |b|
  {
    if |b| < 20 then None else Some(WordInt(WordAt(b, 16)))
  }

  /** A joint command answers the joint state whose message id it echoes */
  predicate Answers(command: SimpleMessage, feedback: SimpleMessage)
  {
    command.body.JointCommandEx? && feedback.body.JointStateEx? &&
    command.body.messageId == feedback.body.messageId
  }

  /** Every decoded message carries its message id at byte 16 */
  lemma MessageIdOnTheWire(b: seq<Byte>, m: SimpleMessage)
    requires Decode(b) == Ok(m)
    ensures MessageIdOf(b) == Some(m.body.messageId)
  {
    var ws := BytesWords(b[..MessageSize]);
    WordAtImage(ws, 4);
    assert b[16..20] == b[..MessageSize][16..20];
    assert m.body.messageId == WordInt(ws[4..][0]);
  }

  /** Whether a command answers a joint state can be read off the two byte images */
  lemma EchoOnTheWire(command: SimpleMessage, feedback: SimpleMessage)
    requires Valid(command) && Valid(feedback)
    requires command.body.JointCommandEx? && feedback.body.JointStateEx?
    ensures Answers(command, feedback) <==> MessageIdOf(Encode(command)) == MessageIdOf(Encode(feedback))
  {
    HeaderOffsets(command);
    HeaderOffsets(feedback);
    IntWordRoundTrip(command.body.messageId);
    IntWordRoundTrip(feedback.body.messageId);
  }
}
