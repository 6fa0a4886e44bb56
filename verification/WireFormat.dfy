/** The bytes of ids, instructions and instances. */
module WireFormat {
  import opened Bytes
  import opened Codecs
  import opened Ids
  import opened Instructions
  import opened Instances

  // ---------- ids ----------

  /** Both words, most significant byte first. */
  function IdBytes(id: InstanceID): (bs: seq<Byte>)
    ensures |bs| == 16
  {
    BigEndian(id.b0, 8) + BigEndian(id.b1, 8)
  }

  lemma WordFits(bs: seq<Byte>)
    requires |bs| == 8
    ensures ValueOf(bs) < 0x1_0000_0000_0000_0000
  {
    BigEndianOfValue(bs);
    assert Pow256(8) == 0x1_0000_0000_0000_0000;
  }

  /** The id written as the given 16 bytes. */
  function IdOf(bs: seq<Byte>): InstanceID
    requires |bs| == 16
  {
    WordFits(bs[..8]);
    WordFits(bs[8..]);
    InstanceID(ValueOf(bs[..8]), ValueOf(bs[8..]))
  }

  lemma IdRoundTrip(id: InstanceID)
    ensures IdOf(IdBytes(id)) == id
  {
    assert Pow256(8) == 0x1_0000_0000_0000_0000;
    ValueOfBigEndian(id.b0, 8);
    ValueOfBigEndian(id.b1, 8);
    assert IdBytes(id)[..8] == BigEndian(id.b0, 8) && IdBytes(id)[8..] == BigEndian(id.b1, 8);
  }

  lemma IdBytesRoundTrip(bs: seq<Byte>)
    requires |bs| == 16
    ensures IdBytes(IdOf(bs)) == bs
  {
    BigEndianOfValue(bs[..8]);
    BigEndianOfValue(bs[8..]);
  }

  /** Ids with equal timestamps are ordered as their bytes are. */
  lemma PrecedesComparesBytes(a: InstanceID, b: InstanceID)
    ensures Precedes(a, b) <==> if TimeOf(a) != TimeOf(b) then TimeOf(a) < TimeOf(b) else BytesLess(IdBytes(a), IdBytes(b))
  {
    assert Pow256(8) == 0x1_0000_0000_0000_0000;
    ValueOfBigEndian(a.b0, 8);
    ValueOfBigEndian(a.b1, 8);
    ValueOfBigEndian(b.b0, 8);
    ValueOfBigEndian(b.b1, 8);
    BytesLessConcat(BigEndian(a.b0, 8), BigEndian(a.b1, 8), BigEndian(b.b0, 8), BigEndian(b.b1, 8));
    BytesLessIsNumeric(BigEndian(a.b0, 8), BigEndian(b.b0, 8));
    BytesLessIsNumeric(BigEndian(a.b1, 8), BigEndian(b.b1, 8));
  }

  const Id: Codec<InstanceID> :=
    Codec(IdBytes, b => if |b| < 16 then Fail else Parsed(IdOf(b[..16]), b[16..]), _ => true)

  lemma IdIsCorrect()
    ensures Correct(Id)
  {
    hide IdBytes, IdOf;
    forall id, rest ensures Id.dec(Id.enc(id) + rest) == Parsed(id, rest) {
      IdRoundTrip(id);
      assert (IdBytes(id) + rest)[..16] == IdBytes(id) && (IdBytes(id) + rest)[16..] == rest;
    }
    forall b, more | Id.dec(b).Parsed? ensures Id.dec(b + more) == Parsed(Id.dec(b).value, Id.dec(b).rest + more) {
      assert (b + more)[..16] == b[..16] && (b + more)[16..] == b[16..] + more;
    }
    Conclude(Id);
  }

  // ---------- instructions ----------

  function DecodeTime(b: seq<Byte>): Parsed<Time> {
    match DecodeField(b)
    case Fail => Fail
    case Parsed(s, rest) => if IsTime(s) then Parsed(s, rest) else Fail
  }

  /** A time is a field of exactly 15 bytes that begins with the version. */
  const TimeField: Codec<Time> := Codec((t: Time) => Field.enc(t), DecodeTime, (t: Time) => true)

  lemma TimeFieldIsCorrect()
    ensures Correct(TimeField)
  {
    hide DecodeField, Correct;
    FieldIsCorrect();
    forall t: Time, rest ensures TimeField.dec(TimeField.enc(t) + rest) == Parsed(t, rest) {
      RoundTripIffFits(Field, t, rest);
    }
    forall b, more | TimeField.dec(b).Parsed?
      ensures TimeField.dec(b + more) == Parsed(TimeField.dec(b).value, TimeField.dec(b).rest + more)
    {
      StableAt(Field, b, more);
    }
    Conclude(TimeField);
  }

  type InstructionParts = (Text, (Text, (seq<Text>, Time)))

  function PartsOf(c: Instruction): InstructionParts {
    (c.cmd, (c.key, (c.args, c.timestamp)))
  }

  function FromParts(p: InstructionParts): Instruction {
    Instruction(p.0, p.1.0, p.1.1.0, p.1.1.1)
  }

  function InstructionCodec(): Codec<Instruction> {
    Mapped(Pair(Field, Pair(Field, Pair(ListOf(Field), TimeField))), FromParts, PartsOf, _ => true)
  }

  lemma InstructionIsCorrect()
    ensures Correct(InstructionCodec())
  {
    hide Correct, Field, TimeField, Pair, ListOf;
    FieldIsCorrect();
    TimeFieldIsCorrect();
    ListIsCorrect(Field);
    PairIsCorrect(ListOf(Field), TimeField);
    PairIsCorrect(Field, Pair(ListOf(Field), TimeField));
    PairIsCorrect(Field, Pair(Field, Pair(ListOf(Field), TimeField)));
    MappedIsCorrect(Pair(Field, Pair(Field, Pair(ListOf(Field), TimeField))), FromParts, PartsOf, _ => true);
  }

  // ---------- instances ----------

  function BallotOf(n: nat): Ballot {
    if n <= MAX_UINT32 then n else 0
  }

  function NumberOf(b: Ballot): nat {
    b
  }

  const BallotCodec: Codec<Ballot> := Mapped<nat, Ballot>(Uint32, BallotOf, NumberOf, (b: Ballot) => true)

  lemma BallotIsCorrect()
    ensures Correct(BallotCodec)
  {
    hide Correct, Uint32;
    Uint32IsCorrect();
    FitsUint32();
    MappedIsCorrect<nat, Ballot>(Uint32, BallotOf, NumberOf, (b: Ballot) => true);
  }

  lemma FitsUint32()
    ensures forall n: nat :: Uint32.fits(n) ==> n <= MAX_UINT32
  {
  }

  /** Id, leader and successors; command and dependencies; status and ballot;
      noop, dependency match and read only. */
  type InstanceParts =
    ((InstanceID, (NodeId, seq<NodeId>)),
     ((Instruction, seq<InstanceID>),
      ((Status, Ballot), (bool, (bool, bool)))))

  function InstancePartsOf(i: Instance): InstanceParts {
    ((i.id, (i.leader, i.successors)),
     ((i.command, i.deps),
      ((i.status, i.ballot), (i.noop, (i.depMatch, i.readOnly)))))
  }

  /** The component an instance belongs to is not sent. */
  function InstanceFromParts(p: InstanceParts): Instance {
    Instance(p.0.0, p.0.1.0, p.0.1.1, p.1.0.0, p.1.0.1, p.1.1.0.0, p.1.1.0.1, p.1.1.1.0, p.1.1.1.1.0, p.1.1.1.1.1, {})
  }

  function Header(): Codec<(InstanceID, (NodeId, seq<NodeId>))> {
    Pair(Id, Pair(Id, ListOf(Id)))
  }

  function Payload(): Codec<(Instruction, seq<InstanceID>)> {
    Pair(InstructionCodec(), ListOf(Id))
  }

  function State(): Codec<((Status, Ballot), (bool, (bool, bool)))> {
    Pair(Pair(Octet, BallotCodec), Pair(Flag, Pair(Flag, Flag)))
  }

  predicate Unrecorded(i: Instance) {
    i.scc == {}
  }

  function InstanceCodec(): Codec<Instance> {
    Mapped(Pair(Header(), Pair(Payload(), State())), InstanceFromParts, InstancePartsOf, Unrecorded)
  }

  lemma HeaderIsCorrect()
    ensures Correct(Header())
  {
    hide Correct, Id, Pair, ListOf;
    IdIsCorrect();
    ListIsCorrect(Id);
    PairIsCorrect(Id, ListOf(Id));
    PairIsCorrect(Id, Pair(Id, ListOf(Id)));
  }

  lemma PayloadIsCorrect()
    ensures Correct(Payload())
  {
    hide Correct, Id, Pair, ListOf, InstructionCodec;
    IdIsCorrect();
    ListIsCorrect(Id);
    InstructionIsCorrect();
    PairIsCorrect(InstructionCodec(), ListOf(Id));
  }

  lemma StateIsCorrect()
    ensures Correct(State())
  {
    hide Correct, Octet, Flag, BallotCodec, Pair;
    OctetIsCorrect();
    BallotIsCorrect();
    FlagIsCorrect();
    PairIsCorrect(Octet, BallotCodec);
    PairIsCorrect(Flag, Flag);
    PairIsCorrect(Flag, Pair(Flag, Flag));
    PairIsCorrect(Pair(Octet, BallotCodec), Pair(Flag, Pair(Flag, Flag)));
  }

  lemma InstanceIsCorrect()
    ensures Correct(InstanceCodec())
  {
    hide Correct, Pair, Header, Payload, State;
    HeaderIsCorrect();
    PayloadIsCorrect();
    StateIsCorrect();
    PairIsCorrect(Payload(), State());
    PairIsCorrect(Header(), Pair(Payload(), State()));
    MappedIsCorrect(Pair(Header(), Pair(Payload(), State())), InstanceFromParts, InstancePartsOf, Unrecorded);
  }

  // ---------- what the format carries ----------

  predicate ShortTexts(ts: seq<Text>) {
    |ts| <= MAX_UINT32 && forall i :: 0 <= i < |ts| ==> |ts[i]| <= MAX_UINT32
  }

  /** Every length fits the uint32 written in front of it. */
  predicate ShortInstruction(c: Instruction) {
    |c.cmd| <= MAX_UINT32 && |c.key| <= MAX_UINT32 && ShortTexts(c.args)
  }

  predicate ShortInstance(i: Instance) {
    |i.successors| <= MAX_UINT32 && |i.deps| <= MAX_UINT32 && ShortInstruction(i.command)
  }

  /** The sum of the parts, and whether each fits. */
  lemma InstructionUnfolds(c: Instruction)
    ensures InstructionCodec().fits(c) <==> Field.fits(c.cmd) && Field.fits(c.key) && ListOf(Field).fits(c.args)
    ensures |InstructionCodec().enc(c)| == |Field.enc(c.cmd)| + |Field.enc(c.key)| + |ListOf(Field).enc(c.args)| + 19
  {
    hide Field, ListOf, Pair, Mapped, TimeField;
    var p := PartsOf(c);
    MappedUnfolds(Pair(Field, Pair(Field, Pair(ListOf(Field), TimeField))), FromParts, PartsOf, _ => true, c);
    PairUnfolds(Field, Pair(Field, Pair(ListOf(Field), TimeField)), p);
    PairUnfolds(Field, Pair(ListOf(Field), TimeField), p.1);
    PairUnfolds(ListOf(Field), TimeField, p.1.1);
    TimeUnfolds(c.timestamp);
  }

  lemma TimeUnfolds(t: Time)
    ensures TimeField.fits(t) && |TimeField.enc(t)| == 19
  {
    FieldUnfolds(t);
    assert TimeField.enc(t) == Field.enc(t);
  }

  lemma InstanceUnfolds(i: Instance)
    ensures InstanceCodec().fits(i)
       <==> i.scc == {} && ListOf(Id).fits(i.successors) && InstructionCodec().fits(i.command) && ListOf(Id).fits(i.deps)
    ensures |InstanceCodec().enc(i)|
         == 32 + |ListOf(Id).enc(i.successors)| + |InstructionCodec().enc(i.command)| + |ListOf(Id).enc(i.deps)| + 8
  {
    hide Pair, Mapped, Header, Payload, State, InstructionCodec, ListOf;
    var p := InstancePartsOf(i);
    MappedUnfolds(Pair(Header(), Pair(Payload(), State())), InstanceFromParts, InstancePartsOf, Unrecorded, i);
    PairUnfolds(Header(), Pair(Payload(), State()), p);
    PairUnfolds(Payload(), State(), p.1);
    HeaderUnfolds(p.0);
    PayloadUnfolds(p.1.0);
    StateUnfolds(p.1.1);
  }

  lemma HeaderUnfolds(h: (InstanceID, (NodeId, seq<NodeId>)))
    ensures Header().fits(h) <==> ListOf(Id).fits(h.1.1)
    ensures |Header().enc(h)| == 32 + |ListOf(Id).enc(h.1.1)|
  {
    hide Pair, ListOf;
    PairUnfolds(Id, Pair(Id, ListOf(Id)), h);
    PairUnfolds(Id, ListOf(Id), h.1);
  }

  lemma PayloadUnfolds(p: (Instruction, seq<InstanceID>))
    ensures Payload().fits(p) <==> InstructionCodec().fits(p.0) && ListOf(Id).fits(p.1)
    ensures |Payload().enc(p)| == |InstructionCodec().enc(p.0)| + |ListOf(Id).enc(p.1)|
  {
    hide Pair, ListOf, InstructionCodec;
    PairUnfolds(InstructionCodec(), ListOf(Id), p);
  }

  lemma StateUnfolds(s: ((Status, Ballot), (bool, (bool, bool))))
    ensures State().fits(s) && |State().enc(s)| == 8
  {
    hide Pair, Flag, BallotCodec;
    PairUnfolds(Pair(Octet, BallotCodec), Pair(Flag, Pair(Flag, Flag)), s);
    PairUnfolds(Octet, BallotCodec, s.0);
    PairUnfolds(Flag, Pair(Flag, Flag), s.1);
    PairUnfolds(Flag, Flag, s.1.1);
    BallotUnfolds(s.0.1);
    FlagUnfolds(s.1.0);
    FlagUnfolds(s.1.1.0);
    FlagUnfolds(s.1.1.1);
  }

  lemma BallotUnfolds(b: Ballot)
    ensures BallotCodec.fits(b) && |BallotCodec.enc(b)| == 4
  {
    hide Uint32, Mapped;
    MappedUnfolds<nat, Ballot>(Uint32, BallotOf, NumberOf, (b: Ballot) => true, b);
    Uint32Unfolds(b);
  }

  lemma InstructionFits(c: Instruction)
    ensures InstructionCodec().fits(c) <==> ShortInstruction(c)
  {
    hide Field, ListOf, InstructionCodec;
    InstructionUnfolds(c);
    FieldUnfolds(c.cmd);
    FieldUnfolds(c.key);
    ListUnfolds(Field, c.args);
    forall s: Text ensures Field.fits(s) <==> |s| <= MAX_UINT32 {
      FieldUnfolds(s);
    }
  }

  lemma IdsFit(ids: seq<InstanceID>)
    ensures ListOf(Id).fits(ids) <==> |ids| <= MAX_UINT32
  {
  }

  lemma InstanceFits(i: Instance)
    ensures InstanceCodec().fits(i) <==> i.scc == {} && ShortInstance(i)
  {
    hide ShortInstruction, InstructionCodec, InstanceCodec, ListOf;
    InstanceUnfolds(i);
    InstructionFits(i.command);
    IdsFit(i.successors);
    IdsFit(i.deps);
  }

  /** An instance is read back, without its component, exactly when its lengths fit. */
  lemma InstanceRoundTrip(i: Instance, rest: seq<Byte>)
    ensures InstanceCodec().dec(InstanceCodec().enc(i) + rest) == Parsed(i.(scc := {}), rest) <==> ShortInstance(i)
  {
    hide Correct, ShortInstance, Pair, Header, Payload, State;
    var sent := i.(scc := {});
    assert InstancePartsOf(i) == InstancePartsOf(sent);
    assert InstanceCodec().enc(i) == InstanceCodec().enc(sent);
    InstanceIsCorrect();
    RoundTripIffFits(InstanceCodec(), sent, rest);
    InstanceFits(sent);
    SameLengths(i, sent);
  }

  lemma SameLengths(i: Instance, j: Instance)
    requires i.successors == j.successors && i.deps == j.deps && i.command == j.command
    ensures ShortInstance(i) <==> ShortInstance(j)
  {
  }

  // ---------- sizes ----------

  function NumStringBytes(s: Text): nat {
    4 + |s|
  }

  function InstructionNumBytes(c: Instruction): nat {
    NumStringBytes(c.cmd) + NumStringBytes(c.key) + 4 + TotalSize(NumStringBytes, c.args) + 19
  }

  function InstanceNumBytes(i: Instance): nat {
    16 + 16 + 4 + 16 * |i.successors| + InstructionNumBytes(i.command) + 4 + 16 * |i.deps| + 1 + 4 + 1 + 1 + 1
  }

  lemma InstructionSize(c: Instruction)
    ensures |InstructionCodec().enc(c)| == InstructionNumBytes(c)
  {
    hide Field, ListOf, InstructionCodec;
    InstructionUnfolds(c);
    FieldUnfolds(c.cmd);
    FieldUnfolds(c.key);
    ListUnfolds(Field, c.args);
    forall s: Text ensures |Field.enc(s)| == NumStringBytes(s) {
      FieldUnfolds(s);
    }
    SizeOfAll(Field.enc, NumStringBytes, c.args);
  }

  lemma IdsSize(ids: seq<InstanceID>)
    ensures |ListOf(Id).enc(ids)| == 4 + 16 * |ids|
  {
    hide ListOf;
    ListUnfolds(Id, ids);
    SizeOfFixed(Id.enc, 16, ids);
  }

  lemma InstanceSize(i: Instance)
    ensures |InstanceCodec().enc(i)| == InstanceNumBytes(i)
  {
    hide InstructionCodec, InstanceCodec, ListOf, InstructionNumBytes;
    InstanceUnfolds(i);
    InstructionSize(i.command);
    IdsSize(i.successors);
    IdsSize(i.deps);
  }

  // ---------- layout ----------

  function FlagByte(f: bool): Byte {
    if f then 0xff else 0
  }

  lemma InstructionLayout(c: Instruction)
    ensures InstructionCodec().enc(c) ==
      (Uint32.enc(|c.cmd|) + c.cmd) + ((Uint32.enc(|c.key|) + c.key)
      + ((Uint32.enc(|c.args|) + EncodeAll(Field.enc, c.args)) + (Uint32.enc(15) + c.timestamp)))
  {
    hide Pair, Mapped, Uint32, EncodeAll;
    var p := PartsOf(c);
    MappedUnfolds(Pair(Field, Pair(Field, Pair(ListOf(Field), TimeField))), FromParts, PartsOf, _ => true, c);
    PairUnfolds(Field, Pair(Field, Pair(ListOf(Field), TimeField)), p);
    PairUnfolds(Field, Pair(ListOf(Field), TimeField), p.1);
    PairUnfolds(ListOf(Field), TimeField, p.1.1);
    assert TimeField.enc(c.timestamp) == Uint32.enc(15) + c.timestamp;
  }

  lemma StateLayout(s: ((Status, Ballot), (bool, (bool, bool))))
    ensures State().enc(s) == ([s.0.0] + Uint32.enc(s.0.1)) + ([FlagByte(s.1.0)] + ([FlagByte(s.1.1.0)] + [FlagByte(s.1.1.1)]))
  {
    hide Pair, Mapped, Uint32;
    PairUnfolds(Pair(Octet, BallotCodec), Pair(Flag, Pair(Flag, Flag)), s);
    PairUnfolds(Octet, BallotCodec, s.0);
    PairUnfolds(Flag, Pair(Flag, Flag), s.1);
    PairUnfolds(Flag, Flag, s.1.1);
    MappedUnfolds<nat, Ballot>(Uint32, BallotOf, NumberOf, (b: Ballot) => true, s.0.1);
  }

  /** The fields of an instance, in the order in which they are written. */
  lemma InstanceLayout(i: Instance)
    ensures InstanceCodec().enc(i) ==
      (IdBytes(i.id) + (IdBytes(i.leader) + (Uint32.enc(|i.successors|) + EncodeAll(Id.enc, i.successors))))
      + ((InstructionCodec().enc(i.command) + (Uint32.enc(|i.deps|) + EncodeAll(Id.enc, i.deps)))
      + (([i.status] + Uint32.enc(i.ballot)) + ([FlagByte(i.noop)] + ([FlagByte(i.depMatch)] + [FlagByte(i.readOnly)]))))
  {
    hide Pair, Mapped, State, InstructionCodec, Uint32, EncodeAll, IdBytes;
    var p := InstancePartsOf(i);
    MappedUnfolds(Pair(Header(), Pair(Payload(), State())), InstanceFromParts, InstancePartsOf, Unrecorded, i);
    PairUnfolds(Header(), Pair(Payload(), State()), p);
    PairUnfolds(Payload(), State(), p.1);
    PairUnfolds(Id, Pair(Id, ListOf(Id)), p.0);
    PairUnfolds(Id, ListOf(Id), p.0.1);
    PairUnfolds(InstructionCodec(), ListOf(Id), p.1.0);
    StateLayout(p.1.1);
  }
}
