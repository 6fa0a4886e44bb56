/** Consensus messages and their bytes. */
module Messages {
  import opened Bytes
  import opened Options
  import opened Codecs
  import opened WireFormat
  import opened Ids
  import opened Instances

  datatype Message =
    | PreAcceptRequest(instance: Instance)
    | PreAcceptResponse(accepted: bool, maxBallot: Ballot, instance: Instance, missing: seq<Instance>)
    | AcceptRequest(instance: Instance, missing: seq<Instance>)
    | AcceptResponse(accepted: bool, maxBallot: Ballot)
    | CommitRequest(instance: Instance)
    | CommitResponse
    | PrepareRequest(ballot: Ballot, id: InstanceID)
    | PrepareResponse(accepted: bool, known: Option<Instance>)
    | PrepareSuccessorRequest(id: InstanceID)
    | PrepareSuccessorResponse(known: Option<Instance>)
    | InstanceRequest(ids: seq<InstanceID>)
    | InstanceResponse(instances: seq<Instance>)

  function TypeOf(m: Message): nat {
    match m
    case PreAcceptRequest(_) => 1001
    case PreAcceptResponse(_, _, _, _) => 1002
    case AcceptRequest(_, _) => 1003
    case AcceptResponse(_, _) => 1004
    case CommitRequest(_) => 1005
    case CommitResponse => 1006
    case PrepareRequest(_, _) => 1007
    case PrepareResponse(_, _) => 1008
    case PrepareSuccessorRequest(_) => 1009
    case PrepareSuccessorResponse(_) => 1010
    case InstanceRequest(_) => 1011
    case InstanceResponse(_) => 1012
  }

  // ---------- message bodies ----------

  function InstanceList(): Codec<seq<Instance>> {
    ListOf(InstanceCodec())
  }

  function PreAcceptReply(): Codec<((bool, Ballot), (Instance, seq<Instance>))> {
    Pair(Pair(Flag, BallotCodec), Pair(InstanceCodec(), InstanceList()))
  }

  function AcceptOrder(): Codec<(Instance, seq<Instance>)> {
    Pair(InstanceCodec(), InstanceList())
  }

  function BallotReply(): Codec<(bool, Ballot)> {
    Pair(Flag, BallotCodec)
  }

  function Prepare(): Codec<(Ballot, InstanceID)> {
    Pair(BallotCodec, Id)
  }

  function PrepareReply(): Codec<(bool, Option<Instance>)> {
    Pair(Flag, Nullable(InstanceCodec()))
  }

  function Body(m: Message): seq<Byte> {
    match m
    case PreAcceptRequest(i) => InstanceCodec().enc(i)
    case PreAcceptResponse(ok, ballot, i, missing) => PreAcceptReply().enc(((ok, ballot), (i, missing)))
    case AcceptRequest(i, missing) => AcceptOrder().enc((i, missing))
    case AcceptResponse(ok, ballot) => BallotReply().enc((ok, ballot))
    case CommitRequest(i) => InstanceCodec().enc(i)
    case CommitResponse => []
    case PrepareRequest(ballot, id) => Prepare().enc((ballot, id))
    case PrepareResponse(ok, known) => PrepareReply().enc((ok, known))
    case PrepareSuccessorRequest(id) => Id.enc(id)
    case PrepareSuccessorResponse(known) => Nullable(InstanceCodec()).enc(known)
    case InstanceRequest(ids) => ListOf(Id).enc(ids)
    case InstanceResponse(instances) => InstanceList().enc(instances)
  }

  function DecodeBody(mtype: nat, b: seq<Byte>): Parsed<Message> {
    match mtype
    case 1001 => Fmap(InstanceCodec().dec(b), i => PreAcceptRequest(i))
    case 1002 => Fmap(PreAcceptReply().dec(b), (p: ((bool, Ballot), (Instance, seq<Instance>))) => PreAcceptResponse(p.0.0, p.0.1, p.1.0, p.1.1))
    case 1003 => Fmap(AcceptOrder().dec(b), (p: (Instance, seq<Instance>)) => AcceptRequest(p.0, p.1))
    case 1004 => Fmap(BallotReply().dec(b), (p: (bool, Ballot)) => AcceptResponse(p.0, p.1))
    case 1005 => Fmap(InstanceCodec().dec(b), i => CommitRequest(i))
    case 1006 => Parsed(CommitResponse, b)
    case 1007 => Fmap(Prepare().dec(b), (p: (Ballot, InstanceID)) => PrepareRequest(p.0, p.1))
    case 1008 => Fmap(PrepareReply().dec(b), (p: (bool, Option<Instance>)) => PrepareResponse(p.0, p.1))
    case 1009 => Fmap(Id.dec(b), id => PrepareSuccessorRequest(id))
    case 1010 => Fmap(Nullable(InstanceCodec()).dec(b), o => PrepareSuccessorResponse(o))
    case 1011 => Fmap(ListOf(Id).dec(b), ids => InstanceRequest(ids))
    case 1012 => Fmap(InstanceList().dec(b), found => InstanceResponse(found))
    case _ => Fail
  }

  /** The format carries a message whose parts it carries. */
  predicate BodyFits(m: Message) {
    match m
    case PreAcceptRequest(i) => InstanceCodec().fits(i)
    case PreAcceptResponse(ok, ballot, i, missing) => PreAcceptReply().fits(((ok, ballot), (i, missing)))
    case AcceptRequest(i, missing) => AcceptOrder().fits((i, missing))
    case AcceptResponse(ok, ballot) => BallotReply().fits((ok, ballot))
    case CommitRequest(i) => InstanceCodec().fits(i)
    case CommitResponse => true
    case PrepareRequest(ballot, id) => Prepare().fits((ballot, id))
    case PrepareResponse(ok, known) => PrepareReply().fits((ok, known))
    case PrepareSuccessorRequest(id) => Id.fits(id)
    case PrepareSuccessorResponse(known) => Nullable(InstanceCodec()).fits(known)
    case InstanceRequest(ids) => ListOf(Id).fits(ids)
    case InstanceResponse(instances) => InstanceList().fits(instances)
  }

  /** A type number, then the body. */
  function WriteMessage(m: Message): seq<Byte> {
    Uint32.enc(TypeOf(m)) + Body(m)
  }

  function ReadMessage(b: seq<Byte>): Parsed<Message> {
    match Uint32.dec(b)
    case Fail => Fail
    case Parsed(mtype, rest) => DecodeBody(mtype, rest)
  }

  const MessageCodec: Codec<Message> := Codec(WriteMessage, ReadMessage, BodyFits)

  // ---------- correctness ----------

  lemma PartsAreCorrect()
    ensures Correct(Flag) && Correct(Id) && Correct(BallotCodec) && Correct(InstanceCodec())
    ensures Correct(ListOf(Id)) && Correct(InstanceList()) && Correct(Nullable(InstanceCodec()))
  {
    hide Correct, Flag, Id, BallotCodec, InstanceCodec, ListOf, Nullable;
    FlagIsCorrect();
    IdIsCorrect();
    BallotIsCorrect();
    InstanceIsCorrect();
    ListIsCorrect(Id);
    ListIsCorrect(InstanceCodec());
    NullableIsCorrect(InstanceCodec());
  }

  lemma BodiesAreCorrect()
    ensures Correct(Id) && Correct(InstanceCodec())
    ensures Correct(ListOf(Id)) && Correct(InstanceList()) && Correct(Nullable(InstanceCodec()))
    ensures Correct(PreAcceptReply()) && Correct(AcceptOrder()) && Correct(BallotReply())
    ensures Correct(Prepare()) && Correct(PrepareReply())
  {
    hide Correct, Flag, Id, BallotCodec, InstanceCodec, InstanceList, ListOf, Nullable, Pair;
    PartsAreCorrect();
    PairIsCorrect(InstanceCodec(), InstanceList());
    PairIsCorrect(Flag, BallotCodec);
    PairIsCorrect(Pair(Flag, BallotCodec), Pair(InstanceCodec(), InstanceList()));
    PairIsCorrect(BallotCodec, Id);
    PairIsCorrect(Flag, Nullable(InstanceCodec()));
  }

  lemma BodyReadsBack(m: Message, rest: seq<Byte>)
    requires BodyFits(m)
    ensures DecodeBody(TypeOf(m), Body(m) + rest) == Parsed(m, rest)
  {
    hide Correct, Id, InstanceCodec, InstanceList, ListOf, Nullable, PreAcceptReply, AcceptOrder, BallotReply, Prepare, PrepareReply;
    BodiesAreCorrect();
    match m
    case PreAcceptRequest(i) => RoundTripIffFits(InstanceCodec(), i, rest);
    case PreAcceptResponse(ok, ballot, i, missing) => RoundTripIffFits(PreAcceptReply(), ((ok, ballot), (i, missing)), rest);
    case AcceptRequest(i, missing) => RoundTripIffFits(AcceptOrder(), (i, missing), rest);
    case AcceptResponse(ok, ballot) => RoundTripIffFits(BallotReply(), (ok, ballot), rest);
    case CommitRequest(i) => RoundTripIffFits(InstanceCodec(), i, rest);
    case CommitResponse => assert [] + rest == rest;
    case PrepareRequest(ballot, id) => RoundTripIffFits(Prepare(), (ballot, id), rest);
    case PrepareResponse(ok, known) => RoundTripIffFits(PrepareReply(), (ok, known), rest);
    case PrepareSuccessorRequest(id) => RoundTripIffFits(Id, id, rest);
    case PrepareSuccessorResponse(known) => RoundTripIffFits(Nullable(InstanceCodec()), known, rest);
    case InstanceRequest(ids) => RoundTripIffFits(ListOf(Id), ids, rest);
    case InstanceResponse(instances) => RoundTripIffFits(InstanceList(), instances, rest);
  }

  lemma BodyIsStable(mtype: nat, b: seq<Byte>, more: seq<Byte>)
    requires DecodeBody(mtype, b).Parsed?
    ensures DecodeBody(mtype, b + more) == Parsed(DecodeBody(mtype, b).value, DecodeBody(mtype, b).rest + more)
  {
    hide Correct, Id, InstanceCodec, InstanceList, ListOf, Nullable, PreAcceptReply, AcceptOrder, BallotReply, Prepare, PrepareReply;
    BodiesAreCorrect();
    match mtype
    case 1001 => StableAt(InstanceCodec(), b, more);
    case 1002 => StableAt(PreAcceptReply(), b, more);
    case 1003 => StableAt(AcceptOrder(), b, more);
    case 1004 => StableAt(BallotReply(), b, more);
    case 1005 => StableAt(InstanceCodec(), b, more);
    case 1006 =>
    case 1007 => StableAt(Prepare(), b, more);
    case 1008 => StableAt(PrepareReply(), b, more);
    case 1009 => StableAt(Id, b, more);
    case 1010 => StableAt(Nullable(InstanceCodec()), b, more);
    case 1011 => StableAt(ListOf(Id), b, more);
    case 1012 => StableAt(InstanceList(), b, more);
    case _ =>
  }

  lemma BodyYieldsFitting(mtype: nat, b: seq<Byte>)
    requires DecodeBody(mtype, b).Parsed?
    ensures BodyFits(DecodeBody(mtype, b).value)
  {
    hide Correct, Id, InstanceCodec, InstanceList, ListOf, Nullable, PreAcceptReply, AcceptOrder, BallotReply, Prepare, PrepareReply;
    BodiesAreCorrect();
    match mtype
    case 1001 => YieldsFittingAt(InstanceCodec(), b);
    case 1002 => YieldsFittingAt(PreAcceptReply(), b);
    case 1003 => YieldsFittingAt(AcceptOrder(), b);
    case 1004 => YieldsFittingAt(BallotReply(), b);
    case 1005 => YieldsFittingAt(InstanceCodec(), b);
    case 1006 =>
    case 1007 => YieldsFittingAt(Prepare(), b);
    case 1008 => YieldsFittingAt(PrepareReply(), b);
    case 1009 => YieldsFittingAt(Id, b);
    case 1010 => YieldsFittingAt(Nullable(InstanceCodec()), b);
    case 1011 => YieldsFittingAt(ListOf(Id), b);
    case 1012 => YieldsFittingAt(InstanceList(), b);
    case _ =>
  }

  lemma MessageReadsBack(m: Message, rest: seq<Byte>)
    requires BodyFits(m)
    ensures ReadMessage(WriteMessage(m) + rest) == Parsed(m, rest)
  {
    hide Correct, DecodeBody, Body, BodyFits;
    Uint32IsCorrect();
    RoundTripIffFits(Uint32, TypeOf(m), Body(m) + rest);
    assert WriteMessage(m) + rest == Uint32.enc(TypeOf(m)) + (Body(m) + rest);
    BodyReadsBack(m, rest);
  }

  lemma MessageIsCorrect()
    ensures Correct(MessageCodec)
  {
    hide Correct, DecodeBody, Body, BodyFits, WriteMessage;
    Uint32IsCorrect();
    forall m, rest | MessageCodec.fits(m) ensures MessageCodec.dec(MessageCodec.enc(m) + rest) == Parsed(m, rest) {
      MessageReadsBack(m, rest);
    }
    forall b, more | MessageCodec.dec(b).Parsed?
      ensures MessageCodec.dec(b + more) == Parsed(MessageCodec.dec(b).value, MessageCodec.dec(b).rest + more)
    {
      StableAt(Uint32, b, more);
      BodyIsStable(Uint32.dec(b).value, Uint32.dec(b).rest, more);
    }
    forall b | MessageCodec.dec(b).Parsed? ensures MessageCodec.fits(MessageCodec.dec(b).value) {
      BodyYieldsFitting(Uint32.dec(b).value, Uint32.dec(b).rest);
    }
    Conclude(MessageCodec);
  }

  // ---------- what the format carries ----------

  predicate Carried(i: Instance) {
    i.scc == {} && ShortInstance(i)
  }

  predicate AllCarried(found: seq<Instance>) {
    |found| <= MAX_UINT32 && forall k :: 0 <= k < |found| ==> Carried(found[k])
  }

  /** Every length fits the uint32 written in front of it, and no instance has its component recorded. */
  predicate MessageCarried(m: Message) {
    match m
    case PreAcceptRequest(i) => Carried(i)
    case PreAcceptResponse(_, _, i, missing) => Carried(i) && AllCarried(missing)
    case AcceptRequest(i, missing) => Carried(i) && AllCarried(missing)
    case CommitRequest(i) => Carried(i)
    case PrepareResponse(_, known) => known.Some? ==> Carried(known.value)
    case PrepareSuccessorResponse(known) => known.Some? ==> Carried(known.value)
    case InstanceRequest(ids) => |ids| <= MAX_UINT32
    case InstanceResponse(found) => AllCarried(found)
    case _ => true
  }

  lemma InstancesFit(found: seq<Instance>)
    ensures InstanceList().fits(found) <==> AllCarried(found)
  {
    hide InstanceCodec, ShortInstance, ListOf;
    ListUnfolds(InstanceCodec(), found);
    forall i: Instance ensures InstanceCodec().fits(i) <==> Carried(i) {
      InstanceFits(i);
    }
  }

  /** The sum of the parts, and whether each fits. */
  lemma BodyUnfolds(m: Message)
    ensures m.PreAcceptResponse? ==>
      (BodyFits(m) <==> InstanceCodec().fits(m.instance) && InstanceList().fits(m.missing))
    ensures m.PreAcceptResponse? ==>
      |Body(m)| == 5 + |InstanceCodec().enc(m.instance)| + |InstanceList().enc(m.missing)|
    ensures m.AcceptRequest? ==>
      (BodyFits(m) <==> InstanceCodec().fits(m.instance) && InstanceList().fits(m.missing))
    ensures m.AcceptRequest? ==>
      |Body(m)| == |InstanceCodec().enc(m.instance)| + |InstanceList().enc(m.missing)|
    ensures m.AcceptResponse? ==> BodyFits(m) && |Body(m)| == 5
    ensures m.PrepareRequest? ==> BodyFits(m) && |Body(m)| == 20
    ensures m.PrepareResponse? ==> (BodyFits(m) <==> Nullable(InstanceCodec()).fits(m.known))
    ensures m.PrepareResponse? ==> |Body(m)| == 1 + |Nullable(InstanceCodec()).enc(m.known)|
  {
    hide InstanceCodec, InstanceList, Nullable, Flag, BallotCodec, Pair;
    match m
    case PreAcceptResponse(ok, ballot, i, missing) =>
      PairUnfolds(Pair(Flag, BallotCodec), Pair(InstanceCodec(), InstanceList()), ((ok, ballot), (i, missing)));
      PairUnfolds(Flag, BallotCodec, (ok, ballot));
      PairUnfolds(InstanceCodec(), InstanceList(), (i, missing));
      FlagUnfolds(ok);
      BallotUnfolds(ballot);
    case AcceptRequest(i, missing) =>
      PairUnfolds(InstanceCodec(), InstanceList(), (i, missing));
    case AcceptResponse(ok, ballot) =>
      PairUnfolds(Flag, BallotCodec, (ok, ballot));
      FlagUnfolds(ok);
      BallotUnfolds(ballot);
    case PrepareRequest(ballot, id) =>
      PairUnfolds(BallotCodec, Id, (ballot, id));
      BallotUnfolds(ballot);
    case PrepareResponse(ok, known) =>
      PairUnfolds(Flag, Nullable(InstanceCodec()), (ok, known));
      FlagUnfolds(ok);
    case _ =>
  }

  lemma MessageFits(m: Message)
    ensures BodyFits(m) <==> MessageCarried(m)
  {
    hide InstanceCodec, InstanceList, Nullable, ListOf, ShortInstance, AllCarried;
    BodyUnfolds(m);
    match m
    case PreAcceptRequest(i) => InstanceFits(i);
    case PreAcceptResponse(_, _, i, missing) => InstanceFits(i); InstancesFit(missing);
    case AcceptRequest(i, missing) => InstanceFits(i); InstancesFit(missing);
    case CommitRequest(i) => InstanceFits(i);
    case PrepareResponse(_, known) => KnownFits(known);
    case PrepareSuccessorResponse(known) => KnownFits(known);
    case InstanceRequest(ids) => IdsFit(ids);
    case InstanceResponse(found) => InstancesFit(found);
    case _ =>
  }

  lemma KnownFits(known: Option<Instance>)
    ensures Nullable(InstanceCodec()).fits(known) <==> (known.Some? ==> Carried(known.value))
  {
    hide InstanceCodec, Nullable, ShortInstance;
    NullableUnfolds(InstanceCodec(), known);
    if known.Some? {
      InstanceFits(known.value);
    }
  }

  /** A message written to a stream is read back, and nothing after it is touched,
      exactly when the format carries it. */
  lemma MessageRoundTrip(m: Message, rest: seq<Byte>)
    ensures ReadMessage(WriteMessage(m) + rest) == Parsed(m, rest) <==> MessageCarried(m)
  {
    hide Correct, WriteMessage, ReadMessage, BodyFits, MessageCarried;
    MessageIsCorrect();
    RoundTripIffFits(MessageCodec, m, rest);
    MessageFits(m);
  }

  /** A truncated message is refused, wherever it was cut. */
  lemma TruncatedMessageFails(m: Message, n: nat)
    requires MessageCarried(m) && n < |WriteMessage(m)|
    ensures ReadMessage(WriteMessage(m)[..n]).Fail?
  {
    hide Correct, WriteMessage, ReadMessage, BodyFits, MessageCarried;
    MessageIsCorrect();
    MessageFits(m);
    StrictPrefixFails(MessageCodec, m, n);
  }

  // ---------- sizes ----------

  function NumBytes(m: Message): nat {
    match m
    case PreAcceptRequest(i) => InstanceNumBytes(i)
    case PreAcceptResponse(_, _, i, missing) => 1 + 4 + InstanceNumBytes(i) + 4 + TotalSize(InstanceNumBytes, missing)
    case AcceptRequest(i, missing) => InstanceNumBytes(i) + 4 + TotalSize(InstanceNumBytes, missing)
    case AcceptResponse(_, _) => 1 + 4
    case CommitRequest(i) => InstanceNumBytes(i)
    case CommitResponse => 0
    case PrepareRequest(_, _) => 4 + 16
    case PrepareResponse(_, known) => 1 + 1 + if known.Some? then InstanceNumBytes(known.value) else 0
    case PrepareSuccessorRequest(_) => 16
    case PrepareSuccessorResponse(known) => 1 + if known.Some? then InstanceNumBytes(known.value) else 0
    case InstanceRequest(ids) => 4 + 16 * |ids|
    case InstanceResponse(found) => 4 + TotalSize(InstanceNumBytes, found)
  }

  lemma InstancesSize(found: seq<Instance>)
    ensures |InstanceList().enc(found)| == 4 + TotalSize(InstanceNumBytes, found)
  {
    hide InstanceCodec, InstanceNumBytes, ListOf;
    ListUnfolds(InstanceCodec(), found);
    forall i: Instance ensures |InstanceCodec().enc(i)| == InstanceNumBytes(i) {
      InstanceSize(i);
    }
    SizeOfAll(InstanceCodec().enc, InstanceNumBytes, found);
  }

  lemma KnownSize(known: Option<Instance>)
    ensures |Nullable(InstanceCodec()).enc(known)| == 1 + if known.Some? then InstanceNumBytes(known.value) else 0
  {
    hide InstanceCodec, Nullable, InstanceNumBytes;
    NullableUnfolds(InstanceCodec(), known);
    if known.Some? {
      InstanceSize(known.value);
    }
  }

  lemma BodySize(m: Message)
    ensures |Body(m)| == NumBytes(m)
  {
    hide InstanceCodec, InstanceList, Nullable, ListOf, InstanceNumBytes, TotalSize;
    BodyUnfolds(m);
    match m
    case PreAcceptRequest(i) => InstanceSize(i);
    case PreAcceptResponse(_, _, i, missing) => InstanceSize(i); InstancesSize(missing);
    case AcceptRequest(i, missing) => InstanceSize(i); InstancesSize(missing);
    case CommitRequest(i) => InstanceSize(i);
    case PrepareResponse(_, known) => KnownSize(known);
    case PrepareSuccessorResponse(known) => KnownSize(known);
    case InstanceRequest(ids) => IdsSize(ids);
    case InstanceResponse(found) => InstancesSize(found);
    case _ =>
  }

  /** The announced size is the size written, after the four bytes of the type. */
  lemma MessageSize(m: Message)
    ensures |WriteMessage(m)| == 4 + NumBytes(m)
  {
    hide Body, NumBytes;
    BodySize(m);
  }

  // ---------- layout ----------

  /** How an instance that may be missing is written. */
  function KnownBytes(known: Option<Instance>): seq<Byte> {
    if known.None? then [0xff] else [0] + InstanceCodec().enc(known.value)
  }

  function InstancesBytes(found: seq<Instance>): seq<Byte> {
    Uint32.enc(|found|) + EncodeAll(InstanceCodec().enc, found)
  }

  lemma BallotReplyLayout(ok: bool, ballot: Ballot)
    ensures BallotReply().enc((ok, ballot)) == [FlagByte(ok)] + Uint32.enc(ballot)
  {
    hide Uint32, Mapped, Pair;
    PairUnfolds(Flag, BallotCodec, (ok, ballot));
    MappedUnfolds<nat, Ballot>(Uint32, BallotOf, NumberOf, (b: Ballot) => true, ballot);
  }

  lemma PreAcceptReplyLayout(ok: bool, ballot: Ballot, i: Instance, missing: seq<Instance>)
    ensures PreAcceptReply().enc(((ok, ballot), (i, missing))) ==
      ([FlagByte(ok)] + Uint32.enc(ballot)) + (InstanceCodec().enc(i) + InstancesBytes(missing))
    ensures AcceptOrder().enc((i, missing)) == InstanceCodec().enc(i) + InstancesBytes(missing)
  {
    hide Uint32, Mapped, Pair, InstanceCodec, EncodeAll;
    BallotReplyLayout(ok, ballot);
    PairUnfolds(Pair(Flag, BallotCodec), Pair(InstanceCodec(), InstanceList()), ((ok, ballot), (i, missing)));
    PairUnfolds(InstanceCodec(), InstanceList(), (i, missing));
  }

  lemma PrepareLayout(ok: bool, ballot: Ballot, id: InstanceID, known: Option<Instance>)
    ensures Prepare().enc((ballot, id)) == Uint32.enc(ballot) + IdBytes(id)
    ensures PrepareReply().enc((ok, known)) == [FlagByte(ok)] + KnownBytes(known)
    ensures Nullable(InstanceCodec()).enc(known) == KnownBytes(known)
  {
    hide Uint32, Mapped, Pair, InstanceCodec, IdBytes;
    PairUnfolds(BallotCodec, Id, (ballot, id));
    MappedUnfolds<nat, Ballot>(Uint32, BallotOf, NumberOf, (b: Ballot) => true, ballot);
    PairUnfolds(Flag, Nullable(InstanceCodec()), (ok, known));
  }

  /** The type number and the fields of each message, in the order in which they are written. */
  lemma MessageLayout(m: Message)
    ensures WriteMessage(m) == match m
      case PreAcceptRequest(i) => Uint32.enc(1001) + InstanceCodec().enc(i)
      case PreAcceptResponse(ok, ballot, i, missing) =>
        Uint32.enc(1002) + (([FlagByte(ok)] + Uint32.enc(ballot)) + (InstanceCodec().enc(i) + InstancesBytes(missing)))
      case AcceptRequest(i, missing) => Uint32.enc(1003) + (InstanceCodec().enc(i) + InstancesBytes(missing))
      case AcceptResponse(ok, ballot) => Uint32.enc(1004) + ([FlagByte(ok)] + Uint32.enc(ballot))
      case CommitRequest(i) => Uint32.enc(1005) + InstanceCodec().enc(i)
      case CommitResponse => Uint32.enc(1006)
      case PrepareRequest(ballot, id) => Uint32.enc(1007) + (Uint32.enc(ballot) + IdBytes(id))
      case PrepareResponse(ok, known) => Uint32.enc(1008) + ([FlagByte(ok)] + KnownBytes(known))
      case PrepareSuccessorRequest(id) => Uint32.enc(1009) + IdBytes(id)
      case PrepareSuccessorResponse(known) => Uint32.enc(1010) + KnownBytes(known)
      case InstanceRequest(ids) => Uint32.enc(1011) + (Uint32.enc(|ids|) + EncodeAll(Id.enc, ids))
      case InstanceResponse(found) => Uint32.enc(1012) + InstancesBytes(found)
  {
    hide Uint32, Pair, Mapped, InstanceCodec, EncodeAll, IdBytes, KnownBytes, Nullable,
         PreAcceptReply, AcceptOrder, BallotReply, Prepare, PrepareReply;
    match m
    case PreAcceptResponse(ok, ballot, i, missing) => PreAcceptReplyLayout(ok, ballot, i, missing);
    case AcceptRequest(i, missing) => PreAcceptReplyLayout(false, 0, i, missing);
    case AcceptResponse(ok, ballot) => BallotReplyLayout(ok, ballot);
    case CommitResponse => assert Uint32.enc(1006) + [] == Uint32.enc(1006);
    case PrepareRequest(ballot, id) => PrepareLayout(false, ballot, id, None);
    case PrepareResponse(ok, known) => PrepareLayout(ok, 0, InstanceID(0, 0), known);
    case PrepareSuccessorResponse(known) => PrepareLayout(false, 0, InstanceID(0, 0), known);
    case _ =>
  }
}
