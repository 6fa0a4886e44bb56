/** Instances and messages read from connections, field by field, and what a
    message read leaves behind. */
module MessageStreams {
  import opened Bytes
  import opened Options
  import opened Codecs
  import opened Connections
  import opened Streams
  import opened WireFormat
  import opened Messages
  import opened Ids
  import opened Instructions
  import opened Instances

  // ---------- single values ----------

  method ReadOctet(r: Reader) returns (res: Option<Byte>)
    modifies r, r.conn
    ensures Reads(Octet, old(r.View()), res, r.View())
  {
    hide Stream, Take;
    ghost var i := r.View();
    var ok, bytes := r.ReadBytes(1);
    if !ok {
      return None;
    }
    AdvancesByOne(i, 1);
    res := Some(bytes[0]);
  }

  method ReadFlag(r: Reader) returns (res: Option<bool>)
    modifies r, r.conn
    ensures Reads(Flag, old(r.View()), res, r.View())
  {
    hide Stream, Take;
    ghost var i := r.View();
    var ok, bytes := r.ReadBytes(1);
    if !ok {
      return None;
    }
    AdvancesByOne(i, 1);
    res := Some(bytes[0] != 0);
  }

  method ReadBallot(r: Reader) returns (res: Option<Ballot>)
    modifies r, r.conn
    ensures Reads(BallotCodec, old(r.View()), res, r.View())
  {
    hide Uint32, Reads, Mapped;
    ghost var i := r.View();
    var n := r.ReadUint32();
    ReadsMapped<nat, Ballot>(Uint32, BallotOf, NumberOf, (b: Ballot) => true, i, n, r.View());
    res := if n.Some? then Some(BallotOf(n.value)) else None;
  }

  method ReadTime(r: Reader) returns (res: Option<Time>)
    modifies r, r.conn
    ensures Reads(TimeField, old(r.View()), res, r.View())
  {
    hide DecodeField, Stream, Advances, IsSuffix;
    ghost var i := r.View();
    var s := r.ReadFieldBytes();
    if s.Some? {
      AdvancesToSuffix(i, r.View());
    }
    if s.None? || !IsTime(s.value) {
      return None;
    }
    res := Some(s.value);
  }

  // ---------- instructions ----------

  method ReadTexts(r: Reader) returns (res: Option<seq<Text>>)
    modifies r, r.conn
    ensures Reads(ListOf(Field), old(r.View()), res, r.View())
  {
    hide Uint32, Field, Reads, Yields, PartOf, Stream, ListOf;
    ghost var i := r.View();
    var n := r.ReadUint32();
    ghost var i1 := r.View();
    if n.None? {
      ReadsList(Field, i, n, i1, None, i1);
      return None;
    }
    var texts := [];
    PartStarts(Field.dec, n.value, i1);
    while |texts| < n.value
      invariant PartOf(Field.dec, n.value, i1, texts, r.View())
    {
      ghost var i2 := r.View();
      var text := r.ReadFieldBytes();
      ReadsIs(Field, i2, text, r.View());
      PartGrows(Field.dec, n.value, i1, texts, i2, text, r.View());
      if text.None? {
        ReadsList(Field, i, n, i1, None, r.View());
        return None;
      }
      texts := texts + [text.value];
    }
    PartIsWhole(Field.dec, n.value, i1, texts, r.View());
    ReadsList(Field, i, n, i1, Some(texts), r.View());
    return Some(texts);
  }

  /** Both parts of a pair, if both were read. */
  function Joint<A, B>(a: Option<A>, b: Option<B>): Option<(A, B)> {
    if a.Some? && b.Some? then Some((a.value, b.value)) else None
  }

  method ReadInstruction(r: Reader) returns (res: Option<Instruction>)
    modifies r, r.conn
    ensures Reads(InstructionCodec(), old(r.View()), res, r.View())
  {
    hide Reads, Pair, ListOf, Field, TimeField, Mapped;
    ghost var i := r.View();
    var cmd := r.ReadFieldBytes();
    ghost var i1 := r.View();
    var key: Option<Text> := None;
    if cmd.Some? {
      key := r.ReadFieldBytes();
    }
    ghost var i2 := r.View();
    var args: Option<seq<Text>> := None;
    if key.Some? {
      args := ReadTexts(r);
    }
    ghost var i3 := r.View();
    var time: Option<Time> := None;
    if args.Some? {
      time := ReadTime(r);
    }
    ghost var i4 := r.View();
    if key.Some? {
      ReadsPair(ListOf(Field), TimeField, i2, args, i3, time, i4);
    }
    if cmd.Some? {
      ReadsPair(Field, Pair(ListOf(Field), TimeField), i1, key, i2, Joint(args, time), i4);
    }
    ReadsPair(Field, Pair(Field, Pair(ListOf(Field), TimeField)), i, cmd, i1, Joint(key, Joint(args, time)), i4);
    ReadsMapped(Pair(Field, Pair(Field, Pair(ListOf(Field), TimeField))), FromParts, PartsOf, _ => true,
                i, Joint(cmd, Joint(key, Joint(args, time))), i4);
    res := if time.Some? then Some(Instruction(cmd.value, key.value, args.value, time.value)) else None;
  }

  // ---------- instances ----------

  method ReadHeader(r: Reader) returns (res: Option<(InstanceID, (NodeId, seq<NodeId>))>)
    modifies r, r.conn
    ensures Reads(Header(), old(r.View()), res, r.View())
  {
    hide Reads, Pair, ListOf, Id;
    ghost var i := r.View();
    var id := r.ReadId();
    ghost var i1 := r.View();
    var leader: Option<NodeId> := None;
    if id.Some? {
      leader := r.ReadId();
    }
    ghost var i2 := r.View();
    var successors: Option<seq<NodeId>> := None;
    if leader.Some? {
      successors := r.ReadIds();
    }
    ghost var i3 := r.View();
    if id.Some? {
      ReadsPair(Id, ListOf(Id), i1, leader, i2, successors, i3);
    }
    ReadsPair(Id, Pair(Id, ListOf(Id)), i, id, i1, Joint(leader, successors), i3);
    res := Joint(id, Joint(leader, successors));
  }

  method ReadPayload(r: Reader) returns (res: Option<(Instruction, seq<InstanceID>)>)
    modifies r, r.conn
    ensures Reads(Payload(), old(r.View()), res, r.View())
  {
    hide Reads, Pair, ListOf, Id, InstructionCodec;
    ghost var i := r.View();
    var command := ReadInstruction(r);
    ghost var i1 := r.View();
    var deps: Option<seq<InstanceID>> := None;
    if command.Some? {
      deps := r.ReadIds();
    }
    ReadsPair(InstructionCodec(), ListOf(Id), i, command, i1, deps, r.View());
    res := Joint(command, deps);
  }

  method ReadFlags(r: Reader) returns (res: Option<(bool, (bool, bool))>)
    modifies r, r.conn
    ensures Reads(Pair(Flag, Pair(Flag, Flag)), old(r.View()), res, r.View())
  {
    hide Reads, Pair, Flag;
    ghost var i := r.View();
    var noop := ReadFlag(r);
    ghost var i1 := r.View();
    var depMatch: Option<bool> := None;
    if noop.Some? {
      depMatch := ReadFlag(r);
    }
    ghost var i2 := r.View();
    var readOnly: Option<bool> := None;
    if depMatch.Some? {
      readOnly := ReadFlag(r);
    }
    ghost var i3 := r.View();
    if noop.Some? {
      ReadsPair(Flag, Flag, i1, depMatch, i2, readOnly, i3);
    }
    ReadsPair(Flag, Pair(Flag, Flag), i, noop, i1, Joint(depMatch, readOnly), i3);
    res := Joint(noop, Joint(depMatch, readOnly));
  }

  method ReadState(r: Reader) returns (res: Option<((Status, Ballot), (bool, (bool, bool)))>)
    modifies r, r.conn
    ensures Reads(State(), old(r.View()), res, r.View())
  {
    hide Reads, Pair, Flag, Octet, BallotCodec;
    ghost var i := r.View();
    var status := ReadOctet(r);
    ghost var i1 := r.View();
    var ballot: Option<Ballot> := None;
    if status.Some? {
      ballot := ReadBallot(r);
    }
    ghost var i2 := r.View();
    ReadsPair(Octet, BallotCodec, i, status, i1, ballot, i2);
    var flags: Option<(bool, (bool, bool))> := None;
    if ballot.Some? {
      flags := ReadFlags(r);
    }
    ReadsPair(Pair(Octet, BallotCodec), Pair(Flag, Pair(Flag, Flag)), i, Joint(status, ballot), i2, flags, r.View());
    res := Joint(Joint(status, ballot), flags);
  }

  method ReadInstance(r: Reader) returns (res: Option<Instance>)
    modifies r, r.conn
    ensures Reads(InstanceCodec(), old(r.View()), res, r.View())
  {
    hide Reads, Pair, Mapped, Header, Payload, State;
    ghost var i := r.View();
    var header := ReadHeader(r);
    ghost var i1 := r.View();
    var payload: Option<(Instruction, seq<InstanceID>)> := None;
    if header.Some? {
      payload := ReadPayload(r);
    }
    ghost var i2 := r.View();
    var state: Option<((Status, Ballot), (bool, (bool, bool)))> := None;
    if payload.Some? {
      state := ReadState(r);
    }
    ghost var i3 := r.View();
    if header.Some? {
      ReadsPair(Payload(), State(), i1, payload, i2, state, i3);
    }
    ReadsPair(Header(), Pair(Payload(), State()), i, header, i1, Joint(payload, state), i3);
    ReadsMapped(Pair(Header(), Pair(Payload(), State())), InstanceFromParts, InstancePartsOf, Unrecorded,
                i, Joint(header, Joint(payload, state)), i3);
    res := if state.Some? then Some(InstanceFromParts((header.value, (payload.value, state.value)))) else None;
  }

  method ReadInstances(r: Reader) returns (res: Option<seq<Instance>>)
    modifies r, r.conn
    ensures Reads(InstanceList(), old(r.View()), res, r.View())
  {
    hide Uint32, InstanceCodec, Reads, Yields, PartOf, Stream, ListOf;
    ghost var i := r.View();
    var n := r.ReadUint32();
    ghost var i1 := r.View();
    if n.None? {
      ReadsList(InstanceCodec(), i, n, i1, None, i1);
      return None;
    }
    var found := [];
    PartStarts(InstanceCodec().dec, n.value, i1);
    while |found| < n.value
      invariant PartOf(InstanceCodec().dec, n.value, i1, found, r.View())
    {
      ghost var i2 := r.View();
      var inst := ReadInstance(r);
      ReadsIs(InstanceCodec(), i2, inst, r.View());
      PartGrows(InstanceCodec().dec, n.value, i1, found, i2, inst, r.View());
      if inst.None? {
        ReadsList(InstanceCodec(), i, n, i1, None, r.View());
        return None;
      }
      found := found + [inst.value];
    }
    PartIsWhole(InstanceCodec().dec, n.value, i1, found, r.View());
    ReadsList(InstanceCodec(), i, n, i1, Some(found), r.View());
    return Some(found);
  }

  // ---------- messages ----------

  /** A flag that is set means there is no instance. */
  method ReadKnown(r: Reader) returns (res: Option<Option<Instance>>)
    modifies r, r.conn
    ensures Reads(Nullable(InstanceCodec()), old(r.View()), res, r.View())
  {
    hide InstanceCodec, Flag, Stream, Advances, IsSuffix;
    ghost var i := r.View();
    var isNil := ReadFlag(r);
    ghost var i1 := r.View();
    if isNil.None? {
      return None;
    }
    if isNil.value {
      return Some(None);
    }
    AdvancesToSuffix(i, i1);
    var inst := ReadInstance(r);
    if inst.None? {
      SuffixTrans(Stream(r.View()), Stream(i1), Stream(i));
      return None;
    }
    AdvancesTrans(i, i1, r.View());
    return Some(Some(inst.value));
  }

  method ReadBallotReply(r: Reader) returns (res: Option<(bool, Ballot)>)
    modifies r, r.conn
    ensures Reads(BallotReply(), old(r.View()), res, r.View())
  {
    hide Reads, Pair, Flag, BallotCodec;
    ghost var i := r.View();
    var accepted := ReadFlag(r);
    ghost var i1 := r.View();
    var ballot: Option<Ballot> := None;
    if accepted.Some? {
      ballot := ReadBallot(r);
    }
    ReadsPair(Flag, BallotCodec, i, accepted, i1, ballot, r.View());
    res := Joint(accepted, ballot);
  }

  method ReadAcceptOrder(r: Reader) returns (res: Option<(Instance, seq<Instance>)>)
    modifies r, r.conn
    ensures Reads(AcceptOrder(), old(r.View()), res, r.View())
  {
    hide Reads, Pair, InstanceCodec, InstanceList;
    ghost var i := r.View();
    var inst := ReadInstance(r);
    ghost var i1 := r.View();
    var missing: Option<seq<Instance>> := None;
    if inst.Some? {
      missing := ReadInstances(r);
    }
    ReadsPair(InstanceCodec(), InstanceList(), i, inst, i1, missing, r.View());
    res := Joint(inst, missing);
  }

  method ReadPreAcceptReply(r: Reader) returns (res: Option<((bool, Ballot), (Instance, seq<Instance>))>)
    modifies r, r.conn
    ensures Reads(PreAcceptReply(), old(r.View()), res, r.View())
  {
    hide Reads, Pair, Flag, BallotCodec, InstanceCodec, InstanceList;
    ghost var i := r.View();
    var reply := ReadBallotReply(r);
    ghost var i1 := r.View();
    var rest: Option<(Instance, seq<Instance>)> := None;
    if reply.Some? {
      rest := ReadAcceptOrder(r);
    }
    ReadsPair(Pair(Flag, BallotCodec), Pair(InstanceCodec(), InstanceList()), i, reply, i1, rest, r.View());
    res := Joint(reply, rest);
  }

  method ReadPrepare(r: Reader) returns (res: Option<(Ballot, InstanceID)>)
    modifies r, r.conn
    ensures Reads(Prepare(), old(r.View()), res, r.View())
  {
    hide Reads, Pair, BallotCodec, Id;
    ghost var i := r.View();
    var ballot := ReadBallot(r);
    ghost var i1 := r.View();
    var id: Option<InstanceID> := None;
    if ballot.Some? {
      id := r.ReadId();
    }
    ReadsPair(BallotCodec, Id, i, ballot, i1, id, r.View());
    res := Joint(ballot, id);
  }

  method ReadPrepareReply(r: Reader) returns (res: Option<(bool, Option<Instance>)>)
    modifies r, r.conn
    ensures Reads(PrepareReply(), old(r.View()), res, r.View())
  {
    hide Reads, Pair, Flag, InstanceCodec, Nullable;
    ghost var i := r.View();
    var accepted := ReadFlag(r);
    ghost var i1 := r.View();
    var known: Option<Option<Instance>> := None;
    if accepted.Some? {
      known := ReadKnown(r);
    }
    ReadsPair(Flag, Nullable(InstanceCodec()), i, accepted, i1, known, r.View());
    res := Joint(accepted, known);
  }

  /** The body of a message of the given type. */
  method ReadBody(r: Reader, mtype: nat) returns (res: Option<Message>)
    modifies r, r.conn
    ensures Yields(DecodeBody(mtype, Stream(old(r.View()))), old(r.View()), res, r.View())
  {
    hide Stream, Advances, InstanceCodec, InstanceList, Id, ListOf, Nullable,
         PreAcceptReply, AcceptOrder, BallotReply, Prepare, PrepareReply;
    res := None;
    AdvancesByNone(r.View());
    match mtype {
      case 1001 =>
        var i := ReadInstance(r);
        if i.Some? { res := Some(PreAcceptRequest(i.value)); }
      case 1002 =>
        var p := ReadPreAcceptReply(r);
        if p.Some? { res := Some(PreAcceptResponse(p.value.0.0, p.value.0.1, p.value.1.0, p.value.1.1)); }
      case 1003 =>
        var p := ReadAcceptOrder(r);
        if p.Some? { res := Some(AcceptRequest(p.value.0, p.value.1)); }
      case 1004 =>
        var p := ReadBallotReply(r);
        if p.Some? { res := Some(AcceptResponse(p.value.0, p.value.1)); }
      case 1005 =>
        var i := ReadInstance(r);
        if i.Some? { res := Some(CommitRequest(i.value)); }
      case 1006 =>
        res := Some(CommitResponse);
      case 1007 =>
        var p := ReadPrepare(r);
        if p.Some? { res := Some(PrepareRequest(p.value.0, p.value.1)); }
      case 1008 =>
        var p := ReadPrepareReply(r);
        if p.Some? { res := Some(PrepareResponse(p.value.0, p.value.1)); }
      case 1009 =>
        var id := r.ReadId();
        if id.Some? { res := Some(PrepareSuccessorRequest(id.value)); }
      case 1010 =>
        var o := ReadKnown(r);
        if o.Some? { res := Some(PrepareSuccessorResponse(o.value)); }
      case 1011 =>
        var ids := r.ReadIds();
        if ids.Some? { res := Some(InstanceRequest(ids.value)); }
      case 1012 =>
        var found := ReadInstances(r);
        if found.Some? { res := Some(InstanceResponse(found.value)); }
      case _ =>
    }
  }

  /** What is read of a connection: the decoded message, and what is then left of
      it for the next read. The reader and its buffer are dropped. */
  ghost predicate Received(ps: Packets, res: Option<Message>, ps': Packets) {
    exists i' :: Yields(Messages.ReadMessage(Joined(ps)), Input([], ps), res, i') && ps' == i'.packets
  }

  method ReadMessage(conn: Connection) returns (res: Option<Message>)
    modifies conn
    ensures Received(old(conn.packets), res, conn.packets)
  {
    hide Uint32, Advances, DecodeBody, IsSuffix;
    var r := new Reader(conn);
    ghost var i := r.View();
    assert Stream(i) == Joined(conn.packets);
    var mtype := r.ReadUint32();
    ghost var i1 := r.View();
    if mtype.None? {
      return None;
    }
    AdvancesToSuffix(i, i1);
    res := ReadBody(r, mtype.value);
    if res.Some? {
      AdvancesTrans(i, i1, r.View());
    } else {
      SuffixTrans(Stream(r.View()), Stream(i1), Stream(i));
    }
    assert Yields(Messages.ReadMessage(Joined(old(conn.packets))), i, res, r.View());
  }

  // ---------- writing ----------

  method WriteOctet(w: Writer, x: Byte)
    modifies w
    ensures Writes(Octet, x, old(w.output), w.output)
  {
    w.output := w.output + [x];
  }

  method WriteFlag(w: Writer, f: bool)
    modifies w
    ensures Writes(Flag, f, old(w.output), w.output)
  {
    w.output := w.output + [if f then 0xff else 0];
  }

  method WriteBallot(w: Writer, b: Ballot)
    modifies w
    ensures Writes(BallotCodec, b, old(w.output), w.output)
  {
    hide Uint32, Writes, Mapped;
    w.WriteUint32(b);
    WritesMapped<nat, Ballot>(Uint32, BallotOf, NumberOf, (b: Ballot) => true, b, old(w.output), w.output);
  }

  method WriteInstruction(w: Writer, c: Instruction)
    modifies w
    ensures Writes(InstructionCodec(), c, old(w.output), w.output)
  {
    hide Writes, WrittenUpTo, Pair, ListOf, Mapped, Field;
    w.WriteFieldBytes(c.cmd);
    ghost var o1 := w.output;
    w.WriteFieldBytes(c.key);
    ghost var o2 := w.output;
    w.WriteUint32(|c.args|);
    WrittenCount(Field, c.args, o2, w.output);
    for k := 0 to |c.args|
      invariant WrittenUpTo(Field, c.args, k, o2, w.output)
    {
      ghost var o := w.output;
      w.WriteFieldBytes(c.args[k]);
      WrittenOneMore(Field, c.args, k, o2, o, w.output);
    }
    WrittenAll(Field, c.args, o2, w.output);
    ghost var o3 := w.output;
    w.WriteFieldBytes(c.timestamp);
    TimeIsField(c.timestamp, o3, w.output);
    ghost var p := PartsOf(c);
    WritesPair(ListOf(Field), TimeField, p.1.1, o2, o3, w.output);
    WritesPair(Field, Pair(ListOf(Field), TimeField), p.1, o1, o2, w.output);
    WritesPair(Field, Pair(Field, Pair(ListOf(Field), TimeField)), p, old(w.output), o1, w.output);
    WritesMapped(Pair(Field, Pair(Field, Pair(ListOf(Field), TimeField))), FromParts, PartsOf, _ => true, c, old(w.output), w.output);
  }

  lemma TimeIsField(t: Time, o: seq<Byte>, o1: seq<Byte>)
    requires Writes(Field, t, o, o1)
    ensures Writes(TimeField, t, o, o1)
  {
    assert TimeField.enc(t) == Field.enc(t);
  }

  method WriteHeader(w: Writer, i: Instance)
    modifies w
    ensures Writes(Header(), InstancePartsOf(i).0, old(w.output), w.output)
  {
    hide Writes, Pair, ListOf, Id;
    w.WriteId(i.id);
    ghost var o1 := w.output;
    w.WriteId(i.leader);
    ghost var o2 := w.output;
    w.WriteIds(i.successors);
    ghost var p := InstancePartsOf(i).0;
    WritesPair(Id, ListOf(Id), p.1, o1, o2, w.output);
    WritesPair(Id, Pair(Id, ListOf(Id)), p, old(w.output), o1, w.output);
  }

  method WritePayload(w: Writer, i: Instance)
    modifies w
    ensures Writes(Payload(), InstancePartsOf(i).1.0, old(w.output), w.output)
  {
    hide Writes, Pair, ListOf, Id, InstructionCodec;
    WriteInstruction(w, i.command);
    ghost var o1 := w.output;
    w.WriteIds(i.deps);
    WritesPair(InstructionCodec(), ListOf(Id), InstancePartsOf(i).1.0, old(w.output), o1, w.output);
  }

  method WriteState(w: Writer, i: Instance)
    modifies w
    ensures Writes(State(), InstancePartsOf(i).1.1, old(w.output), w.output)
  {
    hide Writes, Pair, Flag, Octet, BallotCodec;
    ghost var p := InstancePartsOf(i).1.1;
    WriteOctet(w, i.status);
    ghost var o1 := w.output;
    WriteBallot(w, i.ballot);
    ghost var o2 := w.output;
    WritesPair(Octet, BallotCodec, p.0, old(w.output), o1, o2);
    WriteFlag(w, i.noop);
    ghost var o3 := w.output;
    WriteFlag(w, i.depMatch);
    ghost var o4 := w.output;
    WriteFlag(w, i.readOnly);
    WritesPair(Flag, Flag, p.1.1, o3, o4, w.output);
    WritesPair(Flag, Pair(Flag, Flag), p.1, o2, o3, w.output);
    WritesPair(Pair(Octet, BallotCodec), Pair(Flag, Pair(Flag, Flag)), p, old(w.output), o2, w.output);
  }

  method WriteInstance(w: Writer, i: Instance)
    modifies w
    ensures Writes(InstanceCodec(), i, old(w.output), w.output)
  {
    hide Writes, Pair, Mapped, Header, Payload, State;
    ghost var p := InstancePartsOf(i);
    WriteHeader(w, i);
    ghost var o1 := w.output;
    WritePayload(w, i);
    ghost var o2 := w.output;
    WriteState(w, i);
    WritesPair(Payload(), State(), p.1, o1, o2, w.output);
    WritesPair(Header(), Pair(Payload(), State()), p, old(w.output), o1, w.output);
    WritesMapped(Pair(Header(), Pair(Payload(), State())), InstanceFromParts, InstancePartsOf, Unrecorded, i, old(w.output), w.output);
  }

  method WriteInstances(w: Writer, found: seq<Instance>)
    modifies w
    ensures Writes(InstanceList(), found, old(w.output), w.output)
  {
    hide Writes, WrittenUpTo, InstanceCodec, ListOf;
    w.WriteUint32(|found|);
    WrittenCount(InstanceCodec(), found, old(w.output), w.output);
    for k := 0 to |found|
      invariant WrittenUpTo(InstanceCodec(), found, k, old(w.output), w.output)
    {
      ghost var o := w.output;
      WriteInstance(w, found[k]);
      WrittenOneMore(InstanceCodec(), found, k, old(w.output), o, w.output);
    }
    WrittenAll(InstanceCodec(), found, old(w.output), w.output);
  }

  method WriteKnown(w: Writer, known: Option<Instance>)
    modifies w
    ensures Writes(Nullable(InstanceCodec()), known, old(w.output), w.output)
  {
    hide InstanceCodec, Flag;
    WriteFlag(w, known.None?);
    if known.Some? {
      WriteInstance(w, known.value);
    }
  }

  method WriteAcceptOrder(w: Writer, i: Instance, missing: seq<Instance>)
    modifies w
    ensures Writes(AcceptOrder(), (i, missing), old(w.output), w.output)
  {
    hide Writes, Pair, InstanceCodec, InstanceList;
    WriteInstance(w, i);
    ghost var o1 := w.output;
    WriteInstances(w, missing);
    WritesPair(InstanceCodec(), InstanceList(), (i, missing), old(w.output), o1, w.output);
  }

  method WriteBallotReply(w: Writer, accepted: bool, ballot: Ballot)
    modifies w
    ensures Writes(BallotReply(), (accepted, ballot), old(w.output), w.output)
  {
    hide Writes, Pair, Flag, BallotCodec;
    WriteFlag(w, accepted);
    ghost var o1 := w.output;
    WriteBallot(w, ballot);
    WritesPair(Flag, BallotCodec, (accepted, ballot), old(w.output), o1, w.output);
  }

  method WriteBody(w: Writer, m: Message)
    modifies w
    ensures w.output == old(w.output) + Body(m)
  {
    hide InstanceCodec, InstanceList, Id, ListOf, Nullable, Pair, Flag, BallotCodec;
    ghost var o := w.output;
    match m {
      case PreAcceptRequest(i) => WriteInstance(w, i);
      case PreAcceptResponse(ok, ballot, i, missing) =>
        WriteBallotReply(w, ok, ballot);
        ghost var o1 := w.output;
        WriteAcceptOrder(w, i, missing);
        WritesPair(BallotReply(), AcceptOrder(), ((ok, ballot), (i, missing)), o, o1, w.output);
      case AcceptRequest(i, missing) => WriteAcceptOrder(w, i, missing);
      case AcceptResponse(ok, ballot) => WriteBallotReply(w, ok, ballot);
      case CommitRequest(i) => WriteInstance(w, i);
      case CommitResponse =>
      case PrepareRequest(ballot, id) =>
        WriteBallot(w, ballot);
        ghost var o1 := w.output;
        w.WriteId(id);
        WritesPair(BallotCodec, Id, (ballot, id), o, o1, w.output);
      case PrepareResponse(ok, known) =>
        WriteFlag(w, ok);
        ghost var o1 := w.output;
        WriteKnown(w, known);
        WritesPair(Flag, Nullable(InstanceCodec()), (ok, known), o, o1, w.output);
      case PrepareSuccessorRequest(id) => w.WriteId(id);
      case PrepareSuccessorResponse(known) => WriteKnown(w, known);
      case InstanceRequest(ids) => w.WriteIds(ids);
      case InstanceResponse(found) => WriteInstances(w, found);
    }
  }

  method WriteMessage(w: Writer, m: Message)
    modifies w
    ensures w.output == old(w.output) + Messages.WriteMessage(m)
  {
    hide Body, Uint32;
    w.WriteUint32(TypeOf(m));
    ghost var o1 := w.output;
    WriteBody(w, m);
    assert old(w.output) + Uint32.enc(TypeOf(m)) + Body(m) == old(w.output) + (Uint32.enc(TypeOf(m)) + Body(m));
  }

  // ---------- what is left of the connection ----------

  /** Whether a message was read or not, an end of what was there is left. */
  lemma EndIsLeft(ps: Packets, res: Option<Message>, ps': Packets)
    requires Received(ps, res, ps')
    ensures IsSuffix(Joined(ps'), Joined(ps))
  {
    hide Messages.ReadMessage, Advances, IsSuffix;
    var i := Input([], ps);
    var i' :| Yields(Messages.ReadMessage(Joined(ps)), i, res, i') && ps' == i'.packets;
    assert Stream(i) == Joined(ps);
    if res.Some? {
      AdvancesToSuffix(i, i');
    }
    PacketsAreSuffix(i');
    SuffixTrans(Joined(ps'), Stream(i'), Joined(ps));
  }

  lemma PacketsAreSuffix(i: Input)
    ensures IsSuffix(Joined(i.packets), Stream(i))
  {
  }

  lemma ReceivedIs(m: Message, rest: seq<Byte>, ps: Packets, res: Option<Message>, ps': Packets) returns (i': Input)
    requires MessageCarried(m) && Joined(ps) == Messages.WriteMessage(m) + rest && Received(ps, res, ps')
    ensures res == Some(m) && Stream(i') == rest && ps' == i'.packets && Advances(Input([], ps), i')
  {
    hide Messages.WriteMessage, Messages.ReadMessage, MessageCarried, Advances, Stream;
    MessageRoundTrip(m, rest);
    i' :| Yields(Messages.ReadMessage(Joined(ps)), Input([], ps), res, i') && ps' == i'.packets;
  }

  /** Whatever the packets and whatever follows, the message is received if and
      only if the format carries it. */
  lemma ReceivedIffCarried(m: Message, rest: seq<Byte>, ps: Packets, res: Option<Message>, ps': Packets)
    requires Joined(ps) == Messages.WriteMessage(m) + rest && Received(ps, res, ps')
    ensures res == Some(m) <==> MessageCarried(m)
  {
    hide Messages.WriteMessage, Messages.ReadMessage, MessageCarried, Advances, Stream, BodyFits, Correct;
    if MessageCarried(m) {
      var i' := ReceivedIs(m, rest, ps, res, ps');
    }
    if res == Some(m) {
      MessageIsCorrect();
      YieldsFittingAt(MessageCodec, Joined(ps));
      MessageFits(m);
    }
  }

  /** What is left is the end of what follows, without what was read ahead. */
  lemma LeftIsSuffix(m: Message, rest: seq<Byte>, ps: Packets, res: Option<Message>, ps': Packets) returns (n: nat)
    requires MessageCarried(m) && Joined(ps) == Messages.WriteMessage(m) + rest && Received(ps, res, ps')
    ensures n <= |rest| && Joined(ps') == rest[n..]
  {
    hide Messages.WriteMessage, MessageCarried, Received, Advances;
    var i' := ReceivedIs(m, rest, ps, res, ps');
    LeftIsShorter(i');
    n := |i'.buffer|;
  }

  /** Two messages that arrive together: the second is gone. */
  lemma NextMessageIsLost(m: Message, next: Message, res: Option<Message>, ps': Packets, res': Option<Message>, ps'': Packets)
    requires MessageCarried(m) && MessageCarried(next)
    requires Messages.WriteMessage(m) + Messages.WriteMessage(next) != [] && |Messages.WriteMessage(m) + Messages.WriteMessage(next)| <= BUFFER_SIZE
    requires Received([Messages.WriteMessage(m) + Messages.WriteMessage(next)], res, ps') && Received(ps', res', ps'')
    ensures res == Some(m) && ps' == [] && res' == None
  {
    hide Messages.WriteMessage, MessageCarried, Advances, DecodeBody;
    var p := Messages.WriteMessage(m) + Messages.WriteMessage(next);
    assert Joined([p]) == p;
    var i' := ReceivedIs(m, Messages.WriteMessage(next), [p], res, ps');
    MessageSize(m);
    SmallPacketIsTaken(p, i');
    assert Joined(ps') == [];
  }

  /** Cut before the last byte of the message, the stream loses some of what follows. */
  lemma CutLoses(m: Message, rest: seq<Byte>, res: Option<Message>, ps': Packets)
    requires MessageCarried(m) && rest != []
    ensures 0 < |Messages.WriteMessage(m)|
    ensures Received(CutBefore(Messages.WriteMessage(m) + rest, |Messages.WriteMessage(m)|), res, ps') ==> Joined(ps') != rest
    ensures Joined(CutBefore(Messages.WriteMessage(m) + rest, |Messages.WriteMessage(m)|)) == Messages.WriteMessage(m) + rest
  {
    hide Messages.WriteMessage, MessageCarried, Received, Advances, CutBefore, Joined, Stream;
    MessageSize(m);
    var bytes, n := Messages.WriteMessage(m) + rest, |Messages.WriteMessage(m)|;
    CutJoins(bytes, n);
    if Received(CutBefore(bytes, n), res, ps') {
      var i' := ReceivedIs(m, rest, CutBefore(bytes, n), res, ps');
      CutReadsAhead(bytes, n, i');
      LeftIsShorter(i');
    }
  }

  /** Some reading of a well-formed stream exists, however it is cut. */
  lemma SomeReading(m: Message, rest: seq<Byte>, ps: Packets) returns (ps': Packets)
    requires MessageCarried(m) && Joined(ps) == Messages.WriteMessage(m) + rest
    ensures Received(ps, Some(m), ps')
  {
    hide Messages.WriteMessage, Messages.ReadMessage, MessageCarried, Advances, Take;
    MessageRoundTrip(m, rest);
    var i := Input([], ps);
    assert Stream(i) == Joined(ps);
    var i' := Take(i, |Messages.WriteMessage(m)|);
    AdvancesByOne(i, |Messages.WriteMessage(m)|);
    ps' := i'.packets;
    assert Yields(Messages.ReadMessage(Joined(ps)), i, Some(m), i');
  }

  /** What follows a message survives however the stream is cut if and only if
      nothing follows. */
  lemma RestSurvivesIffNone(m: Message, rest: seq<Byte>)
    requires MessageCarried(m)
    ensures (forall ps: Packets, res, ps': Packets :: Joined(ps) == Messages.WriteMessage(m) + rest && Received(ps, res, ps') ==> Joined(ps') == rest)
       <==> rest == []
  {
    hide Messages.WriteMessage, MessageCarried, Received, CutBefore, Joined;
    if rest == [] {
      forall ps: Packets, res, ps': Packets | Joined(ps) == Messages.WriteMessage(m) + rest && Received(ps, res, ps') ensures Joined(ps') == rest {
        var n := LeftIsSuffix(m, rest, ps, res, ps');
      }
    } else {
      CutLoses(m, rest, None, []);
      var ps := CutBefore(Messages.WriteMessage(m) + rest, |Messages.WriteMessage(m)|);
      var ps' := SomeReading(m, rest, ps);
      CutLoses(m, rest, Some(m), ps');
    }
  }
}
