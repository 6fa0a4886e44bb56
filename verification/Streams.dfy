/** The loops that move ids and fields between memory and buffered streams. */
module Streams {
  import opened Bytes
  import opened Options
  import opened Codecs
  import opened Connections
  import opened WireFormat
  import opened Ids

  // ---------- placing bytes in a word ----------

  lemma {:induction false} PowersAgree(k: nat)
    ensures Pow2(8 * k) == Pow256(k)
  {
    if k > 0 {
      PowersAgree(k - 1);
      var n := 8 * (k - 1);
      assert Pow2(n + 2) == 4 * Pow2(n);
      assert Pow2(n + 4) == 4 * Pow2(n + 2);
      assert Pow2(n + 6) == 4 * Pow2(n + 4);
      assert Pow2(n + 8) == 4 * Pow2(n + 6);
    }
  }

  lemma {:induction false} ShiftedByteFits(b: Byte, k: nat)
    ensures ShiftLeft(b, k) < Pow256(k + 1)
  {
    if k > 0 {
      ShiftedByteFits(b, k - 1);
    }
  }

  lemma {:induction false} PowersGrow(k: nat, n: nat)
    requires k <= n
    ensures Pow256(k) <= Pow256(n)
  {
    if k < n {
      PowersGrow(k, n - 1);
    }
  }

  lemma EightBytes()
    ensures Pow256(8) == 0x1_0000_0000_0000_0000
  {
  }

  lemma OrFits(w: Word, b: Byte, k: nat)
    requires k < 8
    ensures Or(w, ShiftLeft(b, k)) < 0x1_0000_0000_0000_0000
  {
    EightBytes();
    PowersAgree(8);
    ShiftedByteFits(b, k);
    PowersGrow(k + 1, 8);
    OrBound(w, ShiftLeft(b, k), 64);
  }

  /** The word after byte b is or-ed in, k bytes from the right. */
  function Placed(w: Word, b: Byte, k: nat): Word
    requires k < 8
  {
    OrFits(w, b, k);
    Or(w, ShiftLeft(b, k))
  }

  /** w with the bytes of bs or-ed into it from the left. */
  function Filled(w: Word, bs: seq<Byte>): nat
    requires |bs| <= 8
  {
    Or(w, ShiftLeft(ValueOf(bs), 8 - |bs|))
  }

  lemma FilledStep(w: Word, bs: seq<Byte>, b: Byte)
    requires |bs| < 8
    ensures Or(Filled(w, bs), ShiftLeft(b, 7 - |bs|)) == Filled(w, bs + [b])
  {
    var v, k := ValueOf(bs), 7 - |bs|;
    assert (bs + [b])[..|bs|] == bs;
    assert ValueOf(bs + [b]) == 256 * v + b;
    OrAssoc(w, ShiftLeft(v, k + 1), ShiftLeft(b, k));
    OrNextByte(v, b, k);
  }

  lemma FilledNothing(w: Word)
    ensures Filled(w, []) == w
  {
    ShiftLeftZero(8);
    OrZero(w);
  }

  lemma {:induction false} ShiftLeftZero(k: nat)
    ensures ShiftLeft(0, k) == 0
  {
    if k > 0 {
      ShiftLeftZero(k - 1);
    }
  }

  class B16 {
    var b0: Word
    var b1: Word

    constructor ()
      ensures b0 == 0 && b1 == 0
    {
      b0, b1 := 0, 0;
    }

    method MarshalBinary() returns (bs: array<Byte>)
      ensures fresh(bs) && bs[..] == IdBytes(InstanceID(b0, b1))
    {
      hide ShiftRight, BigEndian;
      bs := new Byte[16];
      var i := 0;
      while i < 16
        invariant i <= 16
        invariant forall j :: 0 <= j < i ==> bs[j] == IdBytes(InstanceID(b0, b1))[j]
      {
        var src, offset := b0, i;
        if i >= 8 {
          src, offset := b1, i - 8;
        }
        ByteOfBigEndian(src, 8, offset);
        bs[i] := ShiftRight(src, 7 - offset) % 256;
        i := i + 1;
      }
    }

    /** Refuses anything but 16 bytes. The bytes are or-ed into what was there. */
    method UnmarshalBinary(bs: seq<Byte>) returns (ok: bool)
      modifies this
      ensures ok <==> |bs| == 16
      ensures !ok ==> b0 == old(b0) && b1 == old(b1)
      ensures ok ==> b0 == Or(old(b0), IdOf(bs).b0) && b1 == Or(old(b1), IdOf(bs).b1)
    {
      hide Or, ShiftLeft, ValueOf, Filled;
      if |bs| != 16 {
        return false;
      }
      FilledNothing(b0);
      FilledNothing(b1);
      var i := 0;
      while i < 16
        invariant i <= 16
        invariant i <= 8 ==> b0 == Filled(old(b0), bs[..i]) && b1 == old(b1)
        invariant i > 8 ==> b0 == Filled(old(b0), bs[..8]) && b1 == Filled(old(b1), bs[8..i])
      {
        if i < 8 {
          FilledStep(old(b0), bs[..i], bs[i]);
          assert bs[..i] + [bs[i]] == bs[..i + 1];
          b0 := Placed(b0, bs[i], 7 - i);
        } else {
          FilledStep(old(b1), bs[8..i], bs[i]);
          assert bs[8..i] + [bs[i]] == bs[8..i + 1];
          b1 := Placed(b1, bs[i], 15 - i);
        }
        i := i + 1;
      }
      assert bs[8..16] == bs[8..];
      FilledWhole(old(b0), bs[..8]);
      FilledWhole(old(b1), bs[8..]);
      return true;
    }
  }

  lemma FilledWhole(w: Word, bs: seq<Byte>)
    requires |bs| == 8
    ensures Filled(w, bs) == Or(w, ValueOf(bs))
  {
  }

  /** What unmarshalling the bytes of id leaves in a receiver. */
  function Unmarshalled(receiver: InstanceID, id: InstanceID): (nat, nat) {
    (Or(receiver.b0, id.b0), Or(receiver.b1, id.b1))
  }

  /** Ids are read back correctly into a zeroed receiver, and into no other. */
  lemma ReadsBackIffZeroed(receiver: InstanceID)
    ensures (forall id :: Unmarshalled(receiver, id) == (id.b0, id.b1)) <==> receiver == InstanceID(0, 0)
  {
    forall id: InstanceID ensures Or(0, id.b0) == id.b0 && Or(0, id.b1) == id.b1 {
      OrZero(id.b0);
      OrZero(id.b1);
    }
    var zero := InstanceID(0, 0);
    OrZero(receiver.b0);
    OrZero(receiver.b1);
    assert Unmarshalled(receiver, zero) == (receiver.b0, receiver.b1);
  }

  // ---------- what a read yields ----------

  predicate IsSuffix(a: seq<Byte>, b: seq<Byte>) {
    |a| <= |b| && b[|b| - |a|..] == a
  }

  lemma SuffixTrans(a: seq<Byte>, b: seq<Byte>, c: seq<Byte>)
    requires IsSuffix(a, b) && IsSuffix(b, c)
    ensures IsSuffix(a, c)
  {
  }

  lemma AdvancesToSuffix(i: Input, i': Input)
    requires Advances(i, i')
    ensures IsSuffix(Stream(i'), Stream(i))
  {
    hide Stream;
  }

  /** The value and the rest of the stream that p tells of were read, or nothing
      was and an end of the stream is left. */
  ghost predicate Yields<T>(p: Parsed<T>, before: Input, res: Option<T>, after: Input) {
    match p
    case Fail => res == None && IsSuffix(Stream(after), Stream(before))
    case Parsed(v, rest) => res == Some(v) && rest == Stream(after) && Advances(before, after)
  }

  ghost predicate Reads<T>(c: Codec<T>, before: Input, res: Option<T>, after: Input) {
    Yields(c.dec(Stream(before)), before, res, after)
  }

  lemma ReadsPair<A, B>(a: Codec<A>, b: Codec<B>, i: Input, x: Option<A>, i1: Input, y: Option<B>, i2: Input)
    requires Reads(a, i, x, i1) && if x.Some? then Reads(b, i1, y, i2) else i2 == i1
    ensures Reads(Pair(a, b), i, if x.Some? && y.Some? then Some((x.value, y.value)) else None, i2)
  {
    hide Advances, Stream, IsSuffix;
    if x.Some? {
      AdvancesToSuffix(i, i1);
      if y.Some? {
        AdvancesTrans(i, i1, i2);
      } else {
        SuffixTrans(Stream(i2), Stream(i1), Stream(i));
      }
    }
  }

  lemma ReadsMapped<A, B>(c: Codec<A>, to: A -> B, from: B -> A, holds: B -> bool, i: Input, x: Option<A>, i1: Input)
    requires Reads(c, i, x, i1)
    ensures Reads(Mapped(c, to, from, holds), i, if x.Some? then Some(to(x.value)) else None, i1)
  {
    hide Advances, Stream;
  }

  // ---------- lists ----------

  function Prepend<T>(done: seq<T>, p: Parsed<seq<T>>): Parsed<seq<T>> {
    match p
    case Fail => Fail
    case Parsed(vs, rest) => Parsed(done + vs, rest)
  }

  /** The elements in done were read of a list of n, up to the point i'. */
  ghost predicate PartOf<T>(dec: seq<Byte> -> Parsed<T>, n: nat, i: Input, done: seq<T>, i': Input) {
    && |done| <= n && Advances(i, i')
    && Prepend(done, DecodeAll(dec, n - |done|, Stream(i'))) == DecodeAll(dec, n, Stream(i))
  }

  lemma PartStarts<T>(dec: seq<Byte> -> Parsed<T>, n: nat, i: Input)
    ensures PartOf(dec, n, i, [], i)
  {
    hide Stream, DecodeAll;
    AdvancesByNone(i);
    var p := DecodeAll(dec, n, Stream(i));
    if p.Parsed? {
      assert [] + p.value == p.value;
    }
  }

  lemma PartGrows<T>(dec: seq<Byte> -> Parsed<T>, n: nat, i: Input, done: seq<T>, i1: Input, x: Option<T>, i2: Input)
    requires PartOf(dec, n, i, done, i1) && |done| < n && Yields(dec(Stream(i1)), i1, x, i2)
    ensures x.Some? ==> PartOf(dec, n, i, done + [x.value], i2)
    ensures x.None? ==> Yields(DecodeAll(dec, n, Stream(i)), i, None, i2)
  {
    hide Stream, Advances, IsSuffix;
    AdvancesToSuffix(i, i1);
    var k := n - |done|;
    if x.Some? {
      AdvancesTrans(i, i1, i2);
      assert dec(Stream(i1)) == Parsed(x.value, Stream(i2));
      if DecodeAll(dec, k - 1, Stream(i2)).Parsed? {
        var vs := DecodeAll(dec, k - 1, Stream(i2)).value;
        assert done + ([x.value] + vs) == done + [x.value] + vs;
      }
    } else {
      SuffixTrans(Stream(i2), Stream(i1), Stream(i));
    }
  }

  lemma PartEnds<T>(dec: seq<Byte> -> Parsed<T>, n: nat, i: Input, done: seq<T>, i': Input)
    requires PartOf(dec, n, i, done, i') && |done| == n
    ensures DecodeAll(dec, n, Stream(i)) == Parsed(done, Stream(i')) && Advances(i, i')
  {
    hide Stream, Advances;
    assert done + [] == done;
  }

  /** A count and then the elements make a list. */
  lemma ReadsList<T>(c: Codec<T>, i: Input, n: Option<nat>, i1: Input, vs: Option<seq<T>>, i2: Input)
    requires Reads(Uint32, i, n, i1)
    requires if n.Some? then Yields(DecodeAll(c.dec, n.value, Stream(i1)), i1, vs, i2) else i2 == i1
    ensures Reads(ListOf(c), i, if n.Some? then vs else None, i2)
  {
    hide Stream, Advances, DecodeAll, Uint32, IsSuffix;
    if n.Some? {
      AdvancesToSuffix(i, i1);
      if vs.Some? {
        AdvancesTrans(i, i1, i2);
      } else {
        SuffixTrans(Stream(i2), Stream(i1), Stream(i));
      }
    }
  }

  // ---------- buffered streams ----------

  class Connection {
    var packets: Packets

    constructor (packets: Packets)
      ensures this.packets == packets
    {
      this.packets := packets;
    }

    /** Bytes of the first packet, as many as there is room for. */
    method Read(room: nat) returns (chunk: seq<Byte>)
      requires room > 0 && packets != []
      modifies this
      ensures var n := Min(room, |old(packets)[0]|); chunk == old(packets)[0][..n] && packets == Drop(old(packets), n)
    {
      var n := Min(room, |packets[0]|);
      chunk := packets[0][..n];
      packets := Drop(packets, n);
    }
  }

  /** A buffered reader on a connection. */
  class Reader {
    const conn: Connection
    var buffer: seq<Byte>

    constructor (conn: Connection)
      ensures this.conn == conn && buffer == []
    {
      this.conn, buffer := conn, [];
    }

    function View(): Input
      reads this, conn
    {
      Input(buffer, conn.packets)
    }

    /** Fills the buffer only when it is empty, by one read of the connection. */
    method NextChunk(want: nat) returns (chunk: seq<Byte>)
      requires want > 0 && Stream(View()) != []
      modifies this, conn
      ensures var (c, rest) := ReadOnce(old(View()), want); chunk == c && View() == rest
    {
      hide Drop;
      if buffer == [] && want >= BUFFER_SIZE {
        chunk := conn.Read(want);
      } else {
        if buffer == [] {
          buffer := conn.Read(BUFFER_SIZE);
        }
        var n := Min(want, |buffer|);
        chunk, buffer := buffer[..n], buffer[n..];
      }
    }

    /** One read into the part of target that begins at from. */
    method Read(target: array<Byte>, from: nat) returns (n: nat, eof: bool)
      requires from < target.Length
      modifies this, conn, target
      ensures eof <==> Stream(old(View())) == []
      ensures eof ==> View() == old(View())
      ensures !eof ==> var (chunk, rest) := ReadOnce(old(View()), target.Length - from);
        && n == |chunk| && View() == rest
        && target[..from] == old(target[..from]) && target[from..from + n] == chunk
    {
      hide ReadOnce;
      if buffer == [] && conn.packets == [] {
        return 0, true;
      }
      var chunk := NextChunk(target.Length - from);
      n, eof := |chunk|, false;
      forall i | 0 <= i < n {
        target[from + i] := chunk[i];
      }
    }

    /** Reads exactly size bytes, however the stream cuts them up. */
    method ReadBytes(size: nat) returns (ok: bool, bytes: seq<Byte>)
      modifies this, conn
      ensures ok <==> size <= |Stream(old(View()))|
      ensures !ok ==> Stream(View()) == []
      ensures ok ==> bytes == Stream(old(View()))[..size] && View() == Take(old(View()), size)
    {
      hide ReadOnce, Stream, Take, Taken;
      var numRead := 0;
      var target := new Byte[size];
      NoneTaken(View(), size);
      while numRead < size
        invariant numRead <= size && fresh(target)
        invariant Taken(old(View()), size, target[..numRead], View())
      {
        ghost var i, done := View(), target[..numRead];
        var n, eof := Read(target, numRead);
        if eof {
          TooFew(old(View()), size, done, i);
          return false, [];
        }
        MoreTaken(old(View()), size, done, i);
        assert target[..numRead + n] == done + target[numRead..numRead + n];
        numRead := numRead + n;
      }
      AllTaken(old(View()), size, target[..numRead], View());
      return true, target[..];
    }

    method ReadUint32() returns (res: Option<nat>)
      modifies this, conn
      ensures Reads(Uint32, old(View()), res, View())
    {
      hide Stream, Take;
      ghost var i := View();
      var ok, bytes := ReadBytes(4);
      if !ok {
        return None;
      }
      AdvancesByOne(i, 4);
      res := Some(ValueOfLittle(bytes));
    }

    method ReadFieldBytes() returns (res: Option<seq<Byte>>)
      modifies this, conn
      ensures Reads(Field, old(View()), res, View())
    {
      hide Uint32, Stream, Take, Advances;
      ghost var i := View();
      var size := ReadUint32();
      if size.None? {
        return None;
      }
      ghost var i1 := View();
      AdvancesToSuffix(i, i1);
      var ok, bytes := ReadBytes(size.value);
      if !ok {
        return None;
      }
      AdvancesByOne(i1, size.value);
      AdvancesTrans(i, i1, View());
      res := Some(bytes);
    }

    method ReadId() returns (res: Option<InstanceID>)
      modifies this, conn
      ensures Reads(Id, old(View()), res, View())
    {
      hide IdOf, Or, Stream, Take;
      ghost var i := View();
      var ok, bytes := ReadBytes(16);
      if !ok {
        return None;
      }
      AdvancesByOne(i, 16);
      var receiver := new B16();
      var _ := receiver.UnmarshalBinary(bytes);
      OrZero(IdOf(bytes).b0);
      OrZero(IdOf(bytes).b1);
      res := Some(InstanceID(receiver.b0, receiver.b1));
    }

    method ReadIds() returns (res: Option<seq<InstanceID>>)
      modifies this, conn
      ensures Reads(ListOf(Id), old(View()), res, View())
    {
      hide Uint32, Id, Reads, Yields, PartOf, Stream, ListOf;
      ghost var i := View();
      var n := ReadUint32();
      ghost var i1 := View();
      if n.None? {
        ReadsList(Id, i, n, i1, None, i1);
        return None;
      }
      var ids := [];
      PartStarts(Id.dec, n.value, i1);
      while |ids| < n.value
        invariant PartOf(Id.dec, n.value, i1, ids, View())
      {
        ghost var i2 := View();
        var id := ReadId();
        ReadsIs(Id, i2, id, View());
        PartGrows(Id.dec, n.value, i1, ids, i2, id, View());
        if id.None? {
          ReadsList(Id, i, n, i1, None, View());
          return None;
        }
        ids := ids + [id.value];
      }
      PartIsWhole(Id.dec, n.value, i1, ids, View());
      ReadsList(Id, i, n, i1, Some(ids), View());
      return Some(ids);
    }
  }

  lemma ReadsIs<T>(c: Codec<T>, i: Input, res: Option<T>, i': Input)
    ensures Reads(c, i, res, i') <==> Yields(c.dec(Stream(i)), i, res, i')
  {
  }

  lemma PartIsWhole<T>(dec: seq<Byte> -> Parsed<T>, n: nat, i: Input, done: seq<T>, i': Input)
    requires PartOf(dec, n, i, done, i') && |done| >= n
    ensures Yields(DecodeAll(dec, n, Stream(i)), i, Some(done), i')
  {
    hide Stream, Advances, DecodeAll;
    PartEnds(dec, n, i, done, i');
  }

  // ---------- what a write appends ----------

  ghost predicate Writes<T>(c: Codec<T>, v: T, before: seq<Byte>, after: seq<Byte>) {
    after == before + c.enc(v)
  }

  lemma WritesPair<A, B>(a: Codec<A>, b: Codec<B>, v: (A, B), o: seq<Byte>, o1: seq<Byte>, o2: seq<Byte>)
    requires Writes(a, v.0, o, o1) && Writes(b, v.1, o1, o2)
    ensures Writes(Pair(a, b), v, o, o2)
  {
    assert o + a.enc(v.0) + b.enc(v.1) == o + (a.enc(v.0) + b.enc(v.1));
  }

  lemma WritesMapped<A, B>(c: Codec<A>, to: A -> B, from: B -> A, holds: B -> bool, v: B, o: seq<Byte>, o1: seq<Byte>)
    requires Writes(c, from(v), o, o1)
    ensures Writes(Mapped(c, to, from, holds), v, o, o1)
  {
  }

  /** The first k of vs have been written after their count. */
  ghost predicate WrittenUpTo<T>(c: Codec<T>, vs: seq<T>, k: nat, before: seq<Byte>, after: seq<Byte>) {
    k <= |vs| && after == before + (Uint32.enc(|vs|) + EncodeAll(c.enc, vs[..k]))
  }

  lemma WrittenCount<T>(c: Codec<T>, vs: seq<T>, o: seq<Byte>, o1: seq<Byte>)
    requires Writes(Uint32, |vs|, o, o1)
    ensures WrittenUpTo(c, vs, 0, o, o1)
  {
    hide Uint32;
    assert Uint32.enc(|vs|) + [] == Uint32.enc(|vs|);
  }

  lemma WrittenOneMore<T>(c: Codec<T>, vs: seq<T>, k: nat, o: seq<Byte>, o1: seq<Byte>, o2: seq<Byte>)
    requires k < |vs| && WrittenUpTo(c, vs, k, o, o1) && Writes(c, vs[k], o1, o2)
    ensures WrittenUpTo(c, vs, k + 1, o, o2)
  {
    hide Uint32, EncodeAll;
    assert vs[..k + 1] == vs[..k] + [vs[k]];
    EncodeAllSnoc(c.enc, vs[..k], vs[k]);
    var head, body, last := Uint32.enc(|vs|), EncodeAll(c.enc, vs[..k]), c.enc(vs[k]);
    assert o + (head + body) + last == o + (head + (body + last));
  }

  lemma WrittenAll<T>(c: Codec<T>, vs: seq<T>, o: seq<Byte>, o1: seq<Byte>)
    requires WrittenUpTo(c, vs, |vs|, o, o1)
    ensures Writes(ListOf(c), vs, o, o1)
  {
    hide Uint32, EncodeAll;
    assert vs[..|vs|] == vs;
  }

  lemma {:induction false} EncodeAllSnoc<T>(enc: T -> seq<Byte>, vs: seq<T>, v: T)
    ensures EncodeAll(enc, vs + [v]) == EncodeAll(enc, vs) + enc(v)
  {
    if vs == [] {
      assert [] + [v] == [v] && [v][1..] == [];
    } else {
      EncodeAllSnoc(enc, vs[1..], v);
      assert (vs + [v])[1..] == vs[1..] + [v];
    }
  }

  class Writer {
    /** What has been written. */
    var output: seq<Byte>

    constructor ()
      ensures output == []
    {
      output := [];
    }

    method WriteUint32(n: nat)
      modifies this
      ensures Writes(Uint32, n, old(output), output)
    {
      output := output + LittleEndian(n, 4);
    }

    method WriteFieldBytes(bytes: seq<Byte>)
      modifies this
      ensures Writes(Field, bytes, old(output), output)
    {
      output := output + LittleEndian(|bytes|, 4);
      output := output + bytes;
    }

    method WriteId(id: InstanceID)
      modifies this
      ensures Writes(Id, id, old(output), output)
    {
      hide IdBytes;
      var b := new B16();
      b.b0, b.b1 := id.b0, id.b1;
      var bytes := b.MarshalBinary();
      output := output + bytes[..];
    }

    method WriteIds(ids: seq<InstanceID>)
      modifies this
      ensures Writes(ListOf(Id), ids, old(output), output)
    {
      hide Writes, WrittenUpTo;
      WriteUint32(|ids|);
      WrittenCount(Id, ids, old(output), output);
      for k := 0 to |ids|
        invariant WrittenUpTo(Id, ids, k, old(output), output)
      {
        ghost var o := output;
        WriteId(ids[k]);
        WrittenOneMore(Id, ids, k, old(output), o, output);
      }
      WrittenAll(Id, ids, old(output), output);
    }
  }
}
