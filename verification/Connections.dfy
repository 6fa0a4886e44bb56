/** Connections that deliver their bytes in packets, and the buffered reader
    that is put on them: it fills its buffer only when it is empty, with as much
    of one packet as fits. */
module Connections {
  import opened Bytes

  const BUFFER_SIZE: nat := 4096

  predicate NoneEmpty(ps: seq<seq<Byte>>) {
    forall k :: 0 <= k < |ps| ==> ps[k] != []
  }

  /** What is still to come. A read returns bytes of the first packet only. */
  type Packets = ps: seq<seq<Byte>> | NoneEmpty(ps)

  function Joined(ps: seq<seq<Byte>>): seq<Byte> {
    if ps == [] then [] else ps[0] + Joined(ps[1..])
  }

  function Min(a: nat, b: nat): nat {
    if a < b then a else b
  }

  /** The packets without the first n bytes of the first. */
  function Drop(ps: Packets, n: nat): (r: Packets)
    requires ps != [] && n <= |ps[0]|
    ensures Joined(ps) == ps[0][..n] + Joined(r)
  {
    assert ps[0] == ps[0][..n] + ps[0][n..];
    if n == |ps[0]| then ps[1..]
    else
      var r := [ps[0][n..]] + ps[1..];
      assert r[1..] == ps[1..];
      r
  }

  // ---------- the buffered reader ----------

  datatype Input = Input(buffer: seq<Byte>, packets: Packets)

  function Stream(i: Input): seq<Byte> {
    i.buffer + Joined(i.packets)
  }

  /** What one read with room for want bytes returns and leaves behind. A large
      read with an empty buffer bypasses the buffer. */
  function ReadOnce(i: Input, want: nat): (r: (seq<Byte>, Input))
    requires want > 0 && Stream(i) != []
    ensures 0 < |r.0| <= want && Stream(i) == r.0 + Stream(r.1)
  {
    if i.buffer != [] then
      var n := Min(want, |i.buffer|);
      assert i.buffer == i.buffer[..n] + i.buffer[n..];
      (i.buffer[..n], i.(buffer := i.buffer[n..]))
    else
      var p := i.packets[0];
      if want >= BUFFER_SIZE then
        var n := Min(want, |p|);
        (p[..n], Input([], Drop(i.packets, n)))
      else
        var k := Min(BUFFER_SIZE, |p|);
        var n := Min(want, k);
        assert p[..k] == p[..n] + p[n..k];
        (p[..n], Input(p[n..k], Drop(i.packets, k)))
  }

  /** What reading exactly size bytes, by as many reads as it takes, leaves behind. */
  function Take(i: Input, size: nat): (r: Input)
    requires size <= |Stream(i)|
    ensures Stream(r) == Stream(i)[size..]
    decreases size
  {
    if size == 0 then i
    else
      var (chunk, i') := ReadOnce(i, size);
      Take(i', size - |chunk|)
  }

  /** On the way to reading size bytes of i: done is what has been read, i' what is left. */
  ghost predicate Taken(i: Input, size: nat, done: seq<Byte>, i': Input) {
    && |done| <= size && Stream(i) == done + Stream(i')
    && (size <= |Stream(i)| ==> Take(i, size) == Take(i', size - |done|))
  }

  lemma NoneTaken(i: Input, size: nat)
    ensures Taken(i, size, [], i)
  {
    hide Stream, Take;
    assert [] + Stream(i) == Stream(i);
  }

  lemma MoreTaken(i: Input, size: nat, done: seq<Byte>, i1: Input)
    requires Taken(i, size, done, i1) && |done| < size && Stream(i1) != []
    ensures var (chunk, i2) := ReadOnce(i1, size - |done|); Taken(i, size, done + chunk, i2)
  {
    hide Stream, ReadOnce;
    var (chunk, i2) := ReadOnce(i1, size - |done|);
    assert done + (chunk + Stream(i2)) == done + chunk + Stream(i2);
  }

  lemma TooFew(i: Input, size: nat, done: seq<Byte>, i': Input)
    requires Taken(i, size, done, i') && |done| < size && Stream(i') == []
    ensures |Stream(i)| < size
  {
    hide Stream, Take;
  }

  lemma AllTaken(i: Input, size: nat, done: seq<Byte>, i': Input)
    requires Taken(i, size, done, i') && |done| == size
    ensures size <= |Stream(i)| && done == Stream(i)[..size] && i' == Take(i, size)
  {
    hide Stream;
  }

  function Sum(sizes: seq<nat>): nat {
    if sizes == [] then 0 else sizes[0] + Sum(sizes[1..])
  }

  function TakeAll(i: Input, sizes: seq<nat>): (r: Input)
    requires Sum(sizes) <= |Stream(i)|
    ensures Stream(r) == Stream(i)[Sum(sizes)..]
    decreases sizes
  {
    if sizes == [] then i
    else
      SliceTwice(Stream(i), sizes[0], Sum(sizes[1..]));
      TakeAll(Take(i, sizes[0]), sizes[1..])
  }

  lemma SliceTwice(s: seq<Byte>, a: nat, b: nat)
    requires a + b <= |s|
    ensures s[a..][b..] == s[a + b..]
  {
  }

  /** i' is what some sequence of such reads leaves of i. */
  ghost predicate Advances(i: Input, i': Input) {
    exists sizes :: Sum(sizes) <= |Stream(i)| && i' == TakeAll(i, sizes)
  }

  lemma AdvancesByNone(i: Input)
    ensures Advances(i, i)
  {
    assert TakeAll(i, []) == i;
  }

  lemma AdvancesByOne(i: Input, size: nat)
    requires size <= |Stream(i)|
    ensures Advances(i, Take(i, size))
  {
    hide Stream, Take;
    assert [size][1..] == [];
    assert Sum([size]) == size;
    assert TakeAll(i, [size]) == Take(i, size);
  }

  lemma FirstOfAll(i: Input, sizes: seq<nat>)
    requires sizes != [] && Sum(sizes) <= |Stream(i)|
    ensures Sum(sizes) == sizes[0] + Sum(sizes[1..])
    ensures Sum(sizes[1..]) <= |Stream(Take(i, sizes[0]))| && TakeAll(i, sizes) == TakeAll(Take(i, sizes[0]), sizes[1..])
  {
    hide Stream, Take;
  }

  lemma {:induction false} SumBoth(a: seq<nat>, b: seq<nat>)
    ensures Sum(a + b) == Sum(a) + Sum(b)
  {
    if a == [] {
      assert [] + b == b;
    } else {
      SumBoth(a[1..], b);
      assert (a + b)[1..] == a[1..] + b;
    }
  }

  lemma {:induction false} TakeBoth(i: Input, a: seq<nat>, b: seq<nat>)
    requires Sum(a) <= |Stream(i)| && Sum(b) <= |Stream(TakeAll(i, a))|
    ensures Sum(a + b) <= |Stream(i)| && TakeAll(i, a + b) == TakeAll(TakeAll(i, a), b)
    decreases a
  {
    hide Stream, Take, Sum;
    SumBoth(a, b);
    if a == [] {
      assert [] + b == b;
    } else {
      FirstOfAll(i, a);
      FirstOfAll(i, a + b);
      assert (a + b)[1..] == a[1..] + b;
      TakeBoth(Take(i, a[0]), a[1..], b);
    }
  }

  lemma AdvancesTrans(i: Input, i': Input, i'': Input)
    requires Advances(i, i') && Advances(i', i'')
    ensures Advances(i, i'')
  {
    hide Stream, Take, TakeAll, Sum;
    var a :| Sum(a) <= |Stream(i)| && i' == TakeAll(i, a);
    var b :| Sum(b) <= |Stream(i')| && i'' == TakeAll(i', b);
    TakeBoth(i, a, b);
  }

  // ---------- reading ahead ----------

  /** Whatever has been read ahead is missing from the connection. */
  lemma LeftIsShorter(i: Input)
    ensures Joined(i.packets) == Stream(i)[|i.buffer|..]
    ensures Joined(i.packets) == Stream(i) <==> i.buffer == []
  {
    if Joined(i.packets) == Stream(i) {
      assert |Stream(i)| == |i.buffer| + |Joined(i.packets)|;
    }
  }

  /** One packet that fits the buffer is taken off the connection by the first
      byte that is read of it. */
  lemma SmallPacketIsTaken(p: seq<Byte>, i': Input)
    requires 0 < |p| <= BUFFER_SIZE && Advances(Input([], [p]), i') && |Stream(i')| < |p|
    ensures i'.packets == []
  {
    hide TakeAll, Sum, Stream;
    var i := Input([], [p]);
    OnePacket(p);
    var sizes :| Sum(sizes) <= |Stream(i)| && i' == TakeAll(i, sizes);
    SmallPacketTaken(p, sizes);
  }

  lemma OnePacket(p: seq<Byte>)
    requires p != []
    ensures Stream(Input([], [p])) == p
  {
    assert Joined([p]) == p;
  }

  lemma {:induction false} SmallPacketTaken(p: seq<Byte>, sizes: seq<nat>)
    requires 0 < |p| <= BUFFER_SIZE && 0 < Sum(sizes) <= |p| && Stream(Input([], [p])) == p
    ensures TakeAll(Input([], [p]), sizes).packets == []
    decreases sizes
  {
    var i := Input([], [p]);
    if sizes[0] == 0 {
      SmallPacketTaken(p, sizes[1..]);
    } else {
      var (chunk, i1) := ReadOnce(i, sizes[0]);
      assert i1.packets == [];
      NothingMoreTaken(i1, sizes[0] - |chunk|);
      NothingMoreTakenByAll(Take(i, sizes[0]), sizes[1..]);
    }
  }

  lemma {:induction false} NothingMoreTaken(i: Input, size: nat)
    requires i.packets == [] && size <= |Stream(i)|
    ensures Take(i, size).packets == []
    decreases size
  {
    if size > 0 {
      var (chunk, i') := ReadOnce(i, size);
      NothingMoreTaken(i', size - |chunk|);
    }
  }

  lemma {:induction false} NothingMoreTakenByAll(i: Input, sizes: seq<nat>)
    requires i.packets == [] && Sum(sizes) <= |Stream(i)|
    ensures TakeAll(i, sizes).packets == []
    decreases sizes
  {
    if sizes != [] {
      NothingMoreTaken(i, sizes[0]);
      NothingMoreTakenByAll(Take(i, sizes[0]), sizes[1..]);
    }
  }

  // ---------- a cut that loses bytes ----------

  /** The last packet is b, untouched, with at most one packet before it. */
  ghost predicate Ahead(i: Input, b: seq<Byte>) {
    i.packets == [b] || (|i.packets| == 2 && i.packets[1] == b)
  }

  /** How much comes before the last packet. */
  function Lead(i: Input): nat {
    |i.buffer| + if |i.packets| == 2 then |i.packets[0]| else 0
  }

  lemma AheadStream(i: Input, b: seq<Byte>)
    requires Ahead(i, b)
    ensures |Stream(i)| == Lead(i) + |b|
  {
    assert Joined([b]) == b;
    if |i.packets| == 2 {
      assert i.packets[1..] == [b];
    }
  }

  lemma ReadAhead(i: Input, b: seq<Byte>, want: nat)
    requires Ahead(i, b) && |b| > 1 && Stream(i) != [] && 0 < want <= Lead(i) + 1
    ensures var (chunk, i') := ReadOnce(i, want);
      if Lead(i) > 0 then Ahead(i', b) && |chunk| <= Lead(i) && Lead(i') == Lead(i) - |chunk| else i'.buffer != [] && |chunk| == want
  {
  }

  /** The read that ends one byte into b takes more of b than that. */
  lemma {:induction false} TakeAhead(i: Input, b: seq<Byte>, size: nat)
    requires Ahead(i, b) && |b| > 1 && size <= Lead(i) + 1 && size <= |Stream(i)|
    ensures size <= Lead(i) ==> Ahead(Take(i, size), b) && Lead(Take(i, size)) == Lead(i) - size
    ensures size == Lead(i) + 1 ==> Take(i, size).buffer != []
    decreases size
  {
    hide Ahead, Lead, Stream, ReadOnce;
    if size > 0 {
      ReadAhead(i, b, size);
      var (chunk, i') := ReadOnce(i, size);
      if Lead(i) > 0 {
        TakeAhead(i', b, size - |chunk|);
      }
    }
  }

  lemma {:induction false} TakeAllAhead(i: Input, b: seq<Byte>, sizes: seq<nat>)
    requires Ahead(i, b) && |b| > 1 && Sum(sizes) == Lead(i) + 1 && Sum(sizes) <= |Stream(i)|
    ensures TakeAll(i, sizes).buffer != []
    decreases sizes
  {
    hide Ahead, Lead, Stream, Take;
    TakeAhead(i, b, sizes[0]);
    if sizes[0] == Lead(i) + 1 {
      NoMore(Take(i, sizes[0]), sizes[1..]);
    } else {
      TakeAllAhead(Take(i, sizes[0]), b, sizes[1..]);
    }
  }

  lemma {:induction false} NoMore(i: Input, sizes: seq<nat>)
    requires Sum(sizes) == 0
    ensures TakeAll(i, sizes) == i
    decreases sizes
  {
    hide Stream;
    if sizes != [] {
      NoMore(i, sizes[1..]);
    }
  }

  /** The bytes cut into two packets, the second starting with byte n - 1. */
  function CutBefore(bytes: seq<Byte>, n: nat): Packets
    requires 0 < n < |bytes|
  {
    if n == 1 then [bytes] else [bytes[..n - 1], bytes[n - 1..]]
  }

  /** However n bytes are read of that, something beyond them is read ahead. */
  lemma CutReadsAhead(bytes: seq<Byte>, n: nat, i': Input)
    requires 0 < n < |bytes| && Advances(Input([], CutBefore(bytes, n)), i') && |Stream(i')| == |bytes| - n
    ensures Joined(CutBefore(bytes, n)) == bytes && i'.buffer != []
  {
    var i, b := Input([], CutBefore(bytes, n)), bytes[n - 1..];
    assert Ahead(i, b) && Lead(i) == n - 1;
    CutJoins(bytes, n);
    AheadStream(i, b);
    var sizes :| Sum(sizes) <= |Stream(i)| && i' == TakeAll(i, sizes);
    TakeAllAhead(i, b, sizes);
  }

  lemma CutJoins(bytes: seq<Byte>, n: nat)
    requires 0 < n < |bytes|
    ensures Joined(CutBefore(bytes, n)) == bytes
  {
    var ps := CutBefore(bytes, n);
    if n == 1 {
      assert ps[1..] == [];
    } else {
      assert ps[1..] == [bytes[n - 1..]];
      assert Joined(ps[1..]) == bytes[n - 1..];
    }
  }
}
