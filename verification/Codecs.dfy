/**
 * Values on a byte stream: what a writer and a reader owe each other, and how
 * pairs, optional values and lists are built from smaller codecs.
 */
module Codecs {
  import opened Bytes
  import opened Options

  /** What a reader returns: a value and the rest of the stream, or an error. */
  datatype Parsed<+T> = Fail | Parsed(value: T, rest: seq<Byte>)

  /** A writer, a reader, and the values the format can carry. */
  datatype Codec<!T> = Codec(enc: T -> seq<Byte>, dec: seq<Byte> -> Parsed<T>, fits: T -> bool)

  // ---------- correctness ----------

  /** The reader consumes exactly what the writer wrote, whatever follows. */
  ghost predicate ReadsBack<T(!new)>(c: Codec<T>) {
    forall v, rest :: c.fits(v) ==> c.dec(c.enc(v) + rest) == Parsed(v, rest)
  }

  /** More input after a value does not change how the value is read. */
  ghost predicate Stable<T(!new)>(c: Codec<T>) {
    forall b, more :: c.dec(b).Parsed? ==> c.dec(b + more) == Parsed(c.dec(b).value, c.dec(b).rest + more)
  }

  ghost predicate YieldsFitting<T(!new)>(c: Codec<T>) {
    forall b :: c.dec(b).Parsed? ==> c.fits(c.dec(b).value)
  }

  ghost predicate Correct<T(!new)>(c: Codec<T>) {
    ReadsBack(c) && Stable(c) && YieldsFitting(c)
  }

  /** Writing and reading again gives back the value exactly when the format can carry it. */
  lemma RoundTripIffFits<T(!new)>(c: Codec<T>, v: T, rest: seq<Byte>)
    requires Correct(c)
    ensures c.dec(c.enc(v) + rest) == Parsed(v, rest) <==> c.fits(v)
  {
    assert ReadsBack(c) && YieldsFitting(c);
  }

  /** Every strict prefix of an encoding is refused. */
  lemma StrictPrefixFails<T(!new)>(c: Codec<T>, v: T, n: nat)
    requires Correct(c) && c.fits(v) && n < |c.enc(v)|
    ensures c.dec(c.enc(v)[..n]).Fail?
  {
    var bytes := c.enc(v);
    var p, more := bytes[..n], bytes[n..];
    assert p + more == bytes && bytes + [] == bytes;
    RoundTripIffFits(c, v, []);
    RestGrows(c, p, more);
  }

  /** Stability for one input. */
  lemma StableAt<T(!new)>(c: Codec<T>, b: seq<Byte>, more: seq<Byte>)
    requires Correct(c) && c.dec(b).Parsed?
    ensures c.dec(b + more) == Parsed(c.dec(b).value, c.dec(b).rest + more)
  {
    assert Stable(c);
  }

  lemma YieldsFittingAt<T(!new)>(c: Codec<T>, b: seq<Byte>)
    requires Correct(c) && c.dec(b).Parsed?
    ensures c.fits(c.dec(b).value)
  {
    assert YieldsFitting(c);
  }

  lemma RestGrows<T(!new)>(c: Codec<T>, p: seq<Byte>, more: seq<Byte>)
    requires Stable(c)
    ensures c.dec(p).Parsed? ==> c.dec(p + more).Parsed? && |c.dec(p + more).rest| >= |more|
  {
  }

  lemma Conclude<T(!new)>(c: Codec<T>)
    requires forall v, rest :: c.fits(v) ==> c.dec(c.enc(v) + rest) == Parsed(v, rest)
    requires forall b, more :: c.dec(b).Parsed? ==> c.dec(b + more) == Parsed(c.dec(b).value, c.dec(b).rest + more)
    requires forall b :: c.dec(b).Parsed? ==> c.fits(c.dec(b).value)
    ensures Correct(c)
  {
    assert ReadsBack(c) && Stable(c) && YieldsFitting(c);
  }

  // ---------- numbers and flags ----------

  /** A single byte. */
  const Octet: Codec<Byte> := Codec(x => [x], b => if b == [] then Fail else Parsed(b[0], b[1..]), _ => true)

  lemma OctetIsCorrect()
    ensures Correct(Octet)
  {
    assert forall x: Byte, rest: seq<Byte> :: ([x] + rest)[1..] == rest;
    assert forall b: seq<Byte>, more: seq<Byte> :: b != [] ==> (b + more)[1..] == b[1..] + more;
    assert ReadsBack(Octet);
    assert Stable(Octet);
  }

  /** 0xff for true and 0 for false; any byte but 0 is read as true. */
  const Flag: Codec<bool> :=
    Codec(f => [if f then 0xff else 0], b => if b == [] then Fail else Parsed(b[0] != 0, b[1..]), _ => true)

  lemma FlagIsCorrect()
    ensures Correct(Flag)
  {
    assert forall x: Byte, rest: seq<Byte> :: ([x] + rest)[1..] == rest;
    assert forall b: seq<Byte>, more: seq<Byte> :: b != [] ==> (b + more)[1..] == b[1..] + more;
    assert ReadsBack(Flag);
    assert Stable(Flag);
  }

  /** The low w bytes of n, the least significant first. */
  function LittleEndian(n: nat, w: nat): (bs: seq<Byte>)
    ensures |bs| == w
  {
    if w == 0 then [] else [n % 256] + LittleEndian(n / 256, w - 1)
  }

  function ValueOfLittle(bs: seq<Byte>): (n: nat)
    ensures n < Pow256(|bs|)
  {
    if bs == [] then 0 else bs[0] + 256 * ValueOfLittle(bs[1..])
  }

  lemma RemainderSplits(n: nat, p: nat)
    requires p > 0
    ensures n % (256 * p) == n % 256 + 256 * (n / 256 % p)
  {
    var q, r, d := n / 256, n / 256 % p, n / 256 / p;
    var low := n % 256 + 256 * r;
    assert q == d * p + r;
    assert n == 256 * p * d + low by {
      assert n == 256 * q + n % 256;
      assert 256 * (d * p) == 256 * p * d;
    }
    RemainderIs(n, 256 * p, d, low);
  }

  lemma RemainderIs(n: nat, m: nat, d: nat, low: nat)
    requires n == m * d + low && low < m
    ensures n % m == low
  {
    var q, r := n / m, n % m;
    assert n == m * q + r;
    Multiple(m, d - q);
    assert m * (d - q) == m * d - m * q;
  }

  lemma Multiple(m: nat, e: int)
    ensures e >= 1 ==> m * e >= m
    ensures e <= -1 ==> m * e + m <= 0
    ensures e == 0 ==> m * e == 0
  {
    if e >= 1 {
      assert m * (e - 1) >= 0;
    } else if e <= -1 {
      assert m * (-e - 1) >= 0;
    }
  }

  /** Writing a number keeps its remainder modulo 256 to the w. */
  lemma {:induction false} ValueOfLittleEndian(n: nat, w: nat)
    ensures Pow256(w) > 0 && ValueOfLittle(LittleEndian(n, w)) == n % Pow256(w)
  {
    if w > 0 {
      ValueOfLittleEndian(n / 256, w - 1);
      assert LittleEndian(n, w)[1..] == LittleEndian(n / 256, w - 1);
      RemainderSplits(n, Pow256(w - 1));
    }
  }

  const MAX_UINT32: nat := 0xffff_ffff

  lemma FourBytes()
    ensures Pow256(4) == MAX_UINT32 + 1
  {
    assert Pow256(2) == 0x1_0000;
  }

  /** A number cut down to 32 bits. */
  const Uint32: Codec<nat> :=
    Codec(n => LittleEndian(n, 4), b => if |b| < 4 then Fail else Parsed(ValueOfLittle(b[..4]), b[4..]), n => n <= MAX_UINT32)

  lemma Uint32IsCorrect()
    ensures Correct(Uint32)
  {
    hide LittleEndian, ValueOfLittle;
    FourBytes();
    forall n: nat, rest: seq<Byte> | n <= MAX_UINT32 ensures Uint32.dec(Uint32.enc(n) + rest) == Parsed(n, rest) {
      ValueOfLittleEndian(n, 4);
      var b := LittleEndian(n, 4) + rest;
      assert b[..4] == LittleEndian(n, 4) && b[4..] == rest;
    }
    forall b, more | Uint32.dec(b).Parsed? ensures Uint32.dec(b + more) == Parsed(Uint32.dec(b).value, Uint32.dec(b).rest + more) {
      assert (b + more)[..4] == b[..4] && (b + more)[4..] == b[4..] + more;
    }
    assert ReadsBack(Uint32);
    assert Stable(Uint32);
  }

  // ---------- pairs ----------

  function Both<A, B>(p: Parsed<A>, next: seq<Byte> -> Parsed<B>): Parsed<(A, B)> {
    match p
    case Fail => Fail
    case Parsed(a, rest) =>
      match next(rest)
      case Fail => Fail
      case Parsed(b, rest') => Parsed((a, b), rest')
  }

  function Pair<A, B>(a: Codec<A>, b: Codec<B>): Codec<(A, B)> {
    Codec((v: (A, B)) => a.enc(v.0) + b.enc(v.1),
          bytes => Both(a.dec(bytes), b.dec),
          (v: (A, B)) => a.fits(v.0) && b.fits(v.1))
  }

  lemma PairIsCorrect<A(!new), B(!new)>(a: Codec<A>, b: Codec<B>)
    requires Correct(a) && Correct(b)
    ensures Correct(Pair(a, b))
  {
    hide Correct;
    var c := Pair(a, b);
    forall v: (A, B), rest | c.fits(v) ensures c.dec(c.enc(v) + rest) == Parsed(v, rest) {
      PairReadsBack(a, b, v, rest);
    }
    forall bytes, more | c.dec(bytes).Parsed? ensures c.dec(bytes + more) == Parsed(c.dec(bytes).value, c.dec(bytes).rest + more) {
      StableAt(a, bytes, more);
      StableAt(b, a.dec(bytes).rest, more);
    }
    forall bytes | c.dec(bytes).Parsed? ensures c.fits(c.dec(bytes).value) {
      YieldsFittingAt(a, bytes);
      YieldsFittingAt(b, a.dec(bytes).rest);
    }
    Conclude(c);
  }

  lemma PairReadsBack<A(!new), B(!new)>(a: Codec<A>, b: Codec<B>, v: (A, B), rest: seq<Byte>)
    requires Correct(a) && Correct(b) && a.fits(v.0) && b.fits(v.1)
    ensures Pair(a, b).dec(Pair(a, b).enc(v) + rest) == Parsed(v, rest)
  {
    hide Correct;
    RoundTripIffFits(a, v.0, b.enc(v.1) + rest);
    RoundTripIffFits(b, v.1, rest);
    assert a.enc(v.0) + b.enc(v.1) + rest == a.enc(v.0) + (b.enc(v.1) + rest);
  }

  // ---------- the same bytes for another type ----------

  function Fmap<A, B>(p: Parsed<A>, f: A -> B): Parsed<B> {
    match p
    case Fail => Fail
    case Parsed(a, rest) => Parsed(f(a), rest)
  }

  /** Writes v as from(v); only the values satisfying holds are ever read. */
  function Mapped<A, B>(c: Codec<A>, to: A -> B, from: B -> A, holds: B -> bool): Codec<B> {
    Codec(v => c.enc(from(v)), b => Fmap(c.dec(b), to), v => holds(v) && c.fits(from(v)))
  }

  lemma MappedIsCorrect<A(!new), B(!new)>(c: Codec<A>, to: A -> B, from: B -> A, holds: B -> bool)
    requires Correct(c)
    requires forall a :: c.fits(a) ==> holds(to(a)) && from(to(a)) == a
    requires forall v :: holds(v) ==> to(from(v)) == v
    ensures Correct(Mapped(c, to, from, holds))
  {
    var m := Mapped(c, to, from, holds);
    assert ReadsBack(m);
    assert Stable(m);
    assert YieldsFitting(m);
  }

  // ---------- fields ----------

  /** A length, then that many bytes. */
  function DecodeField(b: seq<Byte>): Parsed<seq<Byte>> {
    match Uint32.dec(b)
    case Fail => Fail
    case Parsed(n, rest) => if |rest| < n then Fail else Parsed(rest[..n], rest[n..])
  }

  const Field: Codec<seq<Byte>> := Codec(s => Uint32.enc(|s|) + s, DecodeField, s => |s| <= MAX_UINT32)

  lemma FieldReadsBack(s: seq<Byte>, rest: seq<Byte>)
    requires |s| <= MAX_UINT32
    ensures DecodeField(Uint32.enc(|s|) + s + rest) == Parsed(s, rest)
  {
    hide Correct, Uint32;
    Uint32IsCorrect();
    Uint32Unfolds(|s|);
    RoundTripIffFits(Uint32, |s|, s + rest);
    assert Uint32.enc(|s|) + s + rest == Uint32.enc(|s|) + (s + rest);
    assert (s + rest)[..|s|] == s && (s + rest)[|s|..] == rest;
  }

  /** A longer text is cut: only its length modulo two to the 32 is written, and
      the bytes beyond are left in the stream for the next read. */
  lemma LongFieldIsCut(s: seq<Byte>, rest: seq<Byte>)
    ensures var n := |s| % (MAX_UINT32 + 1); Field.dec(Field.enc(s) + rest) == Parsed(s[..n], s[n..] + rest)
  {
    hide LittleEndian, ValueOfLittle;
    var n := |s| % (MAX_UINT32 + 1);
    FourBytes();
    ValueOfLittleEndian(|s|, 4);
    var header := LittleEndian(|s|, 4);
    var b := Field.enc(s) + rest;
    assert b[..4] == header && b[4..] == s + rest;
    assert (s + rest)[..n] == s[..n] && (s + rest)[n..] == s[n..] + rest;
  }

  lemma FieldIsStable(b: seq<Byte>, more: seq<Byte>)
    requires DecodeField(b).Parsed?
    ensures DecodeField(b + more) == Parsed(DecodeField(b).value, DecodeField(b).rest + more)
  {
    hide Correct, Uint32;
    Uint32IsCorrect();
    StableAt(Uint32, b, more);
    var n, rest := Uint32.dec(b).value, Uint32.dec(b).rest;
    assert (rest + more)[..n] == rest[..n] && (rest + more)[n..] == rest[n..] + more;
  }

  lemma FieldIsCorrect()
    ensures Correct(Field)
  {
    hide DecodeField;
    forall s: seq<Byte>, rest | Field.fits(s) ensures Field.dec(Field.enc(s) + rest) == Parsed(s, rest) {
      FieldReadsBack(s, rest);
    }
    forall b, more | Field.dec(b).Parsed? ensures Field.dec(b + more) == Parsed(Field.dec(b).value, Field.dec(b).rest + more) {
      FieldIsStable(b, more);
    }
    forall b | Field.dec(b).Parsed? ensures Field.fits(Field.dec(b).value) {
      FieldsAreShort(b);
    }
    assert ReadsBack(Field);
    assert Stable(Field);
    assert YieldsFitting(Field);
  }

  lemma FieldsAreShort(b: seq<Byte>)
    requires DecodeField(b).Parsed?
    ensures |DecodeField(b).value| <= MAX_UINT32
  {
    Uint32IsCorrect();
    assert YieldsFitting(Uint32);
  }

  // ---------- optional values ----------

  function DecodeNullable<T>(dec: seq<Byte> -> Parsed<T>, b: seq<Byte>): Parsed<Option<T>> {
    match Flag.dec(b)
    case Fail => Fail
    case Parsed(isNil, rest) => if isNil then Parsed(None, rest) else Fmap(dec(rest), v => Some(v))
  }

  /** A flag saying that there is no value, then the value if there is one. */
  function Nullable<T>(c: Codec<T>): Codec<Option<T>> {
    Codec((o: Option<T>) => if o.None? then Flag.enc(true) else Flag.enc(false) + c.enc(o.value),
          b => DecodeNullable(c.dec, b),
          (o: Option<T>) => o.Some? ==> c.fits(o.value))
  }

  lemma NullableIsCorrect<T(!new)>(c: Codec<T>)
    requires Correct(c)
    ensures Correct(Nullable(c))
  {
    hide Correct;
    var n := Nullable(c);
    forall o: Option<T>, rest | n.fits(o) ensures n.dec(n.enc(o) + rest) == Parsed(o, rest) {
      NullableReadsBack(c, o, rest);
    }
    forall b, more | n.dec(b).Parsed? ensures n.dec(b + more) == Parsed(n.dec(b).value, n.dec(b).rest + more) {
      NullableIsStable(c, b, more);
    }
    forall b | n.dec(b).Parsed? ensures n.fits(n.dec(b).value) {
      if n.dec(b).value.Some? {
        YieldsFittingAt(c, Flag.dec(b).rest);
      }
    }
    Conclude(n);
  }

  lemma NullableReadsBack<T(!new)>(c: Codec<T>, o: Option<T>, rest: seq<Byte>)
    requires Correct(c) && (o.Some? ==> c.fits(o.value))
    ensures Nullable(c).dec(Nullable(c).enc(o) + rest) == Parsed(o, rest)
  {
    hide Correct;
    FlagIsCorrect();
    if o.None? {
      RoundTripIffFits(Flag, true, rest);
    } else {
      RoundTripIffFits(Flag, false, c.enc(o.value) + rest);
      RoundTripIffFits(c, o.value, rest);
      assert Flag.enc(false) + c.enc(o.value) + rest == Flag.enc(false) + (c.enc(o.value) + rest);
    }
  }

  lemma NullableIsStable<T(!new)>(c: Codec<T>, b: seq<Byte>, more: seq<Byte>)
    requires Correct(c) && DecodeNullable(c.dec, b).Parsed?
    ensures DecodeNullable(c.dec, b + more) == Parsed(DecodeNullable(c.dec, b).value, DecodeNullable(c.dec, b).rest + more)
  {
    hide Correct;
    FlagIsCorrect();
    StableAt(Flag, b, more);
    if !Flag.dec(b).value {
      StableAt(c, Flag.dec(b).rest, more);
    }
  }

  // ---------- lists ----------

  function EncodeAll<T>(enc: T -> seq<Byte>, vs: seq<T>): seq<Byte> {
    if vs == [] then [] else enc(vs[0]) + EncodeAll(enc, vs[1..])
  }

  function DecodeAll<T>(dec: seq<Byte> -> Parsed<T>, n: nat, b: seq<Byte>): Parsed<seq<T>> {
    if n == 0 then Parsed([], b)
    else match dec(b)
      case Fail => Fail
      case Parsed(v, rest) =>
        match DecodeAll(dec, n - 1, rest)
        case Fail => Fail
        case Parsed(vs, rest') => Parsed([v] + vs, rest')
  }

  function DecodeList<T>(dec: seq<Byte> -> Parsed<T>, b: seq<Byte>): Parsed<seq<T>> {
    match Uint32.dec(b)
    case Fail => Fail
    case Parsed(n, rest) => DecodeAll(dec, n, rest)
  }

  predicate AllFit<T>(fits: T -> bool, vs: seq<T>) {
    forall i :: 0 <= i < |vs| ==> fits(vs[i])
  }

  /** A count, then the elements. */
  function ListOf<T>(c: Codec<T>): Codec<seq<T>> {
    Codec((vs: seq<T>) => Uint32.enc(|vs|) + EncodeAll(c.enc, vs),
          b => DecodeList(c.dec, b),
          (vs: seq<T>) => |vs| <= MAX_UINT32 && AllFit(c.fits, vs))
  }

  lemma {:induction false} AllReadsBack<T(!new)>(c: Codec<T>, vs: seq<T>, rest: seq<Byte>)
    requires ReadsBack(c) && AllFit(c.fits, vs)
    ensures DecodeAll(c.dec, |vs|, EncodeAll(c.enc, vs) + rest) == Parsed(vs, rest)
  {
    if vs == [] {
      assert [] + rest == rest;
    } else {
      AllReadsBack(c, vs[1..], rest);
      var tail := EncodeAll(c.enc, vs[1..]) + rest;
      assert EncodeAll(c.enc, vs) + rest == c.enc(vs[0]) + tail;
      assert c.dec(c.enc(vs[0]) + tail) == Parsed(vs[0], tail);
      assert [vs[0]] + vs[1..] == vs;
    }
  }

  lemma {:induction false} AllIsStable<T(!new)>(c: Codec<T>, n: nat, b: seq<Byte>, more: seq<Byte>)
    requires Stable(c) && DecodeAll(c.dec, n, b).Parsed?
    ensures DecodeAll(c.dec, n, b + more) == Parsed(DecodeAll(c.dec, n, b).value, DecodeAll(c.dec, n, b).rest + more)
  {
    if n > 0 {
      AllIsStable(c, n - 1, c.dec(b).rest, more);
    }
  }

  lemma {:induction false} AllYieldsFitting<T(!new)>(c: Codec<T>, n: nat, b: seq<Byte>)
    requires YieldsFitting(c) && DecodeAll(c.dec, n, b).Parsed?
    ensures |DecodeAll(c.dec, n, b).value| == n && AllFit(c.fits, DecodeAll(c.dec, n, b).value)
  {
    if n > 0 {
      AllYieldsFitting(c, n - 1, c.dec(b).rest);
    }
  }

  lemma ListReadsBack<T(!new)>(c: Codec<T>, vs: seq<T>, rest: seq<Byte>)
    requires ReadsBack(c) && AllFit(c.fits, vs) && |vs| <= MAX_UINT32
    ensures DecodeList(c.dec, Uint32.enc(|vs|) + EncodeAll(c.enc, vs) + rest) == Parsed(vs, rest)
  {
    hide Correct, Uint32, EncodeAll, DecodeAll;
    Uint32IsCorrect();
    Uint32Unfolds(|vs|);
    var tail := EncodeAll(c.enc, vs) + rest;
    RoundTripIffFits(Uint32, |vs|, tail);
    assert Uint32.enc(|vs|) + EncodeAll(c.enc, vs) + rest == Uint32.enc(|vs|) + tail;
    AllReadsBack(c, vs, rest);
  }

  lemma ListIsStable<T(!new)>(c: Codec<T>, b: seq<Byte>, more: seq<Byte>)
    requires Stable(c) && DecodeList(c.dec, b).Parsed?
    ensures DecodeList(c.dec, b + more) == Parsed(DecodeList(c.dec, b).value, DecodeList(c.dec, b).rest + more)
  {
    Uint32IsCorrect();
    assert Stable(Uint32);
    AllIsStable(c, Uint32.dec(b).value, Uint32.dec(b).rest, more);
  }

  lemma ListYieldsFitting<T(!new)>(c: Codec<T>, b: seq<Byte>)
    requires YieldsFitting(c) && DecodeList(c.dec, b).Parsed?
    ensures |DecodeList(c.dec, b).value| <= MAX_UINT32 && AllFit(c.fits, DecodeList(c.dec, b).value)
  {
    Uint32IsCorrect();
    assert YieldsFitting(Uint32);
    AllYieldsFitting(c, Uint32.dec(b).value, Uint32.dec(b).rest);
  }

  lemma ListIsCorrect<T(!new)>(c: Codec<T>)
    requires Correct(c)
    ensures Correct(ListOf(c))
  {
    hide DecodeList, EncodeAll, AllFit;
    var l := ListOf(c);
    forall vs: seq<T>, rest | l.fits(vs) ensures l.dec(l.enc(vs) + rest) == Parsed(vs, rest) {
      ListReadsBack(c, vs, rest);
    }
    forall b, more | l.dec(b).Parsed? ensures l.dec(b + more) == Parsed(l.dec(b).value, l.dec(b).rest + more) {
      ListIsStable(c, b, more);
    }
    forall b | l.dec(b).Parsed? ensures l.fits(l.dec(b).value) {
      ListYieldsFitting(c, b);
    }
    assert ReadsBack(l);
    assert Stable(l);
    assert YieldsFitting(l);
  }

  // ---------- fitting and sizes ----------

  lemma Uint32Unfolds(n: nat)
    ensures Uint32.fits(n) <==> n <= MAX_UINT32
    ensures |Uint32.enc(n)| == 4
  {
    assert Uint32.enc(n) == LittleEndian(n, 4);
  }

  /** The four bytes of a uint32. */
  lemma Uint32Layout(n: nat)
    requires n <= MAX_UINT32
    ensures Uint32.enc(n) == [n % 256, n / 256 % 256, n / 256 / 256 % 256, n / 256 / 256 / 256]
  {
    assert Uint32.enc(n) == LittleEndian(n, 4);
    var b, c, d := n / 256, n / 256 / 256, n / 256 / 256 / 256;
    assert LittleEndian(d, 1) == [d % 256] + [];
    assert LittleEndian(c, 2) == [c % 256] + LittleEndian(d, 1);
    assert LittleEndian(b, 3) == [b % 256] + LittleEndian(c, 2);
    assert LittleEndian(n, 4) == [n % 256] + LittleEndian(b, 3);
    assert d < 256;
  }

  lemma PairUnfolds<A, B>(a: Codec<A>, b: Codec<B>, v: (A, B))
    ensures Pair(a, b).fits(v) <==> a.fits(v.0) && b.fits(v.1)
    ensures Pair(a, b).enc(v) == a.enc(v.0) + b.enc(v.1)
  {
  }

  lemma MappedUnfolds<A, B>(c: Codec<A>, to: A -> B, from: B -> A, holds: B -> bool, v: B)
    ensures Mapped(c, to, from, holds).fits(v) <==> holds(v) && c.fits(from(v))
    ensures Mapped(c, to, from, holds).enc(v) == c.enc(from(v))
  {
  }

  lemma ListUnfolds<T>(c: Codec<T>, vs: seq<T>)
    ensures ListOf(c).fits(vs) <==> |vs| <= MAX_UINT32 && AllFit(c.fits, vs)
    ensures |ListOf(c).enc(vs)| == 4 + |EncodeAll(c.enc, vs)|
  {
    Uint32Unfolds(|vs|);
  }

  lemma NullableUnfolds<T>(c: Codec<T>, o: Option<T>)
    ensures Nullable(c).fits(o) <==> (o.Some? ==> c.fits(o.value))
    ensures |Nullable(c).enc(o)| == 1 + if o.Some? then |c.enc(o.value)| else 0
  {
  }

  lemma FieldUnfolds(s: seq<Byte>)
    ensures Field.fits(s) <==> |s| <= MAX_UINT32
    ensures |Field.enc(s)| == 4 + |s|
  {
    Uint32Unfolds(|s|);
  }

  lemma FlagUnfolds(f: bool)
    ensures Flag.fits(f) && |Flag.enc(f)| == 1
  {
  }

  function TotalSize<T>(size: T -> nat, vs: seq<T>): nat {
    if vs == [] then 0 else size(vs[0]) + TotalSize(size, vs[1..])
  }

  /** The elements of a list stand one after the other. */
  lemma {:induction false} AllLayout<T>(enc: T -> seq<Byte>, a: seq<T>, v: T, b: seq<T>)
    ensures EncodeAll(enc, a + [v] + b) == EncodeAll(enc, a) + enc(v) + EncodeAll(enc, b)
  {
    if a == [] {
      assert ([] + [v] + b)[1..] == b;
    } else {
      AllLayout(enc, a[1..], v, b);
      assert (a + [v] + b)[1..] == a[1..] + [v] + b;
    }
  }

  lemma {:induction false} SizeOfAll<T(!new)>(enc: T -> seq<Byte>, size: T -> nat, vs: seq<T>)
    requires forall v :: |enc(v)| == size(v)
    ensures |EncodeAll(enc, vs)| == TotalSize(size, vs)
  {
    if vs != [] {
      SizeOfAll(enc, size, vs[1..]);
    }
  }

  lemma {:induction false} SizeOfFixed<T(!new)>(enc: T -> seq<Byte>, k: nat, vs: seq<T>)
    requires forall v :: |enc(v)| == k
    ensures |EncodeAll(enc, vs)| == k * |vs|
  {
    if vs != [] {
      SizeOfFixed(enc, k, vs[1..]);
    }
  }
}
