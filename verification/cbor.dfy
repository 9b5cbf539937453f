/** The CBOR value model and codec of `Cbor` (RFC 8949, "Concise Binary Object
    Representation"): a tagged value type, its equality and ordering, the
    initial-byte layout (major type and additional information) and the
    encoder/decoder pair for whole data items. */
module Cbor {
  import opened Wrappers
  import opened BoundedInts
  import opened Lexicographic

  /** The values an `int64_t` can hold that are below zero: the C++ value type
      stores every non-negative `int64_t` as an unsigned integer instead. */
  type NegativeInt64 = x: int | INT64_MIN <= x < 0 witness -1

  /** Simple values of `CborSimpleValue` used by the codec. */
  const SIMPLE_FALSE: uint8 := 20
  const SIMPLE_TRUE: uint8 := 21
  const SIMPLE_UNDEFINED: uint8 := 23

  /** One alternative per member of the C++ `std::variant`; maps keep their
      entries in the order `std::map` iterates them. */
  datatype CborValue =
    | Unsigned(u: uint64)
    | Negative(n: NegativeInt64)
    | Bytes(bytes: seq<uint8>)
    | Text(text: string)
    | Array(items: seq<CborValue>)
    | Map(entries: seq<Entry>)
    | Tag(tag: uint64, inner: CborValue)
    | Simple(simple: uint8)
    | Invalid

  /** One key/value pair of a CBOR map. */
  datatype Entry = Entry(key: CborValue, value: CborValue)

  /** Position of the value's kind in the `CborType` enumeration, which
      `GetType` reports and `operator<` compares first. */
  function TypeRank(v: CborValue): (r: nat)
    ensures r < 9
  {
    match v
    case Unsigned(_) => 0
    case Negative(_) => 1
    case Bytes(_) => 2
    case Text(_) => 3
    case Array(_) => 4
    case Map(_) => 5
    case Tag(_, _) => 6
    case Simple(_) => 7
    case Invalid => 8
  }

  /** Each alternative has its own `CborType` code: the code names the kind. */
  lemma TypeRankCodes(v: CborValue)
    ensures TypeRank(v) == 0 <==> v.Unsigned?
    ensures TypeRank(v) == 1 <==> v.Negative?
    ensures TypeRank(v) == 2 <==> v.Bytes?
    ensures TypeRank(v) == 3 <==> v.Text?
    ensures TypeRank(v) == 4 <==> v.Array?
    ensures TypeRank(v) == 5 <==> v.Map?
    ensures TypeRank(v) == 6 <==> v.Tag?
    ensures TypeRank(v) == 7 <==> v.Simple?
    ensures TypeRank(v) == 8 <==> v.Invalid?
  {
  }

  // Construction and typed access

  /** The `int64_t` constructor: non-negative values become unsigned integers. */
  function FromInt64(x: int): (r: CborValue)
    requires INT64_MIN <= x <= INT64_MAX
    ensures r.Unsigned? <==> x >= 0
    ensures r.Negative? <==> x < 0
    ensures GetInteger(r) == x
  {
    if x >= 0 then Unsigned(x) else Negative(x)
  }

  function GetUnsignedInteger(v: CborValue): uint64 {
    if v.Unsigned? then v.u else 0
  }

  function GetNegativeInteger(v: CborValue): int {
    if v.Negative? then v.n else 0
  }

  /** The value as an `int64_t`; unsigned values beyond `INT64_MAX` and
      non-integers read as zero. */
  function GetInteger(v: CborValue): (r: int)
    ensures INT64_MIN <= r <= INT64_MAX
    ensures v.Unsigned? && v.u <= INT64_MAX ==> r == v.u
    ensures v.Negative? ==> r == v.n
    ensures !(v.Unsigned? && v.u <= INT64_MAX) && !v.Negative? ==> r == 0
  {
    match v
    case Unsigned(x) => if x <= INT64_MAX then x else 0
    case Negative(x) => x
    case _ => 0
  }

  function GetByteString(v: CborValue): seq<uint8> {
    if v.Bytes? then v.bytes else []
  }

  function GetTextString(v: CborValue): string {
    if v.Text? then v.text else ""
  }

  function GetArray(v: CborValue): seq<CborValue> {
    if v.Array? then v.items else []
  }

  function GetSimple(v: CborValue): uint8 {
    if v.Simple? then v.simple else SIMPLE_UNDEFINED
  }

  /** True only for the simple value `true`; every other value reads as false. */
  function GetBoolean(v: CborValue): (r: bool)
    ensures r <==> v == Simple(SIMPLE_TRUE)
  {
    v.Simple? && (v.simple == SIMPLE_TRUE || v.simple == SIMPLE_FALSE) && v.simple == SIMPLE_TRUE
  }

  // Equality and ordering (operator== and operator<)

  /** `operator==`: same kind, then equal payloads, containers element-wise. */
  predicate Equal(a: CborValue, b: CborValue)
    decreases a
  {
    TypeRank(a) == TypeRank(b) &&
    match a
    case Unsigned(x) => x == b.u
    case Negative(x) => x == b.n
    case Bytes(x) => x == b.bytes
    case Text(x) => x == b.text
    case Array(xs) => |xs| == |b.items| && ItemsEqual(xs, b.items)
    case Map(ps) => |ps| == |b.entries| && EntriesEqual(ps, b.entries)
    case Tag(t, w) => t == b.tag && Equal(w, b.inner)
    case Simple(x) => x == b.simple
    case Invalid => true
  }

  predicate ItemsEqual(xs: seq<CborValue>, ys: seq<CborValue>)
    requires |xs| == |ys|
    decreases xs
  {
    |xs| == 0 || (Equal(xs[0], ys[0]) && ItemsEqual(xs[1..], ys[1..]))
  }

  predicate EntriesEqual(ps: seq<Entry>, qs: seq<Entry>)
    requires |ps| == |qs|
    decreases ps
  {
    |ps| == 0 || (EntryEqual(ps[0], qs[0]) && EntriesEqual(ps[1..], qs[1..]))
  }

  predicate EntryEqual(p: Entry, q: Entry)
    decreases p
  {
    Equal(p.key, q.key) && Equal(p.value, q.value)
  }

  /** `operator==` holds exactly for identical values. */
  lemma {:induction false} EqualIsIdentity(a: CborValue, b: CborValue)
    ensures Equal(a, b) <==> a == b
    decreases a
  {
    match a
    case Array(xs) =>
      if b.Array? && |xs| == |b.items| {
        ItemsEqualIsIdentity(xs, b.items);
      }
    case Map(ps) =>
      if b.Map? && |ps| == |b.entries| {
        EntriesEqualIsIdentity(ps, b.entries);
      }
    case Tag(t, w) =>
      if b.Tag? {
        EqualIsIdentity(w, b.inner);
      }
    case _ =>
  }

  lemma {:induction false} ItemsEqualIsIdentity(xs: seq<CborValue>, ys: seq<CborValue>)
    requires |xs| == |ys|
    ensures ItemsEqual(xs, ys) <==> xs == ys
    decreases xs
  {
    if |xs| > 0 {
      EqualIsIdentity(xs[0], ys[0]);
      ItemsEqualIsIdentity(xs[1..], ys[1..]);
      if xs[0] == ys[0] && xs[1..] == ys[1..] {
        assert xs == [xs[0]] + xs[1..] && ys == [ys[0]] + ys[1..];
      }
    }
  }

  lemma {:induction false} EntriesEqualIsIdentity(ps: seq<Entry>, qs: seq<Entry>)
    requires |ps| == |qs|
    ensures EntriesEqual(ps, qs) <==> ps == qs
    decreases ps
  {
    if |ps| > 0 {
      EntryEqualIsIdentity(ps[0], qs[0]);
      EntriesEqualIsIdentity(ps[1..], qs[1..]);
      if ps[0] == qs[0] && ps[1..] == qs[1..] {
        assert ps == [ps[0]] + ps[1..] && qs == [qs[0]] + qs[1..];
      }
    }
  }

  lemma {:induction false} EntryEqualIsIdentity(p: Entry, q: Entry)
    ensures EntryEqual(p, q) <==> p == q
    decreases p
  {
    EqualIsIdentity(p.key, q.key);
    EqualIsIdentity(p.value, q.value);
  }

  /** A measure that strictly decreases from a container to any of its parts. */
  function Size(v: CborValue): (r: nat)
    ensures r >= 1
    decreases v
  {
    match v
    case Array(xs) => 1 + ItemsSize(xs)
    case Map(ps) => 1 + EntriesSize(ps)
    case Tag(_, w) => 1 + Size(w)
    case _ => 1
  }

  function ItemsSize(xs: seq<CborValue>): nat
    decreases xs
  {
    if |xs| == 0 then 0 else 1 + Size(xs[0]) + ItemsSize(xs[1..])
  }

  function EntriesSize(ps: seq<Entry>): nat
    decreases ps
  {
    if |ps| == 0 then 0 else 1 + EntrySize(ps[0]) + EntriesSize(ps[1..])
  }

  function EntrySize(p: Entry): nat
    decreases p
  {
    Size(p.key) + Size(p.value)
  }

  /** `operator<`: kinds ordered by their rank in `CborType`, then payloads;
      containers lexicographically, tags by number and then by content. */
  predicate Less(a: CborValue, b: CborValue)
    decreases Size(a) + Size(b), 1
  {
    if TypeRank(a) != TypeRank(b) then TypeRank(a) < TypeRank(b)
    else match a
      case Unsigned(x) => x < b.u
      case Negative(x) => x < b.n
      case Bytes(x) => LexLess(x, b.bytes, ByteLess)
      case Text(x) => StringLess(x, b.text)
      case Array(xs) => ItemsLess(xs, b.items)
      case Map(ps) => EntriesLess(ps, b.entries)
      case Tag(t, w) => if t != b.tag then t < b.tag else Less(w, b.inner)
      case Simple(x) => x < b.simple
      case Invalid => false
  }

  predicate ItemsLess(xs: seq<CborValue>, ys: seq<CborValue>)
    decreases ItemsSize(xs) + ItemsSize(ys), 0
  {
    if |ys| == 0 then false
    else if |xs| == 0 then true
    else if Less(xs[0], ys[0]) then true
    else if Less(ys[0], xs[0]) then false
    else ItemsLess(xs[1..], ys[1..])
  }

  /** `operator<` of `std::pair`, as `std::map` comparison applies it to entries. */
  predicate EntryLess(p: Entry, q: Entry)
    decreases EntrySize(p) + EntrySize(q), 1
  {
    Less(p.key, q.key) || (!Less(q.key, p.key) && Less(p.value, q.value))
  }

  predicate EntriesLess(ps: seq<Entry>, qs: seq<Entry>)
    decreases EntriesSize(ps) + EntriesSize(qs), 0
  {
    if |qs| == 0 then false
    else if |ps| == 0 then true
    else if EntryLess(ps[0], qs[0]) then true
    else if EntryLess(qs[0], ps[0]) then false
    else EntriesLess(ps[1..], qs[1..])
  }

  // operator< is a strict total order, so CBOR values can key a std::map

  lemma ByteLessIsStrictTotalOrder()
    ensures StrictTotalOrder(ByteLess)
  {
  }

  lemma {:induction false} LessIrreflexive(a: CborValue)
    ensures !Less(a, a)
    decreases Size(a), 1
  {
    match a
    case Bytes(x) =>
      ByteLessIsStrictTotalOrder();
      LexIrreflexive(x, ByteLess);
    case Text(x) =>
      StringLessIsStrictTotalOrder();
    case Array(xs) =>
      ItemsLessIrreflexive(xs);
    case Map(ps) =>
      EntriesLessIrreflexive(ps);
    case Tag(_, w) =>
      LessIrreflexive(w);
    case _ =>
  }

  lemma {:induction false} ItemsLessIrreflexive(xs: seq<CborValue>)
    ensures !ItemsLess(xs, xs)
    decreases ItemsSize(xs), 0
  {
    if |xs| > 0 {
      LessIrreflexive(xs[0]);
      ItemsLessIrreflexive(xs[1..]);
    }
  }

  lemma {:induction false} EntryLessIrreflexive(p: Entry)
    ensures !EntryLess(p, p)
    decreases EntrySize(p), 1
  {
    LessIrreflexive(p.key);
    LessIrreflexive(p.value);
  }

  lemma {:induction false} EntriesLessIrreflexive(ps: seq<Entry>)
    ensures !EntriesLess(ps, ps)
    decreases EntriesSize(ps), 0
  {
    if |ps| > 0 {
      EntryLessIrreflexive(ps[0]);
      EntriesLessIrreflexive(ps[1..]);
    }
  }

  lemma {:induction false} LessTotal(a: CborValue, b: CborValue)
    ensures Less(a, b) || a == b || Less(b, a)
    decreases Size(a) + Size(b), 1
  {
    if TypeRank(a) == TypeRank(b) {
      match a
      case Bytes(x) =>
        ByteLessIsStrictTotalOrder();
        LexTotal(x, b.bytes, ByteLess);
      case Text(x) =>
        StringLessIsStrictTotalOrder();
      case Array(xs) =>
        ItemsLessTotal(xs, b.items);
      case Map(ps) =>
        EntriesLessTotal(ps, b.entries);
      case Tag(t, w) =>
        if t == b.tag {
          LessTotal(w, b.inner);
        }
      case _ =>
    }
  }

  lemma {:induction false} ItemsLessTotal(xs: seq<CborValue>, ys: seq<CborValue>)
    ensures ItemsLess(xs, ys) || xs == ys || ItemsLess(ys, xs)
    decreases ItemsSize(xs) + ItemsSize(ys), 0
  {
    if |xs| > 0 && |ys| > 0 {
      LessTotal(xs[0], ys[0]);
      if xs[0] == ys[0] {
        LessIrreflexive(xs[0]);
        ItemsLessTotal(xs[1..], ys[1..]);
        if xs[1..] == ys[1..] {
          assert xs == [xs[0]] + xs[1..] && ys == [ys[0]] + ys[1..];
        }
      }
    }
  }

  lemma {:induction false} EntryLessTotal(p: Entry, q: Entry)
    ensures EntryLess(p, q) || p == q || EntryLess(q, p)
    decreases EntrySize(p) + EntrySize(q), 1
  {
    LessTotal(p.key, q.key);
    LessTotal(p.value, q.value);
    if p.key == q.key {
      LessIrreflexive(p.key);
    }
  }

  lemma {:induction false} EntriesLessTotal(ps: seq<Entry>, qs: seq<Entry>)
    ensures EntriesLess(ps, qs) || ps == qs || EntriesLess(qs, ps)
    decreases EntriesSize(ps) + EntriesSize(qs), 0
  {
    if |ps| > 0 && |qs| > 0 {
      EntryLessTotal(ps[0], qs[0]);
      if ps[0] == qs[0] {
        EntryLessIrreflexive(ps[0]);
        EntriesLessTotal(ps[1..], qs[1..]);
        if ps[1..] == qs[1..] {
          assert ps == [ps[0]] + ps[1..] && qs == [qs[0]] + qs[1..];
        }
      }
    }
  }

  lemma {:induction false} LessTransitive(a: CborValue, b: CborValue, c: CborValue)
    requires Less(a, b) && Less(b, c)
    ensures Less(a, c)
    decreases Size(a) + Size(b) + Size(c), 1
  {
    if TypeRank(a) == TypeRank(b) == TypeRank(c) {
      match a
      case Bytes(x) =>
        ByteLessIsStrictTotalOrder();
        LexTransitive(x, b.bytes, c.bytes, ByteLess);
      case Text(x) =>
        StringLessIsStrictTotalOrder();
      case Array(xs) =>
        ItemsLessTransitive(xs, b.items, c.items);
      case Map(ps) =>
        EntriesLessTransitive(ps, b.entries, c.entries);
      case Tag(t, w) =>
        if t == b.tag == c.tag {
          LessTransitive(w, b.inner, c.inner);
        }
      case _ =>
    }
  }

  lemma {:induction false} ItemsLessTransitive(xs: seq<CborValue>, ys: seq<CborValue>, zs: seq<CborValue>)
    requires ItemsLess(xs, ys) && ItemsLess(ys, zs)
    ensures ItemsLess(xs, zs)
    decreases ItemsSize(xs) + ItemsSize(ys) + ItemsSize(zs), 0
  {
    if |xs| > 0 {
      LessTotal(xs[0], ys[0]);
      LessTotal(ys[0], zs[0]);
      if Less(xs[0], ys[0]) && Less(ys[0], zs[0]) {
        LessTransitive(xs[0], ys[0], zs[0]);
      } else if xs[0] == ys[0] == zs[0] {
        LessIrreflexive(xs[0]);
        ItemsLessTransitive(xs[1..], ys[1..], zs[1..]);
      }
    }
  }

  lemma {:induction false} EntryLessTransitive(p: Entry, q: Entry, r: Entry)
    requires EntryLess(p, q) && EntryLess(q, r)
    ensures EntryLess(p, r)
    decreases EntrySize(p) + EntrySize(q) + EntrySize(r), 1
  {
    LessTotal(p.key, q.key);
    LessTotal(q.key, r.key);
    if Less(p.key, q.key) && Less(q.key, r.key) {
      LessTransitive(p.key, q.key, r.key);
    } else if p.key == q.key == r.key {
      LessIrreflexive(p.key);
      LessTransitive(p.value, q.value, r.value);
    } else if p.key == q.key {
      LessIrreflexive(p.key);
    } else {
      LessIrreflexive(q.key);
    }
    LessTotal(p.key, r.key);
    if Less(r.key, p.key) {
      if Less(p.key, q.key) {
        LessTransitive(r.key, p.key, q.key);
        LessIrreflexive(r.key);
        LessTotal(q.key, r.key);
      }
    }
  }

  lemma {:induction false} EntriesLessTransitive(ps: seq<Entry>, qs: seq<Entry>, rs: seq<Entry>)
    requires EntriesLess(ps, qs) && EntriesLess(qs, rs)
    ensures EntriesLess(ps, rs)
    decreases EntriesSize(ps) + EntriesSize(qs) + EntriesSize(rs), 0
  {
    if |ps| > 0 {
      EntryLessTotal(ps[0], qs[0]);
      EntryLessTotal(qs[0], rs[0]);
      if EntryLess(ps[0], qs[0]) && EntryLess(qs[0], rs[0]) {
        EntryLessTransitive(ps[0], qs[0], rs[0]);
      } else if ps[0] == qs[0] == rs[0] {
        EntryLessIrreflexive(ps[0]);
        EntriesLessTransitive(ps[1..], qs[1..], rs[1..]);
      }
    }
  }

  /** `operator<` is irreflexive, transitive and total on distinct values. */
  lemma LessIsStrictTotalOrder()
    ensures forall a :: !Less(a, a)
    ensures forall a, b, c :: Less(a, b) && Less(b, c) ==> Less(a, c)
    ensures forall a, b :: Less(a, b) || a == b || Less(b, a)
  {
    forall a {
      LessIrreflexive(a);
    }
    forall a, b, c | Less(a, b) && Less(b, c) {
      LessTransitive(a, b, c);
    }
    forall a, b {
      LessTotal(a, b);
    }
  }

  // Initial byte and argument (EncodeHeader, DecodeHeader, EncodeUnsigned,
  // DecodeUnsigned)

  /** Major type in the top three bits, additional information in the low five
      (`(major << 5) | (info & 0x1F)`); the `uint8_t` result keeps only the low
      three bits of the major type. Within a byte, these shifts and masks are
      the multiplications, divisions and remainders by 32 written here. */
  function EncodeHeader(major: uint8, info: uint8): uint8 {
    (major % 8) * 32 + info % 32
  }

  /** Splits an initial byte into (major type, additional information):
      `(h >> 5) & 7` and `h & 0x1F`. */
  function DecodeHeader(h: uint8): (uint8, uint8) {
    (h / 32, h % 32)
  }

  lemma HeaderRoundTrip(major: uint8, info: uint8)
    requires major < 8 && info < 32
    ensures DecodeHeader(EncodeHeader(major, info)) == (major, info)
  {
    assert major % 8 == major && info % 32 == info;
    var h := major * 32 + info;
    assert h / 32 == major && h % 32 == info;
  }

  function MajorOf(h: uint8): uint8 { DecodeHeader(h).0 }

  function InfoOf(h: uint8): uint8 { DecodeHeader(h).1 }

  /** Number of bytes (initial byte included) an argument with this additional
      information occupies; 0 for the reserved values 28..31. */
  function ArgumentLength(info: uint8): nat {
    if info <= 23 then 1
    else if info == 24 then 2
    else if info == 25 then 3
    else if info == 26 then 5
    else if info == 27 then 9
    else 0
  }

  /** The head of a data item: the argument inline when it is at most 23,
      otherwise in the shortest of 1, 2, 4 or 8 following big-endian bytes. */
  function EncodeUnsigned(major: uint8, value: uint64): (r: seq<uint8>)
    requires major < 8
    ensures |r| >= 1 && MajorOf(r[0]) == major
    ensures |r| == ArgumentLength(InfoOf(r[0]))
  {
    if value <= 23 then [EncodeHeader(major, value)]
    else if value <= 0xFF then [EncodeHeader(major, 24), value]
    else if value <= 0xFFFF then [EncodeHeader(major, 25)] + ToBigEndian(value, 2)
    else if value <= 0xFFFF_FFFF then [EncodeHeader(major, 26)] + ToBigEndian(value, 4)
    else [EncodeHeader(major, 27)] + ToBigEndian(value, 8)
  }

  /** Reads the head at the start of `buf`: the argument and the number of
      bytes read. Fails on an empty buffer, on a different major type, on a
      buffer too short for the argument and on additional information 28..31. */
  function DecodeUnsigned(buf: seq<uint8>, major: uint8): (r: Option<(uint64, nat)>)
    ensures r.Some? <==>
      |buf| >= 1 && MajorOf(buf[0]) == major && InfoOf(buf[0]) <= 27 && |buf| >= ArgumentLength(InfoOf(buf[0]))
    ensures r.Some? ==> r.value.1 == ArgumentLength(InfoOf(buf[0]))
    ensures r.Some? && InfoOf(buf[0]) <= 23 ==> r.value.0 == InfoOf(buf[0])
  {
    if |buf| < 1 then None
    else
      var (readMajor, info) := DecodeHeader(buf[0]);
      if readMajor != major then None
      else if info <= 23 then Some((info as uint64, 1))
      else if info == 24 then (if |buf| < 2 then None else Some((buf[1] as uint64, 2)))
      else if info == 25 then (if |buf| < 3 then None else Some((FromBigEndian(buf[1..3]), 3)))
      else if info == 26 then (if |buf| < 5 then None else Some((FromBigEndian(buf[1..5]), 5)))
      else if info == 27 then
        (if |buf| < 9 then None else assert Pow256(8) == TWO_TO_THE_64; Some((FromBigEndian(buf[1..9]), 9)))
      else None
  }

  /** Decoding a head recovers its argument, whatever bytes follow it. */
  lemma UnsignedRoundTrip(major: uint8, value: uint64, rest: seq<uint8>)
    requires major < 8
    ensures DecodeUnsigned(EncodeUnsigned(major, value) + rest, major)
            == Some((value, |EncodeUnsigned(major, value)|))
  {
    if value <= 23 {
      InlineRoundTrip(major, value, rest);
    } else if value <= 0xFF {
      OneByteRoundTrip(major, value, rest);
    } else if value <= 0xFFFF {
      WideRoundTrip(major, 25, 2, value, rest);
    } else if value <= 0xFFFF_FFFF {
      WideRoundTrip(major, 26, 4, value, rest);
    } else {
      WideRoundTrip(major, 27, 8, value, rest);
    }
  }

  lemma InlineRoundTrip(major: uint8, value: uint64, rest: seq<uint8>)
    requires major < 8 && value <= 23
    ensures DecodeUnsigned([EncodeHeader(major, value)] + rest, major) == Some((value, 1))
  {
    HeaderRoundTrip(major, value);
  }

  lemma OneByteRoundTrip(major: uint8, value: uint64, rest: seq<uint8>)
    requires major < 8 && 23 < value <= 0xFF
    ensures DecodeUnsigned([EncodeHeader(major, 24), value] + rest, major) == Some((value, 2))
  {
    HeaderRoundTrip(major, 24);
  }

  /** An argument in `n` following bytes, announced by additional
      information `info`. */
  lemma WideRoundTrip(major: uint8, info: uint8, n: nat, value: uint64, rest: seq<uint8>)
    requires major < 8
    requires (info == 25 && n == 2) || (info == 26 && n == 4) || (info == 27 && n == 8)
    requires value < Pow256(n)
    ensures DecodeUnsigned([EncodeHeader(major, info)] + ToBigEndian(value, n) + rest, major) == Some((value, n + 1))
  {
    var buf := [EncodeHeader(major, info)] + ToBigEndian(value, n) + rest;
    HeaderRoundTrip(major, info);
    assert buf[1..n + 1] == ToBigEndian(value, n);
    BigEndianRoundTrip(value, n);
  }

  // Whole data items

  /** A `size()` as the `uint64_t` the head carries. Container sizes are
      `size_t` values, so for every real value this is the identity. */
  function Length64(n: nat): uint64 {
    n % TWO_TO_THE_64
  }

  /** A `std::string` holds bytes: each modelled character stands for one byte. */
  function TextToBytes(s: string): (r: seq<uint8>)
    ensures |r| == |s|
  {
    seq(|s|, i requires 0 <= i < |s| => (s[i] as int % 256) as uint8)
  }

  function BytesToText(b: seq<uint8>): (r: string)
    ensures |r| == |b|
  {
    seq(|b|, i requires 0 <= i < |b| => b[i] as char)
  }

  /** Every character stands for a single byte, as in a C++ `std::string`. */
  predicate IsByteString(s: string) {
    forall i :: 0 <= i < |s| ==> s[i] as int < 256
  }

  /** Values a C++ `CborValue` can denote and the encoder can represent: no
      invalid parts, byte-sized characters, sizes that fit a `uint64_t`. */
  predicate WellFormed(v: CborValue)
    decreases v
  {
    match v
    case Bytes(b) => |b| < TWO_TO_THE_64
    case Text(s) => |s| < TWO_TO_THE_64 && IsByteString(s)
    case Array(xs) => |xs| < TWO_TO_THE_64 && forall i :: 0 <= i < |xs| ==> WellFormed(xs[i])
    case Map(ps) => |ps| < TWO_TO_THE_64 && forall i :: 0 <= i < |ps| ==> EntryWellFormed(ps[i])
    case Tag(_, w) => WellFormed(w)
    case Invalid => false
    case _ => true
  }

  predicate EntryWellFormed(p: Entry)
    decreases p
  {
    WellFormed(p.key) && WellFormed(p.value)
  }

  /** The encoding of a data item: its head followed by its content, with the
      elements of arrays, maps and tags encoded in order after the head
      (section 3 of RFC 8949). */
  function Encode(v: CborValue): (r: seq<uint8>)
    decreases v
  {
    match v
    case Unsigned(x) => EncodeUnsigned(0, x)
    case Negative(x) => EncodeUnsigned(1, -1 - x)
    case Bytes(b) => EncodeUnsigned(2, Length64(|b|)) + b
    case Text(t) => EncodeUnsigned(3, Length64(|t|)) + TextToBytes(t)
    case Array(xs) => EncodeUnsigned(4, Length64(|xs|)) + EncodeItems(xs)
    case Map(ps) => EncodeUnsigned(5, Length64(|ps|)) + EncodeEntries(ps)
    case Tag(t, w) => EncodeUnsigned(6, t) + Encode(w)
    case Simple(x) => EncodeSimple(x)
    case Invalid => []
  }

  function EncodeSimple(x: uint8): seq<uint8> {
    if x <= 23 then [EncodeHeader(7, x)] else [EncodeHeader(7, 24), x]
  }

  function EncodeItems(xs: seq<CborValue>): seq<uint8>
    decreases xs
  {
    if |xs| == 0 then [] else Encode(xs[0]) + EncodeItems(xs[1..])
  }

  function EncodeEntries(ps: seq<Entry>): seq<uint8>
    decreases ps
  {
    if |ps| == 0 then [] else EncodeEntry(ps[0]) + EncodeEntries(ps[1..])
  }

  function EncodeEntry(p: Entry): seq<uint8>
    decreases p
  {
    Encode(p.key) + Encode(p.value)
  }

  /** Decodes the data item at the start of `buf`, returning it with the number
      of bytes it occupies; trailing bytes are left unread. */
  function DecodeItem(buf: seq<uint8>): (r: Option<(CborValue, nat)>)
    ensures r.Some? ==> 0 < r.value.1 <= |buf|
    decreases |buf|, 2
  {
    if |buf| == 0 then None
    else if MajorOf(buf[0]) == 7 then DecodeSimple(buf)
    else match DecodeUnsigned(buf, MajorOf(buf[0]))
      case None => None
      case Some((arg, hl)) => DecodeContent(buf, MajorOf(buf[0]), arg, hl)
  }

  /** The content that follows a head of major type 0..6 with argument `arg`
      and length `hl`. Negative integers below -2^63 do not fit the value type
      and are rejected. */
  function DecodeContent(buf: seq<uint8>, major: uint8, arg: uint64, hl: nat): (r: Option<(CborValue, nat)>)
    requires 1 <= hl <= |buf| && major < 7
    ensures r.Some? ==> 0 < r.value.1 <= |buf|
    decreases |buf|, 0
  {
    if major == 0 then Some((Unsigned(arg), hl))
    else if major == 1 then
      (if arg <= INT64_MAX then Some((Negative(-1 - arg), hl)) else None)
    else if major == 2 then
      (if hl + arg <= |buf| then Some((Bytes(buf[hl..hl + arg]), hl + arg)) else None)
    else if major == 3 then
      (if hl + arg <= |buf| then Some((Text(BytesToText(buf[hl..hl + arg])), hl + arg)) else None)
    else if major == 4 then
      (match DecodeItems(buf[hl..], arg)
       case None => None
       case Some((xs, n)) => Some((Array(xs), hl + n)))
    else if major == 5 then
      (match DecodeEntries(buf[hl..], arg)
       case None => None
       case Some((ps, n)) => Some((Map(ps), hl + n)))
    else
      (match DecodeItem(buf[hl..])
       case None => None
       case Some((w, n)) => Some((Tag(arg, w), hl + n)))
  }

  /** Major type 7: simple values inline or in one following byte; the
      floating-point and break encodings are not decoded. */
  function DecodeSimple(buf: seq<uint8>): (r: Option<(CborValue, nat)>)
    requires |buf| > 0
    ensures r.Some? ==> 0 < r.value.1 <= |buf|
  {
    var info := InfoOf(buf[0]);
    if info <= 23 then Some((Simple(info), 1))
    else if info == 24 && |buf| >= 2 then Some((Simple(buf[1]), 2))
    else None
  }

  function DecodeItems(buf: seq<uint8>, count: nat): (r: Option<(seq<CborValue>, nat)>)
    ensures r.Some? ==> |r.value.0| == count && r.value.1 <= |buf|
    decreases |buf|, count + 2
  {
    if count == 0 then Some(([], 0))
    else match DecodeItem(buf)
      case None => None
      case Some((x, n)) =>
        match DecodeItems(buf[n..], count - 1)
        case None => None
        case Some((xs, m)) => Some(([x] + xs, n + m))
  }

  /** A key item followed by a value item. */
  function DecodeEntry(buf: seq<uint8>): (r: Option<(Entry, nat)>)
    ensures r.Some? ==> 0 < r.value.1 <= |buf|
    decreases |buf|, 3
  {
    match DecodeItem(buf)
    case None => None
    case Some((k, n)) =>
      match DecodeItem(buf[n..])
      case None => None
      case Some((v, m)) => Some((Entry(k, v), n + m))
  }

  function DecodeEntries(buf: seq<uint8>, count: nat): (r: Option<(seq<Entry>, nat)>)
    ensures r.Some? ==> |r.value.0| == count && r.value.1 <= |buf|
    decreases |buf|, count + 3
  {
    if count == 0 then Some(([], 0))
    else match DecodeEntry(buf)
      case None => None
      case Some((p, n)) =>
        match DecodeEntries(buf[n..], count - 1)
        case None => None
        case Some((ps, m)) => Some(([p] + ps, n + m))
  }

  /** `Decode`: the first data item of the buffer, if there is a valid one. */
  function Decode(buf: seq<uint8>): Option<CborValue> {
    match DecodeItem(buf)
    case None => None
    case Some((v, _)) => Some(v)
  }

  // Round trip

  lemma TextRoundTrip(t: string)
    requires IsByteString(t)
    ensures BytesToText(TextToBytes(t)) == t
  {
    assert forall i :: 0 <= i < |t| ==> BytesToText(TextToBytes(t))[i] == t[i];
  }

  /** A buffer that starts with a head of major type 0..6 decodes as the
      content after that head. */
  lemma DecodeAfterHead(major: uint8, arg: uint64, body: seq<uint8>)
    requires major < 7
    ensures DecodeItem(EncodeUnsigned(major, arg) + body)
            == DecodeContent(EncodeUnsigned(major, arg) + body, major, arg, |EncodeUnsigned(major, arg)|)
    ensures (EncodeUnsigned(major, arg) + body)[|EncodeUnsigned(major, arg)|..] == body
  {
    UnsignedRoundTrip(major, arg, body);
    var buf := EncodeUnsigned(major, arg) + body;
    assert MajorOf(buf[0]) == major;
  }

  /** Decoding the encoding of a well-formed value gives the value back and
      consumes exactly its encoding, whatever follows it. */
  lemma {:induction false} DecodeEncode(v: CborValue, rest: seq<uint8>)
    requires WellFormed(v)
    ensures DecodeItem(Encode(v) + rest) == Some((v, |Encode(v)|))
    decreases v, 2
  {
    match v
    case Unsigned(x) =>
      DecodeAfterHead(0, x, rest);
    case Negative(x) =>
      DecodeAfterHead(1, -1 - x, rest);
    case Bytes(b) =>
      DecodeEncodeBytes(b, rest);
    case Text(t) =>
      DecodeEncodeText(t, rest);
    case Array(xs) =>
      DecodeEncodeArray(xs, rest);
    case Map(ps) =>
      DecodeEncodeMap(ps, rest);
    case Tag(t, w) =>
      DecodeEncodeTag(t, w, rest);
    case Simple(x) =>
      DecodeEncodeSimple(x, rest);
  }

  lemma DecodeEncodeSimple(x: uint8, rest: seq<uint8>)
    ensures DecodeItem(Encode(Simple(x)) + rest) == Some((Simple(x), |Encode(Simple(x))|))
  {
    if x <= 23 {
      HeaderRoundTrip(7, x);
    } else {
      HeaderRoundTrip(7, 24);
    }
  }

  lemma {:induction false} DecodeEncodeArray(xs: seq<CborValue>, rest: seq<uint8>)
    requires WellFormed(Array(xs))
    ensures DecodeItem(Encode(Array(xs)) + rest) == Some((Array(xs), |Encode(Array(xs))|))
    decreases xs, 1
  {
    assert Length64(|xs|) == |xs|;
    DecodeEncodeItems(xs, rest);
    ArrayOfParts(EncodeItems(xs), rest, xs);
  }

  lemma ArrayOfParts(e: seq<uint8>, rest: seq<uint8>, xs: seq<CborValue>)
    requires |xs| < TWO_TO_THE_64
    requires DecodeItems(e + rest, |xs|) == Some((xs, |e|))
    ensures DecodeItem(EncodeUnsigned(4, |xs|) + e + rest) == Some((Array(xs), |EncodeUnsigned(4, |xs|) + e|))
  {
    var head := EncodeUnsigned(4, |xs|);
    ConcatAssociates(head, e, rest);
    DecodeAfterHead(4, |xs|, e + rest);
    DecodeContentArray(head + (e + rest), |xs|, |head|, xs, |e|);
  }

  lemma DecodeContentArray(buf: seq<uint8>, arg: uint64, hl: nat, xs: seq<CborValue>, n: nat)
    requires 1 <= hl <= |buf| && DecodeItems(buf[hl..], arg) == Some((xs, n))
    ensures DecodeContent(buf, 4, arg, hl) == Some((Array(xs), hl + n))
  {
  }

  lemma {:induction false} DecodeEncodeMap(ps: seq<Entry>, rest: seq<uint8>)
    requires WellFormed(Map(ps))
    ensures DecodeItem(Encode(Map(ps)) + rest) == Some((Map(ps), |Encode(Map(ps))|))
    decreases ps, 2
  {
    assert Length64(|ps|) == |ps|;
    DecodeEncodeEntries(ps, rest);
    MapOfParts(EncodeEntries(ps), rest, ps);
  }

  lemma MapOfParts(e: seq<uint8>, rest: seq<uint8>, ps: seq<Entry>)
    requires |ps| < TWO_TO_THE_64
    requires DecodeEntries(e + rest, |ps|) == Some((ps, |e|))
    ensures DecodeItem(EncodeUnsigned(5, |ps|) + e + rest) == Some((Map(ps), |EncodeUnsigned(5, |ps|) + e|))
  {
    var head := EncodeUnsigned(5, |ps|);
    ConcatAssociates(head, e, rest);
    DecodeAfterHead(5, |ps|, e + rest);
    DecodeContentMap(head + (e + rest), |ps|, |head|, ps, |e|);
  }

  lemma DecodeContentMap(buf: seq<uint8>, arg: uint64, hl: nat, ps: seq<Entry>, n: nat)
    requires 1 <= hl <= |buf| && DecodeEntries(buf[hl..], arg) == Some((ps, n))
    ensures DecodeContent(buf, 5, arg, hl) == Some((Map(ps), hl + n))
  {
  }

  lemma {:induction false} DecodeEncodeTag(t: uint64, w: CborValue, rest: seq<uint8>)
    requires WellFormed(w)
    ensures DecodeItem(Encode(Tag(t, w)) + rest) == Some((Tag(t, w), |Encode(Tag(t, w))|))
    decreases w, 3
  {
    DecodeEncode(w, rest);
    TagOfParts(Encode(w), rest, t, w);
  }

  lemma TagOfParts(e: seq<uint8>, rest: seq<uint8>, t: uint64, w: CborValue)
    requires DecodeItem(e + rest) == Some((w, |e|))
    ensures DecodeItem(EncodeUnsigned(6, t) + e + rest) == Some((Tag(t, w), |EncodeUnsigned(6, t) + e|))
  {
    var head := EncodeUnsigned(6, t);
    ConcatAssociates(head, e, rest);
    DecodeAfterHead(6, t, e + rest);
    DecodeContentTag(head + (e + rest), t, |head|, w, |e|);
  }

  lemma DecodeContentTag(buf: seq<uint8>, arg: uint64, hl: nat, w: CborValue, n: nat)
    requires 1 <= hl <= |buf| && DecodeItem(buf[hl..]) == Some((w, n))
    ensures DecodeContent(buf, 6, arg, hl) == Some((Tag(arg, w), hl + n))
  {
  }

  lemma DecodeEncodeBytes(b: seq<uint8>, rest: seq<uint8>)
    requires |b| < TWO_TO_THE_64
    ensures DecodeItem(Encode(Bytes(b)) + rest) == Some((Bytes(b), |Encode(Bytes(b))|))
  {
    var head := EncodeUnsigned(2, |b|);
    assert Length64(|b|) == |b|;
    ConcatAssociates(head, b, rest);
    DecodeAfterHead(2, |b|, b + rest);
    assert (head + (b + rest))[|head|..|head| + |b|] == b;
  }

  lemma DecodeEncodeText(t: string, rest: seq<uint8>)
    requires |t| < TWO_TO_THE_64 && IsByteString(t)
    ensures DecodeItem(Encode(Text(t)) + rest) == Some((Text(t), |Encode(Text(t))|))
  {
    var head := EncodeUnsigned(3, |t|);
    var body := TextToBytes(t);
    var buf := head + (body + rest);
    assert Length64(|t|) == |t|;
    ConcatAssociates(head, body, rest);
    DecodeAfterHead(3, |t|, body + rest);
    assert buf[|head|..|head| + |t|] == body;
    TextRoundTrip(t);
    assert DecodeContent(buf, 3, |t|, |head|) == Some((Text(BytesToText(body)), |head| + |t|));
  }

  lemma {:induction false} DecodeEncodeItems(xs: seq<CborValue>, rest: seq<uint8>)
    requires forall i :: 0 <= i < |xs| ==> WellFormed(xs[i])
    ensures DecodeItems(EncodeItems(xs) + rest, |xs|) == Some((xs, |EncodeItems(xs)|))
    decreases xs, 0
  {
    if |xs| > 0 {
      DecodeEncode(xs[0], EncodeItems(xs[1..]) + rest);
      DecodeEncodeItems(xs[1..], rest);
      ItemsOfParts(Encode(xs[0]), EncodeItems(xs[1..]), rest, xs[0], xs[1..]);
      assert [xs[0]] + xs[1..] == xs;
    }
  }

  /** An item encoding followed by the encodings of further items. */
  lemma {:induction false} ItemsOfParts(a: seq<uint8>, b: seq<uint8>, rest: seq<uint8>, x: CborValue, xs: seq<CborValue>)
    requires DecodeItem(a + (b + rest)) == Some((x, |a|))
    requires DecodeItems(b + rest, |xs|) == Some((xs, |b|))
    ensures DecodeItems(a + b + rest, |xs| + 1) == Some(([x] + xs, |a + b|))
  {
    ConcatAssociates(a, b, rest);
    DecodeItemsCons(a + b + rest, |xs| + 1, x, |a|, xs, |b|);
  }

  lemma DecodeItemsCons(buf: seq<uint8>, count: nat, x: CborValue, n: nat, xs: seq<CborValue>, m: nat)
    requires count > 0 && DecodeItem(buf) == Some((x, n))
    requires n <= |buf| && DecodeItems(buf[n..], count - 1) == Some((xs, m))
    ensures DecodeItems(buf, count) == Some(([x] + xs, n + m))
  {
  }

  lemma DecodeEntriesCons(buf: seq<uint8>, count: nat, p: Entry, n: nat, ps: seq<Entry>, m: nat,
                          all: seq<Entry>, total: nat)
    requires count > 0 && DecodeEntry(buf) == Some((p, n))
    requires n <= |buf| && DecodeEntries(buf[n..], count - 1) == Some((ps, m))
    requires all == [p] + ps && total == n + m
    ensures DecodeEntries(buf, count) == Some((all, total))
  {
  }

  lemma {:induction false} DecodeEncodeEntry(p: Entry, rest: seq<uint8>)
    requires EntryWellFormed(p)
    ensures DecodeEntry(EncodeEntry(p) + rest) == Some((p, |EncodeEntry(p)|))
    decreases p
  {
    DecodeEncode(p.key, Encode(p.value) + rest);
    DecodeEncode(p.value, rest);
    EntryOfParts(Encode(p.key), Encode(p.value), rest, p.key, p.value);
  }

  /** A key encoding followed by a value encoding decodes as the entry. */
  lemma EntryOfParts(a: seq<uint8>, b: seq<uint8>, rest: seq<uint8>, k: CborValue, v: CborValue)
    requires DecodeItem(a + (b + rest)) == Some((k, |a|))
    requires DecodeItem(b + rest) == Some((v, |b|))
    ensures DecodeEntry(a + b + rest) == Some((Entry(k, v), |a + b|))
  {
    ConcatAssociates(a, b, rest);
    DecodeEntryOf(a + b + rest, k, |a|, v, |b|);
  }

  lemma ConcatAssociates(a: seq<uint8>, b: seq<uint8>, c: seq<uint8>)
    ensures a + b + c == a + (b + c)
    ensures (a + b + c)[|a|..] == b + c
  {
    assert (a + b + c)[|a|..] == b + c;
  }

  lemma DecodeEntryOf(buf: seq<uint8>, k: CborValue, n: nat, v: CborValue, m: nat)
    requires DecodeItem(buf) == Some((k, n))
    requires n <= |buf| && DecodeItem(buf[n..]) == Some((v, m))
    ensures DecodeEntry(buf) == Some((Entry(k, v), n + m))
  {
    DecodeEntryContents(buf, k, n, v, m);
    DecodeEntryLength(buf, k, n, v, m);
  }

  lemma DecodeEntryContents(buf: seq<uint8>, k: CborValue, n: nat, v: CborValue, m: nat)
    requires DecodeItem(buf) == Some((k, n))
    requires n <= |buf| && DecodeItem(buf[n..]) == Some((v, m))
    ensures DecodeEntry(buf).Some? && DecodeEntry(buf).value.0 == Entry(k, v)
  {
  }

  lemma DecodeEntryLength(buf: seq<uint8>, k: CborValue, n: nat, v: CborValue, m: nat)
    requires DecodeItem(buf) == Some((k, n))
    requires n <= |buf| && DecodeItem(buf[n..]) == Some((v, m))
    ensures DecodeEntry(buf).Some? && DecodeEntry(buf).value.1 == n + m
  {
  }

  lemma {:induction false} DecodeEncodeEntries(ps: seq<Entry>, rest: seq<uint8>)
    requires forall i :: 0 <= i < |ps| ==> EntryWellFormed(ps[i])
    ensures DecodeEntries(EncodeEntries(ps) + rest, |ps|) == Some((ps, |EncodeEntries(ps)|))
    decreases ps, 1
  {
    if |ps| > 0 {
      DecodeEncodeEntriesCons(ps, rest);
    }
  }

  lemma {:induction false} DecodeEncodeEntriesCons(ps: seq<Entry>, rest: seq<uint8>)
    requires |ps| > 0
    requires forall i :: 0 <= i < |ps| ==> EntryWellFormed(ps[i])
    ensures DecodeEntries(EncodeEntries(ps) + rest, |ps|) == Some((ps, |EncodeEntries(ps)|))
    decreases ps, 0
  {
    DecodeEncodeEntry(ps[0], EncodeEntries(ps[1..]) + rest);
    DecodeEncodeEntries(ps[1..], rest);
    EntriesOfParts(EncodeEntry(ps[0]), EncodeEntries(ps[1..]), rest, ps[0], ps[1..]);
    assert [ps[0]] + ps[1..] == ps;
  }

  /** An entry encoding followed by the encodings of further entries. */
  lemma {:induction false} EntriesOfParts(a: seq<uint8>, b: seq<uint8>, rest: seq<uint8>, p: Entry, ps: seq<Entry>)
    requires DecodeEntry(a + (b + rest)) == Some((p, |a|))
    requires DecodeEntries(b + rest, |ps|) == Some((ps, |b|))
    ensures DecodeEntries(a + b + rest, |ps| + 1) == Some(([p] + ps, |a + b|))
  {
    var buf := a + b + rest;
    ConcatAssociates(a, b, rest);
    assert buf[|a|..] == b + rest;
    DecodeEntriesCons(buf, |ps| + 1, p, |a|, ps, |b|, [p] + ps, |a| + |b|);
  }

  /** `Decode` inverts `Encode` on every value a `CborValue` can hold. */
  lemma DecodeOfEncode(v: CborValue)
    requires WellFormed(v)
    ensures Decode(Encode(v)) == Some(v)
  {
    DecodeEncode(v, []);
    assert Encode(v) + [] == Encode(v);
  }

  /** Distinct well-formed values never share an encoding. */
  lemma EncodeInjective(a: CborValue, b: CborValue)
    requires WellFormed(a) && WellFormed(b)
    requires Encode(a) == Encode(b)
    ensures a == b
  {
    DecodeOfEncode(a);
    DecodeOfEncode(b);
  }

  // The codec as written in `Cbor::Encode` and `Cbor::Decode`

  /** `AddAtStart(1024)`: the size of the buffer `Cbor::Encode` returns. */
  const ENCODE_BUFFER_SIZE: nat := 1024

  /** `data` written from the start of `buf`, over what was there. */
  function Overwrite(buf: seq<uint8>, data: seq<uint8>): (r: seq<uint8>)
    requires |data| <= |buf|
    ensures |r| == |buf|
    ensures r[..|data|] == data && r[|data|..] == buf[|data|..]
  {
    data + buf[|data|..]
  }

  /** `Cbor::Encode` as written. The result is always the whole 1024-byte
      buffer, whose bytes before any write are not specified (`fill`).
      Every write starts at offset 0: the head goes there, and the content
      of a byte or text string is then written there too, over the head.
      The encodings of array elements, map entries and tagged content go
      into local buffers that are dropped. String content longer than the
      buffer would be written past its end, which yields nothing here. */
  function EncodeAsWritten(v: CborValue, fill: seq<uint8>): (r: Option<seq<uint8>>)
    requires |fill| == ENCODE_BUFFER_SIZE
    ensures r.Some? ==> |r.value| == ENCODE_BUFFER_SIZE
    ensures r.None? <==> (v.Bytes? && |v.bytes| > ENCODE_BUFFER_SIZE) || (v.Text? && |v.text| > ENCODE_BUFFER_SIZE)
    ensures (v.Unsigned? || v.Negative? || v.Simple?) ==> r.Some? && r.value[..|Encode(v)|] == Encode(v)
    ensures v.Invalid? ==> r == Some(fill)
  {
    match v
    case Bytes(b) =>
      if |b| > ENCODE_BUFFER_SIZE then None
      else Some(Overwrite(Overwrite(fill, EncodeUnsigned(2, Length64(|b|))), b))
    case Text(t) =>
      if |t| > ENCODE_BUFFER_SIZE then None
      else Some(Overwrite(Overwrite(fill, EncodeUnsigned(3, Length64(|t|))), TextToBytes(t)))
    case Array(xs) => Some(Overwrite(fill, EncodeUnsigned(4, Length64(|xs|))))
    case Map(ps) => Some(Overwrite(fill, EncodeUnsigned(5, Length64(|ps|))))
    case Tag(t, _) => Some(Overwrite(fill, EncodeUnsigned(6, t)))
    case Invalid => Some(fill)
    case _ => Some(Overwrite(fill, Encode(v)))
  }

  /** Arrays with different elements get the same as-written encoding,
      whatever the buffer held: the head, then bytes the encoder never
      wrote. The complete encoding tells them apart. */
  lemma EncodeAsWrittenLosesElements(fill: seq<uint8>)
    requires |fill| == ENCODE_BUFFER_SIZE
    ensures EncodeAsWritten(Array([Unsigned(1)]), fill) == EncodeAsWritten(Array([Unsigned(2)]), fill)
    ensures EncodeAsWritten(Array([Unsigned(1)]), fill) == Some([0x81] + fill[1..])
    ensures Encode(Array([Unsigned(1)])) != Encode(Array([Unsigned(2)]))
  {
    var head := EncodeUnsigned(4, 1);
    assert head == [EncodeHeader(4, 1)];
    assert EncodeHeader(4, 1) == 0x81;
    assert Length64(|[Unsigned(1)]|) == 1;
    assert EncodeItems([Unsigned(1)]) == Encode(Unsigned(1)) + EncodeItems([]);
    assert EncodeItems([Unsigned(2)]) == Encode(Unsigned(2)) + EncodeItems([]);
    assert Encode(Unsigned(1)) == [EncodeHeader(0, 1)];
    assert Encode(Unsigned(2)) == [EncodeHeader(0, 2)];
    assert Encode(Array([Unsigned(1)]))[1] == EncodeHeader(0, 1) != EncodeHeader(0, 2) == Encode(Array([Unsigned(2)]))[1];
  }

  /** A byte string at least as long as its head comes out as its bare
      content followed by unwritten bytes: the head is overwritten, so a
      text string of the same bytes comes out the same. */
  lemma EncodeAsWrittenOverwritesHead(b: seq<uint8>, fill: seq<uint8>)
    requires |fill| == ENCODE_BUFFER_SIZE
    requires |EncodeUnsigned(2, Length64(|b|))| <= |b| <= ENCODE_BUFFER_SIZE
    ensures EncodeAsWritten(Bytes(b), fill) == Some(b + fill[|b|..])
    ensures EncodeAsWritten(Text(BytesToText(b)), fill) == EncodeAsWritten(Bytes(b), fill)
  {
    var head := EncodeUnsigned(2, Length64(|b|));
    var written := Overwrite(fill, head);
    assert written[|b|..] == fill[|b|..];
    assert EncodeAsWritten(Bytes(b), fill) == Some(Overwrite(written, b));
    var t := BytesToText(b);
    assert TextToBytes(t) == b by {
      forall i | 0 <= i < |b| ensures TextToBytes(t)[i] == b[i] {
        assert t[i] == b[i] as char;
      }
    }
    var textHead := EncodeUnsigned(3, Length64(|t|));
    assert |textHead| == |head|;
    assert Overwrite(fill, textHead)[|b|..] == fill[|b|..];
    assert EncodeAsWritten(Text(t), fill) == Some(Overwrite(Overwrite(fill, textHead), b));
  }

  /** h'AB' as written is the single content byte 0xAB where the complete
      encoding starts with the head 0x41. */
  lemma EncodeAsWrittenByteString(fill: seq<uint8>)
    requires |fill| == ENCODE_BUFFER_SIZE
    ensures EncodeAsWritten(Bytes([0xAB]), fill) == Some([0xAB] + fill[1..])
    ensures Encode(Bytes([0xAB])) == [0x41, 0xAB]
  {
    assert EncodeUnsigned(2, 1) == [EncodeHeader(2, 1)];
    assert EncodeHeader(2, 1) == 0x41;
  }

  /** Integers and simple values are written whole at the start of the
      buffer, so the as-written decoder reads an integer back whatever
      follows it. */
  lemma EncodeAsWrittenIntegers(v: CborValue, fill: seq<uint8>)
    requires |fill| == ENCODE_BUFFER_SIZE
    requires v.Unsigned? || v.Negative?
    ensures EncodeAsWritten(v, fill).Some?
    ensures DecodeAsWritten(EncodeAsWritten(v, fill).value) == Some(v)
  {
    var out := EncodeAsWritten(v, fill).value;
    assert out == Encode(v) + out[|Encode(v)|..];
    DecodeAsWrittenOnIntegers(v, out[|Encode(v)|..]);
  }

  /** `static_cast<int64_t>` of a `uint64_t`: two's-complement wrap-around. */
  function WrapInt64(n: uint64): (r: int)
    ensures INT64_MIN <= r <= INT64_MAX
    ensures (r - n) % TWO_TO_THE_64 == 0
  {
    Int64Of(n)
  }

  /** `Cbor::Decode` as written: only major types 0 and 1 are decoded. For
      major type 1 the argument passes through `int64_t`, so an argument of
      2^63 or more wraps around and yields a non-negative integer. */
  function DecodeAsWritten(buf: seq<uint8>): Option<CborValue> {
    if |buf| == 0 then None
    else if MajorOf(buf[0]) == 0 then
      match DecodeUnsigned(buf, 0)
      case None => None
      case Some((n, _)) => Some(Unsigned(n))
    else if MajorOf(buf[0]) == 1 then
      match DecodeUnsigned(buf, 1)
      case None => None
      case Some((n, _)) => Some(FromInt64(-1 - WrapInt64(n)))
    else None
  }

  /** On integers in range the as-written decoder agrees with the intended one. */
  lemma DecodeAsWrittenOnIntegers(v: CborValue, rest: seq<uint8>)
    requires v.Unsigned? || v.Negative?
    ensures DecodeAsWritten(Encode(v) + rest) == Some(v)
    ensures DecodeAsWritten(Encode(v) + rest) == Decode(Encode(v) + rest)
  {
    DecodeEncode(v, rest);
    if v.Unsigned? {
      UnsignedRoundTrip(0, v.u, rest);
    } else {
      UnsignedRoundTrip(1, -1 - v.n, rest);
    }
  }

  /** The as-written decoder rejects every array, and turns the most negative
      CBOR integer, -2^64, into the unsigned value 0. */
  lemma DecodeAsWrittenDiscrepancies()
    ensures Decode(Encode(Array([]))) == Some(Array([]))
    ensures DecodeAsWritten(Encode(Array([]))) == None
    ensures DecodeAsWritten([0x3B, 0xFF, 0xFF, 0xFF, 0xFF, 0xFF, 0xFF, 0xFF, 0xFF]) == Some(Unsigned(0))
    ensures Decode([0x3B, 0xFF, 0xFF, 0xFF, 0xFF, 0xFF, 0xFF, 0xFF, 0xFF]) == None
  {
    DecodeAsWrittenRejectsArrays();
    DecodeAsWrittenWrapsNegative();
  }

  lemma DecodeAsWrittenRejectsArrays()
    ensures Decode(Encode(Array([]))) == Some(Array([]))
    ensures DecodeAsWritten(Encode(Array([]))) == None
  {
    DecodeOfEncode(Array([]));
  }

  lemma DecodeAsWrittenWrapsNegative()
    ensures DecodeAsWritten([0x3B, 0xFF, 0xFF, 0xFF, 0xFF, 0xFF, 0xFF, 0xFF, 0xFF]) == Some(Unsigned(0))
    ensures Decode([0x3B, 0xFF, 0xFF, 0xFF, 0xFF, 0xFF, 0xFF, 0xFF, 0xFF]) == None
  {
    var buf: seq<uint8> := [0x3B, 0xFF, 0xFF, 0xFF, 0xFF, 0xFF, 0xFF, 0xFF, 0xFF];
    AllOnesBigEndian(8);
    assert buf[1..9] == seq(8, _ => 0xFF);
  }

  lemma {:induction false} AllOnesBigEndian(n: nat)
    ensures FromBigEndian(seq(n, _ => 0xFF)) == Pow256(n) - 1
  {
    if n > 0 {
      var s: seq<uint8> := seq(n, _ => 0xFF);
      assert s[..n - 1] == seq(n - 1, _ => 0xFF);
      AllOnesBigEndian(n - 1);
    }
  }
}
