/**
  The protobuf library primitives that the generated code calls, after the Protocol Buffers Encoding specification
  ("Base 128 Varints", "Message Structure", "Length-Delimited Records", "Groups").

  A field that the generated code does not know is skipped and written out again in canonical form; `Unknown` is such a
  field, and `SkipRoundTrip` and `SkippedIsValid` say that skipping is the inverse of writing.
 */
module Wire {
  import opened Bytes
  import Varints

  const VARINT: nat := 0
  const FIXED64: nat := 1
  const DELIMITED: nat := 2
  const START_GROUP: nat := 3
  const END_GROUP: nat := 4
  const FIXED32: nat := 5

  const MAX_VARINT_BYTES: nat := 10
  const MAX_DEPTH: nat := 100

  const TWO_32: nat := 0x1_0000_0000
  const TWO_64: nat := 0x1_0000_0000_0000_0000
  const TWO_31: nat := 0x8000_0000
  const TWO_29: nat := 0x2000_0000

  // ---------- reading ----------

  /** A varint of at most ten bytes, truncated to 64 bits, and what follows it. */
  function ReadVarint64(b: seq<byte>): (r: Option<(nat, seq<byte>)>)
    ensures r.Some? ==> r.value.0 < TWO_64 && |r.value.1| < |b|
  {
    match Varints.Decode(b)
    case None => None
    case Some((v, n)) => if n <= MAX_VARINT_BYTES then Some((v % TWO_64, b[n..])) else None
  }

  /** The same, truncated to 32 bits. */
  function ReadVarint32(b: seq<byte>): (r: Option<(nat, seq<byte>)>)
    ensures r.Some? ==> r.value.0 < TWO_32 && |r.value.1| < |b|
  {
    match ReadVarint64(b)
    case None => None
    case Some((v, rest)) => Some((v % TWO_32, rest))
  }

  /** The next tag; 0 at the end of the input or where no tag can be read. */
  function ReadTag(b: seq<byte>): (r: (nat, seq<byte>))
    ensures r.0 < TWO_32 && |r.1| <= |b|
    ensures r.0 != 0 ==> |r.1| < |b|
  {
    match ReadVarint32(b)
    case None => (0, b)
    case Some(r) => r
  }

  function ReadBytes(b: seq<byte>, n: nat): (r: Option<(seq<byte>, seq<byte>)>)
    ensures r.Some? ==> |r.value.0| == n && |r.value.1| == |b| - n
  {
    if n <= |b| then Some((b[..n], b[n..])) else None
  }

  /** A length and that many bytes; the length must fit an `int`. */
  function ReadString(b: seq<byte>): (r: Option<(seq<byte>, seq<byte>)>)
    ensures r.Some? ==> |r.value.0| < TWO_31 && |r.value.1| < |b|
  {
    match ReadVarint32(b)
    case None => None
    case Some((n, rest)) => if n < TWO_31 then ReadBytes(rest, n) else None
  }

  // ---------- unknown fields ----------

  datatype Unknown = Unknown(number: nat, payload: Payload)

  datatype Payload =
    | Varint(value: nat)
    | Fixed64(bytes: seq<byte>)
    | Delimited(text: seq<byte>)
    | Group(items: seq<Unknown>)
    | Fixed32(bytes: seq<byte>)

  function WireType(p: Payload): nat {
    match p
    case Varint(_) => VARINT
    case Fixed64(_) => FIXED64
    case Delimited(_) => DELIMITED
    case Group(_) => START_GROUP
    case Fixed32(_) => FIXED32
  }

  function Tag(number: nat, wireType: nat): nat {
    8 * number + wireType
  }

  function TagOf(u: Unknown): nat {
    Tag(u.number, WireType(u.payload))
  }

  function WriteString(s: seq<byte>): seq<byte> {
    Varints.Encode(|s|) + s
  }

  function WritePayload(u: Unknown): seq<byte>
    decreases u, 0
  {
    match u.payload
    case Varint(v) => Varints.Encode(v)
    case Fixed64(bytes) => bytes
    case Delimited(s) => WriteString(s)
    case Group(items) => WriteAll(items) + Varints.Encode(Tag(u.number, END_GROUP))
    case Fixed32(bytes) => bytes
  }

  function Write(u: Unknown): seq<byte>
    decreases u, 1
  {
    Varints.Encode(TagOf(u)) + WritePayload(u)
  }

  function WriteAll(us: seq<Unknown>): seq<byte>
    decreases us, 0
  {
    if us == [] then [] else Write(us[0]) + WriteAll(us[1..])
  }

  /** `u` can be written and read back with `depth` levels of groups to spare. */
  ghost predicate Valid(u: Unknown, depth: nat)
    decreases u
  {
    && 1 <= u.number < TWO_29
    && match u.payload
       case Varint(v) => v < TWO_64
       case Fixed64(bytes) => |bytes| == 8
       case Delimited(s) => |s| < TWO_31
       case Group(items) => depth > 0 && AllValid(items, depth - 1)
       case Fixed32(bytes) => |bytes| == 4
  }

  ghost predicate AllValid(us: seq<Unknown>, depth: nat)
    decreases us
  {
    us == [] || (Valid(us[0], depth) && AllValid(us[1..], depth))
  }

  /** `SkipField` after its tag has been read: the field, and the input behind it. */
  function SkipField(b: seq<byte>, tag: nat, depth: nat): (r: Option<(Unknown, seq<byte>)>)
    ensures r.Some? ==> |r.value.1| <= |b|
    decreases |b|, 1
  {
    var number, wireType := tag / 8, tag % 8;
    if number == 0 then None
    else if wireType == VARINT then
      match ReadVarint64(b)
      case None => None
      case Some((v, rest)) => Some((Unknown(number, Varint(v)), rest))
    else if wireType == FIXED64 then
      match ReadBytes(b, 8)
      case None => None
      case Some((bytes, rest)) => Some((Unknown(number, Fixed64(bytes)), rest))
    else if wireType == DELIMITED then
      match ReadString(b)
      case None => None
      case Some((s, rest)) => Some((Unknown(number, Delimited(s)), rest))
    else if wireType == START_GROUP then
      if depth == 0 then None
      else
        match SkipItems(b, number, depth - 1)
        case None => None
        case Some((items, rest)) => Some((Unknown(number, Group(items)), rest))
    else if wireType == FIXED32 then
      match ReadBytes(b, 4)
      case None => None
      case Some((bytes, rest)) => Some((Unknown(number, Fixed32(bytes)), rest))
    else None
  }

  /** The fields of group `number`, up to its end tag. */
  function SkipItems(b: seq<byte>, number: nat, depth: nat): (r: Option<(seq<Unknown>, seq<byte>)>)
    ensures r.Some? ==> |r.value.1| <= |b|
    decreases |b|, 0
  {
    var (tag, rest) := ReadTag(b);
    if tag == 0 then None
    else if tag % 8 == END_GROUP then
      if tag == Tag(number, END_GROUP) then Some(([], rest)) else None
    else
      match SkipField(rest, tag, depth)
      case None => None
      case Some((u, rest')) =>
        match SkipItems(rest', number, depth)
        case None => None
        case Some((us, rest'')) => Some(([u] + us, rest''))
  }

  // ---------- reading, byte by byte ----------

  lemma {:induction false} DecodedLength(b: seq<byte>, n: nat)
    requires n <= |b| && forall i :: 0 <= i < n ==> b[i] >= 128
    ensures n == |b| ==> Varints.Decode(b).None?
    ensures n < |b| && b[n] < 128 ==> Varints.Decode(b) == Some((Base128(b[..n + 1]), n + 1))
    decreases n
  {
    if n == 0 {
      if b != [] { assert b[..1] == [b[0]] && Base128([]) == 0 && [b[0]][..0] == []; }
    } else {
      DecodedLength(b[1..], n - 1);
      if n < |b| {
        Base128Cons(b[..n + 1]);
        assert b[..n + 1][1..] == b[1..][..n];
      }
    }
  }

  /** The number whose lowest 7 bits are those of the first byte, and so on. */
  function Base128(b: seq<byte>): nat {
    if b == [] then 0
    else Base128(b[..|b| - 1]) + b[|b| - 1] % 128 * Varints.Pow128(|b| - 1)
  }

  lemma {:induction false} Base128Cons(b: seq<byte>)
    requires b != []
    ensures Base128(b) == b[0] % 128 + 128 * Base128(b[1..])
    decreases |b|
  {
    var init := b[..|b| - 1];
    if |b| == 1 {
      assert init == [] && b[1..] == [];
    } else {
      Base128Cons(init);
      assert init[1..] == b[1..][..|b| - 2];
      var d, p := b[|b| - 1] % 128, Varints.Pow128(|b| - 2);
      assert Varints.Pow128(|b| - 1) == 128 * p;
      assert d * (128 * p) == 128 * (d * p);
    }
  }

  /** A varint ends with its first byte below 128, which must be one of the first ten; its value is taken modulo 2 to
      the power 64, or 32. */
  lemma VarintBytes(b: seq<byte>, n: nat)
    requires n <= |b| && (forall i :: 0 <= i < n ==> b[i] >= 128) && (n < |b| ==> b[n] < 128)
    ensures var value := Base128(b[..if n < |b| then n + 1 else n]);
            if n < |b| && n < 10 then
              && ReadVarint64(b) == Some((value % 0x1_0000_0000_0000_0000, b[n + 1..]))
              && ReadVarint32(b) == Some((value % 0x1_0000_0000, b[n + 1..]))
            else
              ReadVarint64(b).None? && ReadVarint32(b).None?
  {
    DecodedLength(b, n);
    if n < |b| && n < 10 { TwiceModulo(Base128(b[..n + 1])); }
  }

  lemma TwiceModulo(v: nat)
    ensures v % TWO_64 % TWO_32 == v % TWO_32
  {
    var q := v / TWO_64;
    assert v == TWO_32 * (TWO_32 * q) + v % TWO_64;
    ModuloOfSum(TWO_32 * q, v % TWO_64);
  }

  lemma ModuloOfSum(k: nat, r: nat)
    ensures (TWO_32 * k + r) % TWO_32 == r % TWO_32
  {}

  /** A string is read if and only if its length is below 2 to the power 31 and there are that many bytes. */
  lemma StringBytes(n: nat, b: seq<byte>)
    requires n < 0x1_0000_0000
    ensures ReadString(Varints.Encode(n) + b) == if n < 0x8000_0000 && n <= |b| then Some((b[..n], b[n..])) else None
  {
    VarintRoundTrip(n, b);
  }

  /** The wire types: 1 takes eight bytes and 5 takes four; 4, 6 and 7, and the field number 0, cannot be skipped. */
  lemma SkipByWireType(b: seq<byte>, number: nat, depth: nat)
    requires 1 <= number
    ensures SkipField(b, 8 * number, depth)
            == match ReadVarint64(b)
               case None => None
               case Some((v, rest)) => Some((Unknown(number, Varint(v)), rest))
    ensures SkipField(b, 8 * number + 1, depth)
            == if |b| < 8 then None else Some((Unknown(number, Fixed64(b[..8])), b[8..]))
    ensures SkipField(b, 8 * number + 2, depth)
            == match ReadString(b)
               case None => None
               case Some((s, rest)) => Some((Unknown(number, Delimited(s)), rest))
    ensures SkipField(b, 8 * number + 3, 0).None?
    ensures SkipField(b, 8 * number + 4, depth).None?
    ensures SkipField(b, 8 * number + 5, depth)
            == if |b| < 4 then None else Some((Unknown(number, Fixed32(b[..4])), b[4..]))
    ensures SkipField(b, 8 * number + 6, depth).None? && SkipField(b, 8 * number + 7, depth).None?
    ensures forall tag :: 0 <= tag < 8 ==> SkipField(b, tag, depth).None?
  {
    forall w | 0 <= w < 8 ensures Tag(number, w) / 8 == number && Tag(number, w) % 8 == w {
      assert Tag(number, w) == 8 * number + w;
    }
    assert Tag(number, 0) == 8 * number && Tag(number, 1) == 8 * number + 1 && Tag(number, 2) == 8 * number + 2;
    assert Tag(number, 3) == 8 * number + 3 && Tag(number, 4) == 8 * number + 4 && Tag(number, 5) == 8 * number + 5;
    assert Tag(number, 6) == 8 * number + 6 && Tag(number, 7) == 8 * number + 7;
  }

  // ---------- reading what was written ----------

  lemma VarintRoundTrip(v: nat, rest: seq<byte>)
    requires v < TWO_64
    ensures ReadVarint64(Varints.Encode(v) + rest) == Some((v, rest))
    ensures v < TWO_32 ==> ReadVarint32(Varints.Encode(v) + rest) == Some((v, rest))
  {
    Varints.RoundTrip(v, rest);
    Varints.LengthOfEncode(v, 10);
    DecodedIsRead(Varints.Encode(v), rest, v);
  }

  lemma DecodedIsRead(b: seq<byte>, rest: seq<byte>, v: nat)
    requires v < TWO_64 && |b| <= MAX_VARINT_BYTES && Varints.Decode(b + rest) == Some((v, |b|))
    ensures ReadVarint64(b + rest) == Some((v, rest))
    ensures v < TWO_32 ==> ReadVarint32(b + rest) == Some((v, rest))
  {
    var input := b + rest;
    assert input[|b|..] == rest;
    assert ReadVarint64(input) == Some((v % TWO_64, input[|b|..]));
  }

  lemma Regroup(a: seq<byte>, b: seq<byte>, c: seq<byte>, d: seq<byte>)
    ensures ((a + b) + c) + d == a + (b + (c + d))
  {}

  lemma TagRoundTrip(tag: nat, rest: seq<byte>)
    requires tag < TWO_32
    ensures ReadTag(Varints.Encode(tag) + rest) == (tag, rest)
  {
    VarintRoundTrip(tag, rest);
  }

  lemma StringRoundTrip(s: seq<byte>, rest: seq<byte>)
    requires |s| < TWO_31
    ensures ReadString(WriteString(s) + rest) == Some((s, rest))
  {
    assert WriteString(s) + rest == Varints.Encode(|s|) + (s + rest);
    VarintRoundTrip(|s|, s + rest);
    assert (s + rest)[..|s|] == s && (s + rest)[|s|..] == rest;
  }

  /** Skipping a field that was written gives the field back. */
  lemma {:induction false} SkipRoundTrip(u: Unknown, depth: nat, rest: seq<byte>)
    requires Valid(u, depth)
    ensures SkipField(WritePayload(u) + rest, TagOf(u), depth) == Some((u, rest))
    decreases u, 1
  {
    assert TagOf(u) / 8 == u.number && TagOf(u) % 8 == WireType(u.payload);
    match u.payload
    case Varint(v) => VarintRoundTrip(v, rest);
    case Delimited(s) => StringRoundTrip(s, rest);
    case Group(items) =>
      var end := Varints.Encode(Tag(u.number, END_GROUP));
      assert WritePayload(u) + rest == WriteAll(items) + (end + rest);
      ItemsRoundTrip(items, u.number, depth - 1, rest);
    case Fixed64(bytes) => assert (bytes + rest)[..8] == bytes && (bytes + rest)[8..] == rest;
    case Fixed32(bytes) => assert (bytes + rest)[..4] == bytes && (bytes + rest)[4..] == rest;
  }

  /** A group ends with the end tag of its own number; with any other, or where no tag can be read, it is refused. */
  lemma GroupEnds(b: seq<byte>, number: nat, other: nat, depth: nat)
    requires 1 <= number < 0x2000_0000 && 1 <= other < 0x2000_0000
    ensures SkipItems(Varints.Encode(8 * other + 4) + b, number, depth)
            == if other == number then Some(([], b)) else None
    ensures ReadVarint32(b).None? ==> SkipItems(b, number, depth).None?
  {
    var tag, input := Tag(other, END_GROUP), Varints.Encode(8 * other + 4) + b;
    assert tag == 8 * other + 4;
    TagRoundTrip(tag, b);
    EndTagEnds(input, tag, b, number, depth);
  }

  lemma EndTagEnds(input: seq<byte>, tag: nat, b: seq<byte>, number: nat, depth: nat)
    requires ReadTag(input) == (tag, b) && tag % 8 == END_GROUP
    ensures SkipItems(input, number, depth) == if tag == Tag(number, END_GROUP) then Some(([], b)) else None
  {}

  lemma WriteAllCons(us: seq<Unknown>, tail: seq<byte>)
    requires us != []
    ensures WriteAll(us) + tail == Varints.Encode(TagOf(us[0])) + (WritePayload(us[0]) + (WriteAll(us[1..]) + tail))
  {
    Regroup(Varints.Encode(TagOf(us[0])), WritePayload(us[0]), WriteAll(us[1..]), tail);
  }

  lemma SkipItemsCons(b: seq<byte>, b': seq<byte>, b'': seq<byte>, u: Unknown, us: seq<Unknown>, number: nat,
                      depth: nat, rest: seq<byte>)
    requires ReadTag(b) == (TagOf(u), b') && TagOf(u) != 0
    requires SkipField(b', TagOf(u), depth) == Some((u, b''))
    requires SkipItems(b'', number, depth) == Some((us, rest))
    ensures SkipItems(b, number, depth) == Some(([u] + us, rest))
  {}

  lemma {:induction false} ItemsRoundTrip(us: seq<Unknown>, number: nat, depth: nat, rest: seq<byte>)
    requires AllValid(us, depth) && 1 <= number < TWO_29
    ensures SkipItems(WriteAll(us) + (Varints.Encode(Tag(number, END_GROUP)) + rest), number, depth) == Some((us, rest))
    decreases us, 0
  {
    var tail := Varints.Encode(Tag(number, END_GROUP)) + rest;
    if us == [] {
      assert WriteAll(us) + tail == tail;
      GroupEnds(rest, number, number, depth);
    } else {
      var u, later := us[0], us[1..];
      assert Valid(u, depth) && AllValid(later, depth);
      var more := WriteAll(later) + tail;
      SkipRoundTrip(u, depth, more);
      ItemsRoundTrip(later, number, depth, rest);
      FirstItemRoundTrip(us, number, depth, tail, rest);
    }
  }

  lemma FirstItemRoundTrip(us: seq<Unknown>, number: nat, depth: nat, tail: seq<byte>, rest: seq<byte>)
    requires us != [] && Valid(us[0], depth)
    requires var more := WriteAll(us[1..]) + tail;
             && SkipField(WritePayload(us[0]) + more, TagOf(us[0]), depth) == Some((us[0], more))
             && SkipItems(more, number, depth) == Some((us[1..], rest))
    ensures SkipItems(WriteAll(us) + tail, number, depth) == Some((us, rest))
  {
    WriteAllCons(us, tail);
    ItemRoundTrip(us[0], WriteAll(us[1..]) + tail, us[1..], number, depth, rest);
    assert us == [us[0]] + us[1..];
  }

  lemma ItemRoundTrip(u: Unknown, more: seq<byte>, us: seq<Unknown>, number: nat, depth: nat, rest: seq<byte>)
    requires Valid(u, depth) && SkipField(WritePayload(u) + more, TagOf(u), depth) == Some((u, more))
    requires SkipItems(more, number, depth) == Some((us, rest))
    ensures SkipItems(Varints.Encode(TagOf(u)) + (WritePayload(u) + more), number, depth) == Some(([u] + us, rest))
  {
    var b := WritePayload(u) + more;
    TagRoundTrip(TagOf(u), b);
    SkipItemsCons(Varints.Encode(TagOf(u)) + b, b, more, u, us, number, depth, rest);
  }

  /** Whatever is skipped can be written and read back, under the tag that was read. */
  lemma {:induction false} SkippedIsValid(b: seq<byte>, tag: nat, depth: nat)
    requires tag < TWO_32 && SkipField(b, tag, depth).Some?
    ensures var u := SkipField(b, tag, depth).value.0; Valid(u, depth) && TagOf(u) == tag
    decreases |b|, 1
  {
    if tag % 8 == START_GROUP {
      SkippedItemsAreValid(b, tag / 8, depth - 1);
    }
  }

  lemma {:induction false} SkippedItemsAreValid(b: seq<byte>, number: nat, depth: nat)
    requires SkipItems(b, number, depth).Some?
    ensures AllValid(SkipItems(b, number, depth).value.0, depth)
    decreases |b|, 0
  {
    var (tag, rest) := ReadTag(b);
    if tag % 8 != END_GROUP {
      var (u, rest') := SkipField(rest, tag, depth).value;
      SkippedIsValid(rest, tag, depth);
      SkippedItemsAreValid(rest', number, depth);
      var us := SkipItems(rest', number, depth).value.0;
      assert ([u] + us)[1..] == us;
    }
  }
}
