/**
  The messages of MsgDefine/KaBaseDefine.pb.cc: serialising, parsing and merging.

  The generated code of `UserInfo` and `ChatMessage` follows one scheme.  A `Schema` is the list of a message's field
  types, field number 1 first, and the results are proved for every schema of at most 15 fields; the classes at the end
  are tied to theirs.  `ParseIsMerge` is the law that everything else follows from.
 */
module Proto {
  import opened Bytes
  import Varints
  import opened Wire

  datatype Kind = UInt32 | Text

  type Schema = seq<Kind>

  datatype Value = Num(n: nat) | Str(s: seq<byte>)

  /** The fields, number 1 first, and the raw bytes of the unknown fields. */
  datatype Message = Message(fields: seq<Value>, unknown: seq<byte>)

  const MAX_FIELDS: nat := 15

  function DefaultValue(k: Kind): Value {
    match k
    case UInt32 => Num(0)
    case Text => Str([])
  }

  predicate IsDefault(v: Value) {
    v == Num(0) || v == Str([])
  }

  function Empty(schema: Schema): Message {
    Message(seq(|schema|, i requires 0 <= i < |schema| => DefaultValue(schema[i])), [])
  }

  /** The tag of field number `i + 1`. */
  function FieldTag(schema: Schema, i: nat): nat
    requires i < |schema|
  {
    Tag(i + 1, if schema[i].UInt32? then VARINT else DELIMITED)
  }

  /** The tags that the generated parser has a case for. */
  predicate IsKnown(schema: Schema, tag: nat) {
    0 < tag <= 127 && 0 < tag / 8 <= |schema| && tag == FieldTag(schema, tag / 8 - 1)
  }

  // ---------- the generated code, on values ----------

  function Body(v: Value): seq<byte> {
    match v case Num(n) => Varints.Encode(n) case Str(s) => WriteString(s)
  }

  function SerializeField(schema: Schema, i: nat, v: Value): seq<byte>
    requires i < |schema|
  {
    if IsDefault(v) then []
    else Varints.Encode(FieldTag(schema, i)) + Body(v)
  }

  /** The fields from number `i + 1` on. */
  function SerializeFrom(schema: Schema, m: Message, i: nat): seq<byte>
    requires |m.fields| == |schema| && i <= |schema|
    decreases |schema| - i
  {
    if i == |schema| then m.unknown
    else SerializeField(schema, i, m.fields[i]) + SerializeFrom(schema, m, i + 1)
  }

  function Serialize(schema: Schema, m: Message): seq<byte>
    requires |m.fields| == |schema|
  {
    SerializeFrom(schema, m, 0)
  }

  /** What one round of the parser's loop reads: the end, a failure, a field, or a field that is not known. */
  datatype FieldRead = End | Malformed | Known(i: nat, v: Value, rest: seq<byte>) | Other(u: Unknown, rest: seq<byte>)

  /** The switch over tag `tag`, on the input behind it; `utf8` is the check of `VerifyUtf8String`. */
  function ReadField(schema: Schema, utf8: seq<byte> -> bool, tag: nat, b: seq<byte>): (r: FieldRead)
    ensures r.Known? ==> r.i < |schema|
    ensures r.Known? || r.Other? ==> |r.rest| <= |b| && tag != 0
  {
    if IsKnown(schema, tag) then
      var i := tag / 8 - 1;
      match schema[i]
      case UInt32 =>
        (match ReadVarint32(b)
         case None => Malformed
         case Some((n, rest)) => Known(i, Num(n), rest))
      case Text =>
        match ReadString(b)
        case None => Malformed
        case Some((s, rest)) => if utf8(s) then Known(i, Str(s), rest) else Malformed
    else if tag == 0 then End
    else
      match SkipField(b, tag, MAX_DEPTH)
      case None => Malformed
      case Some((u, rest)) => Other(u, rest)
  }

  function NextField(schema: Schema, utf8: seq<byte> -> bool, b: seq<byte>): (r: FieldRead)
    ensures r.Known? ==> r.i < |schema|
    ensures r.Known? || r.Other? ==> |r.rest| < |b|
  {
    ReadField(schema, utf8, ReadTag(b).0, ReadTag(b).1)
  }

  function Assign(m: Message, i: nat, v: Value): Message
    requires i < |m.fields|
  {
    m.(fields := m.fields[i := v])
  }

  function Keep(m: Message, u: Unknown): Message {
    m.(unknown := m.unknown + Write(u))
  }

  /** `MergePartialFromCodedStream` into message `m`. */
  function Parse(schema: Schema, utf8: seq<byte> -> bool, b: seq<byte>, m: Message): Option<Message>
    requires |m.fields| == |schema|
    decreases |b|
  {
    match NextField(schema, utf8, b)
    case End => Some(m)
    case Malformed => None
    case Known(i, v, rest) => Parse(schema, utf8, rest, Assign(m, i, v))
    case Other(u, rest) => Parse(schema, utf8, rest, Keep(m, u))
  }

  /** The later of two values of a field wins, unless it is the default. */
  function Later(v: Value, w: Value): Value {
    if IsDefault(w) then v else w
  }

  function Merge(x: Message, y: Message): Message
    requires |x.fields| == |y.fields|
  {
    Message(seq(|x.fields|, i requires 0 <= i < |x.fields| => Later(x.fields[i], y.fields[i])),
            x.unknown + y.unknown)
  }

  /** The number of bytes of a varint, by its bits. */
  function VarintSize(n: nat): nat {
    if n < 0x80 then 1
    else if n < 0x4000 then 2
    else if n < 0x20_0000 then 3
    else if n < 0x1000_0000 then 4
    else 5
  }

  function FieldSize(v: Value): nat {
    if IsDefault(v) then 0
    else 1 + match v case Num(n) => VarintSize(n) case Str(s) => VarintSize(|s|) + |s|
  }

  function SizeFrom(m: Message, i: nat): nat
    requires i <= |m.fields|
    decreases |m.fields| - i
  {
    if i == |m.fields| then |m.unknown| else FieldSize(m.fields[i]) + SizeFrom(m, i + 1)
  }

  function ByteSize(m: Message): nat {
    SizeFrom(m, 0)
  }

  // ---------- well-formed messages ----------

  /** Each field has the C++ type of its kind; strings are valid UTF-8 (an empty one is never checked). */
  ghost predicate Typed(schema: Schema, utf8: seq<byte> -> bool, m: Message) {
    && |schema| <= MAX_FIELDS
    && |m.fields| == |schema|
    && forall i :: 0 <= i < |schema| ==> TypedValue(schema[i], utf8, m.fields[i])
  }

  ghost predicate TypedValue(k: Kind, utf8: seq<byte> -> bool, v: Value) {
    match k
    case UInt32 => v.Num? && v.n < 0x1_0000_0000
    case Text => v.Str? && |v.s| < 0x8000_0000 && (v.s == [] || utf8(v.s))
  }

  ghost predicate AllUnknown(schema: Schema, us: seq<Unknown>) {
    AllValid(us, 100) && forall u <- us :: !IsKnown(schema, TagOf(u))
  }

  /** The stored unknown bytes are fields that the parser would not know. */
  ghost predicate WellFormed(schema: Schema, utf8: seq<byte> -> bool, m: Message) {
    Typed(schema, utf8, m) && exists us :: AllUnknown(schema, us) && m.unknown == WriteAll(us)
  }

  // ---------- what does not parse ----------

  lemma CutNumber(n: nat, k: nat)
    requires k < |Varints.Encode(n)|
    ensures ReadVarint32(Varints.Encode(n)[..k]).None?
  {
    var b := Varints.Encode(n);
    forall i | 0 <= i < k ensures b[..k][i] >= 128 {
      Varints.EncodedByte(n, i);
    }
    VarintBytes(b[..k], k);
  }

  lemma CutText(s: seq<byte>, k: nat)
    requires |s| < 0x8000_0000 && k < |WriteString(s)|
    ensures ReadString(WriteString(s)[..k]).None?
  {
    var size := Varints.Encode(|s|);
    if k < |size| {
      assert WriteString(s)[..k] == size[..k];
      CutNumber(|s|, k);
    } else {
      assert WriteString(s)[..k] == size + s[..k - |size|];
      StringBytes(|s|, s[..k - |size|]);
    }
  }

  lemma CutBodyIsMalformed(schema: Schema, utf8: seq<byte> -> bool, i: nat, v: Value, k: nat)
    requires i < |schema| <= MAX_FIELDS && TypedValue(schema[i], utf8, v) && k < |Body(v)|
    ensures ReadField(schema, utf8, FieldTag(schema, i), Body(v)[..k]) == Malformed
  {
    FieldTagIsKnown(schema, i);
    match v
    case Num(n) => CutNumber(n, k);
    case Str(s) => CutText(s, k);
  }

  lemma CutFieldIsTagged(tag: nat, body: seq<byte>, k: nat)
    requires tag < 128 && 0 < k <= 1 + |body|
    ensures (Varints.Encode(tag) + body)[..k] == Varints.Encode(tag) + body[..k - 1]
  {
    assert Varints.Encode(tag) == [tag];
  }

  /** A field that is cut off is refused. */
  lemma CutFieldIsRefused(schema: Schema, utf8: seq<byte> -> bool, i: nat, v: Value, k: nat, m: Message)
    requires i < |schema| == |m.fields| && |schema| <= MAX_FIELDS && TypedValue(schema[i], utf8, v) && !IsDefault(v)
    requires 0 < k < |SerializeField(schema, i, v)|
    ensures Parse(schema, utf8, SerializeField(schema, i, v)[..k], m).None?
  {
    var tag, rest := FieldTag(schema, i), Body(v)[..k - 1];
    assert Varints.Encode(tag) == [tag];
    CutFieldIsTagged(tag, Body(v), k);
    CutBodyIsMalformed(schema, utf8, i, v, k - 1);
    TagRoundTrip(tag, rest);
    assert NextField(schema, utf8, Varints.Encode(tag) + rest) == Malformed;
  }

  /** So is a string that is not valid UTF-8, whatever follows. */
  lemma InvalidTextIsRefused(schema: Schema, utf8: seq<byte> -> bool, i: nat, s: seq<byte>, rest: seq<byte>, m: Message)
    requires i < |schema| == |m.fields| && |schema| <= MAX_FIELDS && schema[i].Text?
    requires s != [] && |s| < 0x8000_0000 && !utf8(s)
    ensures Parse(schema, utf8, SerializeField(schema, i, Str(s)) + rest, m).None?
  {
    var tag, body := FieldTag(schema, i), Body(Str(s));
    FieldTagIsKnown(schema, i);
    Associative(Varints.Encode(tag), body, rest);
    TagRoundTrip(tag, body + rest);
    StringRoundTrip(s, rest);
  }

  /** So is a field of another message that cannot be skipped. */
  lemma UnskippableIsRefused(schema: Schema, utf8: seq<byte> -> bool, tag: nat, rest: seq<byte>, m: Message)
    requires |m.fields| == |schema| && 0 < tag < 0x1_0000_0000 && !IsKnown(schema, tag)
    requires SkipField(rest, tag, 100).None?
    ensures Parse(schema, utf8, Varints.Encode(tag) + rest, m).None?
  {
    TagRoundTrip(tag, rest);
  }

  /** A message ends where there is no tag, or the tag 0. */
  lemma EndsWithoutTag(schema: Schema, utf8: seq<byte> -> bool, b: seq<byte>, m: Message)
    requires |m.fields| == |schema|
    requires ReadVarint32(b).None? || ReadVarint32(b).value.0 == 0
    ensures Parse(schema, utf8, b, m) == Some(m)
  {}

  // ---------- parsing is merging ----------

  lemma Associative(a: seq<byte>, b: seq<byte>, c: seq<byte>)
    ensures (a + b) + c == a + (b + c)
  {}

  lemma FieldTagIsKnown(schema: Schema, i: nat)
    requires i < |schema| <= MAX_FIELDS
    ensures var tag := FieldTag(schema, i); IsKnown(schema, tag) && tag / 8 - 1 == i && tag < TWO_32
  {}

  lemma BodyRoundTrip(schema: Schema, utf8: seq<byte> -> bool, i: nat, v: Value, rest: seq<byte>)
    requires i < |schema| <= MAX_FIELDS && TypedValue(schema[i], utf8, v) && !IsDefault(v)
    ensures ReadField(schema, utf8, FieldTag(schema, i), Body(v) + rest) == Known(i, v, rest)
  {
    FieldTagIsKnown(schema, i);
    match v
    case Num(n) => VarintRoundTrip(n, rest);
    case Str(s) => StringRoundTrip(s, rest);
  }

  /** A serialised field is read as the field it is. */
  lemma FieldRoundTrip(schema: Schema, utf8: seq<byte> -> bool, i: nat, v: Value, rest: seq<byte>)
    requires i < |schema| <= MAX_FIELDS && TypedValue(schema[i], utf8, v) && !IsDefault(v)
    ensures NextField(schema, utf8, SerializeField(schema, i, v) + rest) == Known(i, v, rest)
  {
    var tag := FieldTag(schema, i);
    Associative(Varints.Encode(tag), Body(v), rest);
    TagRoundTrip(tag, Body(v) + rest);
    BodyRoundTrip(schema, utf8, i, v, rest);
  }

  lemma UnknownRoundTrip(schema: Schema, utf8: seq<byte> -> bool, u: Unknown, rest: seq<byte>)
    requires Valid(u, MAX_DEPTH) && !IsKnown(schema, TagOf(u))
    ensures NextField(schema, utf8, Varints.Encode(TagOf(u)) + (WritePayload(u) + rest)) == Other(u, rest)
  {
    TagRoundTrip(TagOf(u), WritePayload(u) + rest);
    SkipRoundTrip(u, MAX_DEPTH, rest);
  }

  /** Parsing a serialised field assigns it, unless it has its default value and was not written. */
  lemma ParseField(schema: Schema, utf8: seq<byte> -> bool, i: nat, v: Value, rest: seq<byte>, m: Message)
    requires i < |schema| == |m.fields| && |schema| <= MAX_FIELDS && TypedValue(schema[i], utf8, v)
    ensures Parse(schema, utf8, SerializeField(schema, i, v) + rest, m)
            == Parse(schema, utf8, rest, if IsDefault(v) then m else Assign(m, i, v))
  {
    if IsDefault(v) {
      assert SerializeField(schema, i, v) + rest == rest;
    } else {
      FieldRoundTrip(schema, utf8, i, v, rest);
    }
  }

  lemma ParseOther(schema: Schema, utf8: seq<byte> -> bool, b: seq<byte>, u: Unknown, rest: seq<byte>, m: Message)
    requires |m.fields| == |schema| && NextField(schema, utf8, b) == Other(u, rest)
    ensures Parse(schema, utf8, b, m) == Parse(schema, utf8, rest, Keep(m, u))
  {}

  lemma KeepAll(m: Message, us: seq<Unknown>)
    requires us != []
    ensures var m' := Keep(m, us[0]);
            m'.(unknown := m'.unknown + WriteAll(us[1..])) == m.(unknown := m.unknown + WriteAll(us))
  {
    assert (m.unknown + Write(us[0])) + WriteAll(us[1..]) == m.unknown + (Write(us[0]) + WriteAll(us[1..]));
  }

  lemma {:induction false} ParseUnknown(schema: Schema, utf8: seq<byte> -> bool, us: seq<Unknown>, rest: seq<byte>,
                                        m: Message)
    requires |m.fields| == |schema| && AllUnknown(schema, us)
    ensures Parse(schema, utf8, WriteAll(us) + rest, m)
            == Parse(schema, utf8, rest, m.(unknown := m.unknown + WriteAll(us)))
    decreases |us|
  {
    if us == [] {
      assert WriteAll(us) + rest == rest && m.unknown + WriteAll(us) == m.unknown;
    } else {
      var u, later := us[0], us[1..];
      WriteAllCons(us, rest);
      UnknownRoundTrip(schema, utf8, u, WriteAll(later) + rest);
      ParseOther(schema, utf8, WriteAll(us) + rest, u, WriteAll(later) + rest, m);
      ParseUnknown(schema, utf8, later, rest, Keep(m, u));
      KeepAll(m, us);
    }
  }

  /** `x` with the fields from number `i + 1` on, and the unknown fields, merged from `y`. */
  function MergeFrom(x: Message, y: Message, i: nat): Message
    requires |x.fields| == |y.fields| && i <= |x.fields|
  {
    Message(x.fields[..i] + Merge(x, y).fields[i..], x.unknown + y.unknown)
  }

  lemma {:induction false} ParseFieldsFrom(schema: Schema, utf8: seq<byte> -> bool, x: Message, y: Message, i: nat,
                                           us: seq<Unknown>, rest: seq<byte>)
    requires |x.fields| == |schema| && i <= |schema| && Typed(schema, utf8, y)
    requires AllUnknown(schema, us) && y.unknown == WriteAll(us)
    ensures Parse(schema, utf8, SerializeFrom(schema, y, i) + rest, x) == Parse(schema, utf8, rest, MergeFrom(x, y, i))
    decreases |schema| - i
  {
    if i == |schema| {
      ParseUnknown(schema, utf8, us, rest, x);
      assert MergeFrom(x, y, i).fields == x.fields;
    } else {
      var v := y.fields[i];
      var field, later := SerializeField(schema, i, v), SerializeFrom(schema, y, i + 1);
      var x' := if IsDefault(v) then x else Assign(x, i, v);
      assert (field + later) + rest == field + (later + rest);
      ParseField(schema, utf8, i, v, later + rest, x);
      ParseFieldsFrom(schema, utf8, x', y, i + 1, us, rest);
      MergeFromStep(x, y, i);
    }
  }

  lemma MergeFromStep(x: Message, y: Message, i: nat)
    requires |x.fields| == |y.fields| && i < |x.fields|
    ensures var v := y.fields[i];
            MergeFrom(if IsDefault(v) then x else Assign(x, i, v), y, i + 1) == MergeFrom(x, y, i)
  {
    var v := y.fields[i];
    var x' := if IsDefault(v) then x else Assign(x, i, v);
    assert MergeFrom(x', y, i + 1).fields == MergeFrom(x, y, i).fields;
  }

  /** Parsing the serialisation of `y`, and whatever follows it, merges `y` and goes on with what follows. */
  lemma ParseIsMerge(schema: Schema, utf8: seq<byte> -> bool, x: Message, y: Message, rest: seq<byte>)
    requires |x.fields| == |schema| && WellFormed(schema, utf8, y)
    ensures Parse(schema, utf8, Serialize(schema, y) + rest, x) == Parse(schema, utf8, rest, Merge(x, y))
  {
    var us :| AllUnknown(schema, us) && y.unknown == WriteAll(us);
    ParseFieldsFrom(schema, utf8, x, y, 0, us, rest);
    assert MergeFrom(x, y, 0) == Merge(x, y);
  }

  /** Parsing a serialised message into an empty one gives the message back; parsing it into `x` merges it into `x`. */
  lemma RoundTrip(schema: Schema, utf8: seq<byte> -> bool, x: Message, y: Message)
    requires |x.fields| == |schema| && WellFormed(schema, utf8, y)
    ensures Parse(schema, utf8, Serialize(schema, y), x) == Some(Merge(x, y))
    ensures Parse(schema, utf8, Serialize(schema, y), Empty(schema)) == Some(y)
  {
    ParseIsMerge(schema, utf8, x, y, []);
    ParseIsMerge(schema, utf8, Empty(schema), y, []);
    assert Serialize(schema, y) + [] == Serialize(schema, y);
    MergeIntoEmpty(schema, utf8, y);
  }

  lemma MergeIntoEmpty(schema: Schema, utf8: seq<byte> -> bool, y: Message)
    requires Typed(schema, utf8, y)
    ensures Merge(Empty(schema), y) == y
  {
    var z := Merge(Empty(schema), y);
    forall i | 0 <= i < |schema| ensures z.fields[i] == y.fields[i] {
      assert TypedValue(schema[i], utf8, y.fields[i]);
    }
    assert z.fields == y.fields;
  }

  /** Concatenating serialisations merges the messages: the last non-default value of a field wins. */
  lemma ConcatenationMerges(schema: Schema, utf8: seq<byte> -> bool, a: Message, b: Message)
    requires WellFormed(schema, utf8, a) && WellFormed(schema, utf8, b)
    ensures Parse(schema, utf8, Serialize(schema, a) + Serialize(schema, b), Empty(schema)) == Some(Merge(a, b))
  {
    ParseIsMerge(schema, utf8, Empty(schema), a, Serialize(schema, b));
    MergeIntoEmpty(schema, utf8, a);
    RoundTrip(schema, utf8, a, b);
  }

  // ---------- every parse ----------

  lemma {:induction false} WriteAllSnoc(us: seq<Unknown>, u: Unknown, depth: nat)
    requires AllValid(us, depth) && Valid(u, depth)
    ensures WriteAll(us + [u]) == WriteAll(us) + Write(u) && AllValid(us + [u], depth)
    decreases |us|
  {
    var all := us + [u];
    if us == [] {
      assert all[1..] == [];
      assert WriteAll(all) == Write(u) + [];
    } else {
      WriteAllSnoc(us[1..], u, depth);
      assert all[1..] == us[1..] + [u];
      Associative(Write(us[0]), WriteAll(us[1..]), Write(u));
    }
  }

  lemma SkippedStaysWellFormed(schema: Schema, utf8: seq<byte> -> bool, m: Message, u: Unknown)
    requires WellFormed(schema, utf8, m) && Valid(u, MAX_DEPTH) && !IsKnown(schema, TagOf(u))
    ensures WellFormed(schema, utf8, Keep(m, u))
  {
    var us :| AllUnknown(schema, us) && m.unknown == WriteAll(us);
    WriteAllSnoc(us, u, MAX_DEPTH);
    assert AllUnknown(schema, us + [u]);
  }

  lemma AssignedStaysWellFormed(schema: Schema, utf8: seq<byte> -> bool, m: Message, i: nat, v: Value)
    requires WellFormed(schema, utf8, m) && i < |schema| && TypedValue(schema[i], utf8, v)
    ensures WellFormed(schema, utf8, Assign(m, i, v))
  {
    var us :| AllUnknown(schema, us) && m.unknown == WriteAll(us);
    var m' := Assign(m, i, v);
    assert Typed(schema, utf8, m') && m'.unknown == WriteAll(us);
  }

  lemma ReadIsWellFormed(schema: Schema, utf8: seq<byte> -> bool, b: seq<byte>)
    ensures match NextField(schema, utf8, b)
            case Known(i, v, _) => TypedValue(schema[i], utf8, v)
            case Other(u, _) => Valid(u, MAX_DEPTH) && !IsKnown(schema, TagOf(u))
            case _ => true
  {
    if NextField(schema, utf8, b).Other? {
      SkippedIsValid(ReadTag(b).1, ReadTag(b).0, MAX_DEPTH);
    }
  }

  /** Whatever bytes are parsed, the message stays well formed. */
  lemma {:induction false} ParseKeepsWellFormed(schema: Schema, utf8: seq<byte> -> bool, b: seq<byte>, m: Message)
    requires WellFormed(schema, utf8, m) && Parse(schema, utf8, b, m).Some?
    ensures WellFormed(schema, utf8, Parse(schema, utf8, b, m).value)
    decreases |b|
  {
    ReadIsWellFormed(schema, utf8, b);
    match NextField(schema, utf8, b)
    case End =>
    case Known(i, v, rest) =>
      AssignedStaysWellFormed(schema, utf8, m, i, v);
      ParseKeepsWellFormed(schema, utf8, rest, Assign(m, i, v));
    case Other(u, rest) =>
      SkippedStaysWellFormed(schema, utf8, m, u);
      ParseKeepsWellFormed(schema, utf8, rest, Keep(m, u));
  }

  /** Serialising is canonical: for any bytes that parse, in any field order and encoding, the parsed message is the one
      that its own serialisation parses to. */
  lemma ReparseIsIdentity(schema: Schema, utf8: seq<byte> -> bool, b: seq<byte>)
    requires |schema| <= MAX_FIELDS && Parse(schema, utf8, b, Empty(schema)).Some?
    ensures var m := Parse(schema, utf8, b, Empty(schema)).value;
            |m.fields| == |schema| && Parse(schema, utf8, Serialize(schema, m), Empty(schema)) == Some(m)
  {
    EmptyIsWellFormed(schema, utf8);
    ParseKeepsWellFormed(schema, utf8, b, Empty(schema));
    var m := Parse(schema, utf8, b, Empty(schema)).value;
    RoundTrip(schema, utf8, m, m);
  }

  lemma EmptyIsWellFormed(schema: Schema, utf8: seq<byte> -> bool)
    requires |schema| <= MAX_FIELDS
    ensures WellFormed(schema, utf8, Empty(schema))
  {
    assert AllUnknown(schema, []) && Empty(schema).unknown == WriteAll([]);
  }

  // ---------- size ----------

  lemma VarintSizeIsLength(n: nat)
    requires n < TWO_32
    ensures |Varints.Encode(n)| == VarintSize(n)
  {
    assert Varints.Pow128(1) == 0x80 && Varints.Pow128(2) == 0x4000 by {
      assert Varints.Pow128(0) == 1;
      assert Varints.Pow128(1) == 0x80 * Varints.Pow128(0);
    }
    assert Varints.Pow128(4) == 0x80 * Varints.Pow128(3) && Varints.Pow128(3) == 0x80 * Varints.Pow128(2);
    Varints.LengthOfEncodeIff(n, 1);
    Varints.LengthOfEncodeIff(n, 2);
    Varints.LengthOfEncodeIff(n, 3);
    Varints.LengthOfEncodeIff(n, 4);
    Varints.LengthOfEncode(n, 5);
  }

  lemma {:induction false} SizeIsLengthFrom(schema: Schema, utf8: seq<byte> -> bool, m: Message, i: nat)
    requires Typed(schema, utf8, m) && i <= |schema|
    ensures SizeFrom(m, i) == |SerializeFrom(schema, m, i)|
    decreases |schema| - i
  {
    if i < |schema| {
      SizeIsLengthFrom(schema, utf8, m, i + 1);
      var v := m.fields[i];
      assert TypedValue(schema[i], utf8, v);
      VarintSizeIsLength(FieldTag(schema, i));
      VarintSizeIsLength(if v.Num? then v.n else |v.s|);
    }
  }

  /** `ByteSizeLong` is the length of the serialisation. */
  lemma ByteSizeIsLength(schema: Schema, utf8: seq<byte> -> bool, m: Message)
    requires Typed(schema, utf8, m)
    ensures ByteSize(m) == |Serialize(schema, m)|
  {
    SizeIsLengthFrom(schema, utf8, m, 0);
  }

  // ---------- the message classes ----------

  const USER_INFO: Schema := [UInt32, UInt32, Text, Text, UInt32]
  const CHAT_MESSAGE: Schema := [UInt32, UInt32, Text]

  /** The fields up to number `i`. */
  ghost function SerializedUpTo(schema: Schema, m: Message, i: nat): seq<byte>
    requires |m.fields| == |schema| && i <= |schema|
  {
    if i == 0 then [] else SerializedUpTo(schema, m, i - 1) + SerializeField(schema, i - 1, m.fields[i - 1])
  }

  lemma SerializedNothing(schema: Schema, m: Message, output: seq<byte>)
    requires |m.fields| == |schema|
    ensures output == output + SerializedUpTo(schema, m, 0)
  {}

  /** `out` has `output` and the fields up to number `i`, plus field `i + 1` unless that has its default value. */
  lemma SerializedNext(schema: Schema, m: Message, output: seq<byte>, out: seq<byte>, i: nat) returns (next: nat)
    requires |m.fields| == |schema| && i < |schema|
    requires var before := output + SerializedUpTo(schema, m, i);
             out == if IsDefault(m.fields[i]) then before else before + SerializeField(schema, i, m.fields[i])
    ensures next == i + 1 && out == output + SerializedUpTo(schema, m, next)
  {
    next := i + 1;
    Associative(output, SerializedUpTo(schema, m, i), SerializeField(schema, i, m.fields[i]));
  }

  lemma MergedFields(x: Message, y: Message, z: Message)
    requires |x.fields| == |y.fields| == |z.fields| && z.unknown == x.unknown + y.unknown
    requires forall i :: 0 <= i < |x.fields| ==> z.fields[i] == Later(x.fields[i], y.fields[i])
    ensures z == Merge(x, y)
  {
    assert z.fields == Merge(x, y).fields;
  }

  /** `WireFormatLite::WriteUInt32` and `WriteStringMaybeAliased`. */
  method WriteUInt32(number: nat, n: nat, output: seq<byte>) returns (out: seq<byte>)
    ensures out == output + (Varints.Encode(Tag(number, VARINT)) + Varints.Encode(n))
  {
    out := output + (Varints.Encode(Tag(number, VARINT)) + Varints.Encode(n));
  }

  method WriteText(number: nat, s: seq<byte>, output: seq<byte>) returns (out: seq<byte>)
    ensures out == output + (Varints.Encode(Tag(number, DELIMITED)) + WriteString(s))
  {
    out := output + (Varints.Encode(Tag(number, DELIMITED)) + WriteString(s));
  }

  lemma {:induction false} SerializedSplit(schema: Schema, m: Message, i: nat)
    requires |m.fields| == |schema| && i <= |schema|
    ensures SerializedUpTo(schema, m, i) + SerializeFrom(schema, m, i) == Serialize(schema, m)
  {
    if i == 0 {
      assert [] + SerializeFrom(schema, m, 0) == SerializeFrom(schema, m, 0);
    } else {
      SerializedSplit(schema, m, i - 1);
      var done, later := SerializedUpTo(schema, m, i - 1), SerializeFrom(schema, m, i);
      var field := SerializeField(schema, i - 1, m.fields[i - 1]);
      assert SerializedUpTo(schema, m, i) == done + field && SerializeFrom(schema, m, i - 1) == field + later;
      Associative(done, field, later);
    }
  }

  lemma SerializedEnd(schema: Schema, m: Message, output: seq<byte>)
    requires |m.fields| == |schema|
    ensures (output + SerializedUpTo(schema, m, |schema|)) + m.unknown == output + Serialize(schema, m)
  {
    SerializedSplit(schema, m, |schema|);
    Associative(output, SerializedUpTo(schema, m, |schema|), m.unknown);
  }

  datatype Verdict = More | Done | Failed

  function VerdictOn(r: FieldRead): Verdict {
    match r
    case End => Done
    case Malformed => Failed
    case _ => More
  }

  /** The message after a round that has read `r`. */
  function Apply(m: Message, r: FieldRead): Message
    requires r.Known? ==> r.i < |m.fields|
  {
    match r
    case Known(i, v, _) => Assign(m, i, v)
    case Other(u, _) => Keep(m, u)
    case _ => m
  }

  lemma NumberIsRead(schema: Schema, utf8: seq<byte> -> bool, i: nat, b: seq<byte>)
    requires i < |schema| <= MAX_FIELDS && schema[i].UInt32?
    ensures ReadField(schema, utf8, 8 * i + 8, b)
            == match ReadVarint32(b) case None => Malformed case Some((n, rest)) => Known(i, Num(n), rest)
  {
    FieldTagIsKnown(schema, i);
  }

  lemma TextIsRead(schema: Schema, utf8: seq<byte> -> bool, i: nat, b: seq<byte>)
    requires i < |schema| <= MAX_FIELDS && schema[i].Text?
    ensures ReadField(schema, utf8, 8 * i + 10, b)
            == match ReadString(b)
               case None => Malformed
               case Some((s, rest)) => if utf8(s) then Known(i, Str(s), rest) else Malformed
  {
    FieldTagIsKnown(schema, i);
  }

  /** The message that the parser has when it stops, and the input in front of which it does. */
  function ParsedUpTo(schema: Schema, utf8: seq<byte> -> bool, b: seq<byte>, m: Message): (r: (Message, seq<byte>))
    requires |m.fields| == |schema|
    ensures |r.0.fields| == |schema|
    decreases |b|
  {
    match NextField(schema, utf8, b)
    case Known(i, v, rest) => ParsedUpTo(schema, utf8, rest, Assign(m, i, v))
    case Other(u, rest) => ParsedUpTo(schema, utf8, rest, Keep(m, u))
    case _ => (m, b)
  }

  /** Parsing succeeds if and only if the parser stops in front of an end. */
  lemma {:induction false} ParseIsParsedUpTo(schema: Schema, utf8: seq<byte> -> bool, b: seq<byte>, m: Message)
    requires |m.fields| == |schema|
    ensures var (m', rest) := ParsedUpTo(schema, utf8, b, m);
            && !NextField(schema, utf8, rest).Known? && !NextField(schema, utf8, rest).Other?
            && Parse(schema, utf8, b, m) == if NextField(schema, utf8, rest).End? then Some(m') else None
    decreases |b|
  {
    var next := NextField(schema, utf8, b);
    if next.Known? || next.Other? {
      ParseIsParsedUpTo(schema, utf8, next.rest, Apply(m, next));
    }
  }

  /** `m'` is what may be left of `m` after a field with tag `tag` could not be read: every other field is as it was,
      and so are the unknown fields, except that some bytes of this one may follow. */
  ghost predicate Untouched(schema: Schema, m: Message, m': Message, tag: nat)
    requires |m.fields| == |m'.fields| == |schema|
  {
    if IsKnown(schema, tag) then
      var i := tag / 8 - 1; m' == Assign(m, i, m'.fields[i])
    else
      m'.fields == m.fields && m.unknown <= m'.unknown
  }

  /** What a round leaves: `m'` from `m`, by reading `next` under tag `tag`. */
  ghost predicate RoundLeaves(schema: Schema, tag: nat, next: FieldRead, m: Message, m': Message)
    requires |m.fields| == |m'.fields| == |schema| && (next.Known? ==> next.i < |schema|)
  {
    if next.Malformed? then Untouched(schema, m, m', tag) else m' == Apply(m, next)
  }

  /** The case of a number in the switch; a number that cannot be read leaves the field, `n`, as it is. */
  method ReadNumber(schema: Schema, utf8: seq<byte> -> bool, i: nat, body: seq<byte>, n: nat, ghost m: Message)
    returns (verdict: Verdict, rest: seq<byte>, n': nat)
    requires i < |schema| == |m.fields| && |schema| <= MAX_FIELDS && schema[i].UInt32? && m.fields[i] == Num(n)
    ensures var next := ReadField(schema, utf8, 8 * i + 8, body);
            && verdict == VerdictOn(next) && (verdict.More? ==> rest == next.rest)
            && RoundLeaves(schema, 8 * i + 8, next, m, Assign(m, i, Num(n')))
  {
    FieldTagIsKnown(schema, i);
    NumberIsRead(schema, utf8, i, body);
    var r := ReadVarint32(body);
    if r.None? {
      return Failed, body, n;
    }
    return More, r.value.1, r.value.0;
  }

  /** The case of a string in the switch, which is read into the field and then checked. */
  method ReadText(schema: Schema, utf8: seq<byte> -> bool, i: nat, body: seq<byte>, ghost m: Message)
    returns (verdict: Verdict, rest: seq<byte>, s: seq<byte>)
    requires i < |schema| == |m.fields| && |schema| <= MAX_FIELDS && schema[i].Text?
    ensures var next := ReadField(schema, utf8, 8 * i + 10, body);
            && verdict == VerdictOn(next) && (verdict.More? ==> rest == next.rest)
            && RoundLeaves(schema, 8 * i + 10, next, m, Assign(m, i, Str(s)))
  {
    FieldTagIsKnown(schema, i);
    TextIsRead(schema, utf8, i, body);
    var r := ReadString(body);
    if r.None? {
      return Failed, body, [];
    }
    s := r.value.0;
    if !utf8(s) {
      return Failed, body, s;
    }
    return More, r.value.1, s;
  }

  function NumberField(tag: byte, n: nat): seq<byte> {
    if n == 0 then [] else [tag] + Varints.Encode(n)
  }

  function TextField(tag: byte, s: seq<byte>): seq<byte> {
    if s == [] then [] else [tag] + (Varints.Encode(|s|) + s)
  }

  function FieldBytes(tag: byte, v: Value): seq<byte> {
    match v case Num(n) => NumberField(tag, n) case Str(s) => TextField(tag, s)
  }

  lemma FieldLayout(schema: Schema, i: nat, v: Value, tag: byte)
    requires i < |schema| <= MAX_FIELDS && tag < 128 && (v.Num? <==> schema[i].UInt32?)
    requires tag == 8 * (i + 1) + if schema[i].UInt32? then 0 else 2
    ensures SerializeField(schema, i, v) == FieldBytes(tag, v)
  {}

  lemma NextLayout(schema: Schema, m: Message, i: nat, before: seq<byte>, tag: byte) returns (bytes: seq<byte>)
    requires i < |schema| == |m.fields| && |schema| <= MAX_FIELDS && (m.fields[i].Num? <==> schema[i].UInt32?)
    requires tag == 8 * (i + 1) + (if schema[i].UInt32? then 0 else 2) && before == SerializedUpTo(schema, m, i)
    ensures bytes == SerializedUpTo(schema, m, i + 1)
    ensures bytes == if i == 0 then FieldBytes(tag, m.fields[i]) else before + FieldBytes(tag, m.fields[i])
  {
    FieldLayout(schema, i, m.fields[i], tag);
    bytes := SerializedUpTo(schema, m, i + 1);
    if i == 0 { assert [] + FieldBytes(tag, m.fields[0]) == FieldBytes(tag, m.fields[0]); }
  }

  class UserInfo {
    var userId: nat
    var userGender: nat
    var userNickName: seq<byte>
    var passwd: seq<byte>
    var status: nat
    var unknown: seq<byte>

    function View(): (m: Message)
      reads this
      ensures |m.fields| == |USER_INFO|
    {
      Message([Num(userId), Num(userGender), Str(userNickName), Str(passwd), Num(status)], unknown)
    }

    constructor ()
      ensures View() == Empty(USER_INFO)
    {
      userId, userGender, userNickName, passwd, status, unknown := 0, 0, [], [], 0, [];
    }

    method Clear()
      modifies this
      ensures View() == Empty(USER_INFO)
    {
      userNickName, passwd, userId, userGender, status := [], [], 0, 0, 0;
      unknown := [];
    }

    method MergeFrom(from: UserInfo)
      requires from != this
      modifies this
      ensures View() == Merge(old(View()), from.View())
    {
      unknown := unknown + from.unknown;
      if from.userNickName != [] {
        userNickName := from.userNickName;
      }
      assert Str(userNickName) == Later(Str(old(userNickName)), Str(from.userNickName));
      if from.passwd != [] {
        passwd := from.passwd;
      }
      assert Str(passwd) == Later(Str(old(passwd)), Str(from.passwd));
      MergeNumbers(from);
      MergedFields(old(View()), from.View(), View());
    }

    method MergeNumbers(from: UserInfo)
      requires from != this
      modifies this`userId, this`userGender, this`status
      ensures Num(userId) == Later(Num(old(userId)), Num(from.userId))
      ensures Num(userGender) == Later(Num(old(userGender)), Num(from.userGender))
      ensures Num(status) == Later(Num(old(status)), Num(from.status))
    {
      if from.userId != 0 {
        userId := from.userId;
      }
      assert Num(userId) == Later(Num(old(userId)), Num(from.userId));
      if from.userGender != 0 {
        userGender := from.userGender;
      }
      assert Num(userGender) == Later(Num(old(userGender)), Num(from.userGender));
      if from.status != 0 {
        status := from.status;
      }
      assert Num(status) == Later(Num(old(status)), Num(from.status));
    }

    /** Copying onto itself leaves a message as it is. */
    method CopyFrom(from: UserInfo)
      modifies this
      ensures View() == old(from.View())
    {
      if from == this {
        return;
      }
      Clear();
      MergeFrom(from);
      assert [] + from.unknown == from.unknown;
    }

    /** The bytes of the message: the fields in order, each under its tag, and then the unknown ones. */
    lemma Layout()
      ensures Serialize(USER_INFO, View())
              == NumberField(8, userId)
                 + NumberField(16, userGender)
                 + TextField(26, userNickName)
                 + TextField(34, passwd)
                 + NumberField(40, status)
                 + unknown
    {
      var m, s := View(), [];
      s := NextLayout(USER_INFO, m, 0, s, 8);
      s := NextLayout(USER_INFO, m, 1, s, 16);
      s := NextLayout(USER_INFO, m, 2, s, 26);
      s := NextLayout(USER_INFO, m, 3, s, 34);
      s := NextLayout(USER_INFO, m, 4, s, 40);
      SerializedSplit(USER_INFO, m, 5);
    }

    method ByteSizeLong() returns (size: nat)
      ensures size == ByteSize(View())
    {
      size := |unknown|;
      if userNickName != [] {
        size := size + 1 + VarintSize(|userNickName|) + |userNickName|;
      }
      assert size == |unknown| + FieldSize(Str(userNickName));
      if passwd != [] {
        size := size + 1 + VarintSize(|passwd|) + |passwd|;
      }
      assert size == |unknown| + FieldSize(Str(userNickName)) + FieldSize(Str(passwd));
      if userId != 0 {
        size := size + 1 + VarintSize(userId);
      }
      assert size == |unknown| + FieldSize(Str(userNickName)) + FieldSize(Str(passwd)) + FieldSize(Num(userId));
      if userGender != 0 {
        size := size + 1 + VarintSize(userGender);
      }
      assert size == |unknown| + FieldSize(Str(userNickName)) + FieldSize(Str(passwd)) + FieldSize(Num(userId))
                     + FieldSize(Num(userGender));
      if status != 0 {
        size := size + 1 + VarintSize(status);
      }
      assert size == |unknown| + FieldSize(Str(userNickName)) + FieldSize(Str(passwd)) + FieldSize(Num(userId))
                     + FieldSize(Num(userGender)) + FieldSize(Num(status));
      ghost var m := View();
      assert SizeFrom(m, 4) == FieldSize(Num(status)) + SizeFrom(m, 5);
      assert SizeFrom(m, 3) == FieldSize(Str(passwd)) + SizeFrom(m, 4);
      assert SizeFrom(m, 2) == FieldSize(Str(userNickName)) + SizeFrom(m, 3);
      assert SizeFrom(m, 1) == FieldSize(Num(userGender)) + SizeFrom(m, 2);
      assert SizeFrom(m, 0) == FieldSize(Num(userId)) + SizeFrom(m, 1);
    }

    method SerializeWithCachedSizes(output: seq<byte>) returns (out: seq<byte>)
      ensures out == output + Serialize(USER_INFO, View())
    {
      ghost var m, i := View(), 0;
      out := output;
      SerializedNothing(USER_INFO, m, output);
      if userId != 0 {
        out := WriteUInt32(1, userId, out);
      }
      i := SerializedNext(USER_INFO, m, output, out, i);
      if userGender != 0 {
        out := WriteUInt32(2, userGender, out);
      }
      i := SerializedNext(USER_INFO, m, output, out, i);
      if userNickName != [] {
        out := WriteText(3, userNickName, out);
      }
      i := SerializedNext(USER_INFO, m, output, out, i);
      if passwd != [] {
        out := WriteText(4, passwd, out);
      }
      i := SerializedNext(USER_INFO, m, output, out, i);
      if status != 0 {
        out := WriteUInt32(5, status, out);
      }
      i := SerializedNext(USER_INFO, m, output, out, i);
      out := out + unknown;
      SerializedEnd(USER_INFO, m, output);
    }

    /** One round of the loop of `MergePartialFromCodedStream`. */
    method ReadOne(utf8: seq<byte> -> bool, b: seq<byte>) returns (verdict: Verdict, rest: seq<byte>)
      modifies this
      ensures var next := NextField(USER_INFO, utf8, b);
              && verdict == VerdictOn(next)
              && (verdict.More? ==> rest == next.rest)
              && RoundLeaves(USER_INFO, ReadTag(b).0, next, old(View()), View())
    {
      var (tag, body) := ReadTag(b);
      verdict, rest := Switch(utf8, tag, body);
    }

    /** The switch over the tag, in three parts. */
    method Switch(utf8: seq<byte> -> bool, tag: nat, body: seq<byte>) returns (verdict: Verdict, rest: seq<byte>)
      modifies this
      ensures var next := ReadField(USER_INFO, utf8, tag, body);
              && verdict == VerdictOn(next)
              && (verdict.More? ==> rest == next.rest)
              && RoundLeaves(USER_INFO, tag, next, old(View()), View())
    {
      ghost var m := View();
      if tag == 8 {
        verdict, rest, userId := ReadNumber(USER_INFO, utf8, 0, body, userId, m);
        assert View() == Assign(m, 0, Num(userId));
      } else if tag == 16 {
        verdict, rest, userGender := ReadNumber(USER_INFO, utf8, 1, body, userGender, m);
        assert View() == Assign(m, 1, Num(userGender));
      } else {
        verdict, rest := SwitchTexts(utf8, tag, body);
      }
    }

    method SwitchTexts(utf8: seq<byte> -> bool, tag: nat, body: seq<byte>) returns (verdict: Verdict, rest: seq<byte>)
      requires tag !in {8, 16}
      modifies this
      ensures var next := ReadField(USER_INFO, utf8, tag, body);
              && verdict == VerdictOn(next)
              && (verdict.More? ==> rest == next.rest)
              && RoundLeaves(USER_INFO, tag, next, old(View()), View())
    {
      ghost var m := View();
      if tag == 26 {
        verdict, rest, userNickName := ReadText(USER_INFO, utf8, 2, body, m);
        assert View() == Assign(m, 2, Str(userNickName));
      } else if tag == 34 {
        verdict, rest, passwd := ReadText(USER_INFO, utf8, 3, body, m);
        assert View() == Assign(m, 3, Str(passwd));
      } else {
        verdict, rest := SwitchLast(utf8, tag, body);
      }
    }

    method SwitchLast(utf8: seq<byte> -> bool, tag: nat, body: seq<byte>) returns (verdict: Verdict, rest: seq<byte>)
      requires tag !in {8, 16, 26, 34}
      modifies this
      ensures var next := ReadField(USER_INFO, utf8, tag, body);
              && verdict == VerdictOn(next)
              && (verdict.More? ==> rest == next.rest)
              && RoundLeaves(USER_INFO, tag, next, old(View()), View())
    {
      ghost var m := View();
      if tag == 40 {
        verdict, rest, status := ReadNumber(USER_INFO, utf8, 4, body, status, m);
        assert View() == Assign(m, 4, Num(status));
      } else {
        UserInfoTags(tag);
        verdict, rest := HandleUnusual(utf8, tag, body);
      }
    }

    /** The label `handle_unusual`: the end, or a field that is not known. */
    method HandleUnusual(utf8: seq<byte> -> bool, tag: nat, body: seq<byte>) returns (verdict: Verdict, rest: seq<byte>)
      requires !IsKnown(USER_INFO, tag)
      modifies this`unknown
      ensures var next := ReadField(USER_INFO, utf8, tag, body);
              && verdict == VerdictOn(next)
              && (verdict.More? ==> rest == next.rest)
              && unknown == old(unknown) + if next.Other? then Write(next.u) else []
    {
      if tag == 0 {
        return Done, body;
      }
      var r := SkipField(body, tag, MAX_DEPTH);
      if r.None? {
        return Failed, body;
      }
      unknown := unknown + Write(r.value.0);
      return More, r.value.1;
    }

    /** On success the message is the one that `Parse` gives.  On failure it holds what was read before, and nothing is
        said of the field that could not be read. */
    method MergePartialFromCodedStream(utf8: seq<byte> -> bool, input: seq<byte>) returns (ok: bool)
      modifies this
      ensures var r := Parse(USER_INFO, utf8, input, old(View()));
              ok == r.Some? && (ok ==> View() == r.value)
      ensures var (m, rest) := ParsedUpTo(USER_INFO, utf8, input, old(View()));
              !ok ==> Untouched(USER_INFO, m, View(), ReadTag(rest).0)
    {
      var b := input;
      ParseIsParsedUpTo(USER_INFO, utf8, input, View());
      while true
        invariant ParsedUpTo(USER_INFO, utf8, b, View()) == ParsedUpTo(USER_INFO, utf8, input, old(View()))
        decreases |b|
      {
        var verdict, rest := ReadOne(utf8, b);
        if !verdict.More? {
          return verdict.Done?;
        }
        b := rest;
      }
    }
  }

  lemma UserInfoTags(tag: nat)
    ensures IsKnown(USER_INFO, tag) <==> tag in {8, 16, 26, 34, 40}
  {
    if 0 < tag / 8 <= |USER_INFO| { assert tag == 8 * (tag / 8) + tag % 8; }
  }

  class ChatMessage {
    var sendId: nat
    var targetId: nat
    var chatData: seq<byte>
    var unknown: seq<byte>

    function View(): (m: Message)
      reads this
      ensures |m.fields| == |CHAT_MESSAGE|
    {
      Message([Num(sendId), Num(targetId), Str(chatData)], unknown)
    }

    constructor ()
      ensures View() == Empty(CHAT_MESSAGE)
    {
      sendId, targetId, chatData, unknown := 0, 0, [], [];
    }

    method Clear()
      modifies this
      ensures View() == Empty(CHAT_MESSAGE)
    {
      chatData, sendId, targetId := [], 0, 0;
      unknown := [];
    }

    method MergeFrom(from: ChatMessage)
      requires from != this
      modifies this
      ensures View() == Merge(old(View()), from.View())
    {
      unknown := unknown + from.unknown;
      if from.chatData != [] {
        chatData := from.chatData;
      }
      assert Str(chatData) == Later(Str(old(chatData)), Str(from.chatData));
      if from.sendId != 0 {
        sendId := from.sendId;
      }
      assert Num(sendId) == Later(Num(old(sendId)), Num(from.sendId));
      if from.targetId != 0 {
        targetId := from.targetId;
      }
      assert Num(targetId) == Later(Num(old(targetId)), Num(from.targetId));
      MergedFields(old(View()), from.View(), View());
    }

    /** Copying onto itself leaves a message as it is. */
    method CopyFrom(from: ChatMessage)
      modifies this
      ensures View() == old(from.View())
    {
      if from == this {
        return;
      }
      Clear();
      MergeFrom(from);
      assert [] + from.unknown == from.unknown;
    }

    /** The bytes of the message: the fields in order, each under its tag, and then the unknown ones. */
    lemma Layout()
      ensures Serialize(CHAT_MESSAGE, View())
              == NumberField(8, sendId)
                 + NumberField(16, targetId)
                 + TextField(26, chatData)
                 + unknown
    {
      var m, s := View(), [];
      s := NextLayout(CHAT_MESSAGE, m, 0, s, 8);
      s := NextLayout(CHAT_MESSAGE, m, 1, s, 16);
      s := NextLayout(CHAT_MESSAGE, m, 2, s, 26);
      SerializedSplit(CHAT_MESSAGE, m, 3);
    }

    method ByteSizeLong() returns (size: nat)
      ensures size == ByteSize(View())
    {
      size := |unknown|;
      if chatData != [] {
        size := size + 1 + VarintSize(|chatData|) + |chatData|;
      }
      assert size == |unknown| + FieldSize(Str(chatData));
      if sendId != 0 {
        size := size + 1 + VarintSize(sendId);
      }
      assert size == |unknown| + FieldSize(Str(chatData)) + FieldSize(Num(sendId));
      if targetId != 0 {
        size := size + 1 + VarintSize(targetId);
      }
      assert size == |unknown| + FieldSize(Str(chatData)) + FieldSize(Num(sendId)) + FieldSize(Num(targetId));
      ghost var m := View();
      assert SizeFrom(m, 2) == FieldSize(Str(chatData)) + SizeFrom(m, 3);
      assert SizeFrom(m, 1) == FieldSize(Num(targetId)) + SizeFrom(m, 2);
      assert SizeFrom(m, 0) == FieldSize(Num(sendId)) + SizeFrom(m, 1);
    }

    method SerializeWithCachedSizes(output: seq<byte>) returns (out: seq<byte>)
      ensures out == output + Serialize(CHAT_MESSAGE, View())
    {
      ghost var m, i := View(), 0;
      out := output;
      SerializedNothing(CHAT_MESSAGE, m, output);
      if sendId != 0 {
        out := WriteUInt32(1, sendId, out);
      }
      i := SerializedNext(CHAT_MESSAGE, m, output, out, i);
      if targetId != 0 {
        out := WriteUInt32(2, targetId, out);
      }
      i := SerializedNext(CHAT_MESSAGE, m, output, out, i);
      if chatData != [] {
        out := WriteText(3, chatData, out);
      }
      i := SerializedNext(CHAT_MESSAGE, m, output, out, i);
      out := out + unknown;
      SerializedEnd(CHAT_MESSAGE, m, output);
    }

    /** One round of the loop of `MergePartialFromCodedStream`. */
    method ReadOne(utf8: seq<byte> -> bool, b: seq<byte>) returns (verdict: Verdict, rest: seq<byte>)
      modifies this
      ensures var next := NextField(CHAT_MESSAGE, utf8, b);
              && verdict == VerdictOn(next)
              && (verdict.More? ==> rest == next.rest)
              && RoundLeaves(CHAT_MESSAGE, ReadTag(b).0, next, old(View()), View())
    {
      var (tag, body) := ReadTag(b);
      verdict, rest := Switch(utf8, tag, body);
    }

    method Switch(utf8: seq<byte> -> bool, tag: nat, body: seq<byte>) returns (verdict: Verdict, rest: seq<byte>)
      modifies this
      ensures var next := ReadField(CHAT_MESSAGE, utf8, tag, body);
              && verdict == VerdictOn(next)
              && (verdict.More? ==> rest == next.rest)
              && RoundLeaves(CHAT_MESSAGE, tag, next, old(View()), View())
    {
      ghost var m := View();
      if tag == 8 {
        verdict, rest, sendId := ReadNumber(CHAT_MESSAGE, utf8, 0, body, sendId, m);
        assert View() == Assign(m, 0, Num(sendId));
      } else if tag == 16 {
        verdict, rest, targetId := ReadNumber(CHAT_MESSAGE, utf8, 1, body, targetId, m);
        assert View() == Assign(m, 1, Num(targetId));
      } else if tag == 26 {
        verdict, rest, chatData := ReadText(CHAT_MESSAGE, utf8, 2, body, m);
        assert View() == Assign(m, 2, Str(chatData));
      } else {
        ChatMessageTags(tag);
        verdict, rest := HandleUnusual(utf8, tag, body);
      }
    }

    /** The label `handle_unusual`: the end, or a field that is not known. */
    method HandleUnusual(utf8: seq<byte> -> bool, tag: nat, body: seq<byte>) returns (verdict: Verdict, rest: seq<byte>)
      requires !IsKnown(CHAT_MESSAGE, tag)
      modifies this`unknown
      ensures var next := ReadField(CHAT_MESSAGE, utf8, tag, body);
              && verdict == VerdictOn(next)
              && (verdict.More? ==> rest == next.rest)
              && unknown == old(unknown) + if next.Other? then Write(next.u) else []
    {
      if tag == 0 {
        return Done, body;
      }
      var r := SkipField(body, tag, MAX_DEPTH);
      if r.None? {
        return Failed, body;
      }
      unknown := unknown + Write(r.value.0);
      return More, r.value.1;
    }

    /** On success the message is the one that `Parse` gives.  On failure it holds what was read before, and nothing is
        said of the field that could not be read. */
    method MergePartialFromCodedStream(utf8: seq<byte> -> bool, input: seq<byte>) returns (ok: bool)
      modifies this
      ensures var r := Parse(CHAT_MESSAGE, utf8, input, old(View()));
              ok == r.Some? && (ok ==> View() == r.value)
      ensures var (m, rest) := ParsedUpTo(CHAT_MESSAGE, utf8, input, old(View()));
              !ok ==> Untouched(CHAT_MESSAGE, m, View(), ReadTag(rest).0)
    {
      var b := input;
      ParseIsParsedUpTo(CHAT_MESSAGE, utf8, input, View());
      while true
        invariant ParsedUpTo(CHAT_MESSAGE, utf8, b, View()) == ParsedUpTo(CHAT_MESSAGE, utf8, input, old(View()))
        decreases |b|
      {
        var verdict, rest := ReadOne(utf8, b);
        if !verdict.More? {
          return verdict.Done?;
        }
        b := rest;
      }
    }
  }

  lemma ChatMessageTags(tag: nat)
    ensures IsKnown(CHAT_MESSAGE, tag) <==> tag in {8, 16, 26}
  {
    if 0 < tag / 8 <= |CHAT_MESSAGE| { assert tag == 8 * (tag / 8) + tag % 8; }
  }
}
