/** The metadata-driven encoding. A schema is the enumeration of a class's fields that the
    encoder and the decoder share; an object maps field offsets to values. */
module Encoding {

  type Byte = b: int | 0 <= b < 256

  type Int32 = i: int | -0x8000_0000 <= i < 0x8000_0000

  datatype FieldType = INT32 | STRING

  datatype MetaField = MetaField(name: string, fieldType: FieldType, offset: nat)

  type Schema = seq<MetaField>

  datatype Value = Number(i: Int32) | Text(bytes: seq<Byte>)

  type Object = map<nat, Value>

  predicate HasField(o: Object, f: MetaField) {
    f.offset in o && (f.fieldType == INT32 <==> o[f.offset].Number?)
  }

  /** Every field of the schema lies in the object with its type. */
  predicate Typed(o: Object, schema: Schema) {
    forall f | f in schema :: HasField(o, f)
  }

  // ---------------------------------------------------------------- 32-bit integers as bytes

  /** The conversion of a size to int32_t. */
  function Wrap(n: int): (r: Int32)
    ensures r % 0x1_0000_0000 == n % 0x1_0000_0000
  {
    var low := n % 0x1_0000_0000;
    if low < 0x8000_0000 then low else low - 0x1_0000_0000
  }

  lemma BytesAddUp(u: nat)
    ensures u % 0x100 + 0x100 * (u / 0x100 % 0x100) + 0x1_0000 * (u / 0x1_0000 % 0x100) + 0x100_0000 * (u / 0x100_0000) == u
  {
    DivTwice(u);
    var q1 := u / 0x100;
    var q2 := q1 / 0x100;
    assert u == 0x100 * q1 + u % 0x100 && q1 == 0x100 * q2 + q1 % 0x100 && q2 == 0x100 * (q2 / 0x100) + q2 % 0x100;
  }

  /** Little-endian two's complement. */
  function EncodeInt(i: Int32): (r: seq<Byte>)
    ensures |r| == 4
    ensures var b0: int, b1: int, b2: int, b3: int := r[0], r[1], r[2], r[3];
            b0 + 0x100 * b1 + 0x1_0000 * b2 + 0x100_0000 * b3 == if i >= 0 then i else i + 0x1_0000_0000
  {
    var u := i % 0x1_0000_0000;
    BytesAddUp(u);
    [u % 0x100, u / 0x100 % 0x100, u / 0x1_0000 % 0x100, u / 0x100_0000]
  }

  function Word(b: seq<Byte>): int
    requires |b| >= 4
  {
    var b0: int, b1: int, b2: int, b3: int := b[0], b[1], b[2], b[3];
    b0 + 0x100 * b1 + 0x1_0000 * b2 + 0x100_0000 * b3
  }

  function DecodeInt(b: seq<Byte>): Int32
    requires |b| >= 4
  {
    Wrap(Word(b))
  }

  lemma SplitByte(b: int, m: int)
    requires 0 <= b < 0x100
    ensures (b + 0x100 * m) / 0x100 == m && (b + 0x100 * m) % 0x100 == b
  {
  }

  lemma DivTwice(u: nat)
    ensures u / 0x1_0000 == u / 0x100 / 0x100 && u / 0x100_0000 == u / 0x100 / 0x100 / 0x100
  {
  }

  lemma WrapUnwrapped(n: nat)
    requires n < 0x1_0000_0000
    ensures Wrap(n) % 0x1_0000_0000 == n
  {
  }

  lemma IntRoundTrip(i: Int32, rest: seq<Byte>)
    ensures DecodeInt(EncodeInt(i) + rest) == i
  {
    var u := i % 0x1_0000_0000;
    DivTwice(u);
    var q1 := u / 0x100;
    var q2 := q1 / 0x100;
    var q3 := q2 / 0x100;
    assert u == 0x100 * q1 + u % 0x100 && q1 == 0x100 * q2 + q1 % 0x100 && q2 == 0x100 * q3 + q2 % 0x100;
    assert Word(EncodeInt(i) + rest) == u;
  }

  lemma BytesRoundTrip(b: seq<Byte>)
    requires |b| == 4
    ensures EncodeInt(DecodeInt(b)) == b
  {
    var b0: int, b1: int, b2: int, b3: int := b[0], b[1], b[2], b[3];
    var u := Word(b);
    WrapUnwrapped(u);
    SplitByte(b0, b1 + 0x100 * (b2 + 0x100 * b3));
    SplitByte(b1, b2 + 0x100 * b3);
    SplitByte(b2, b3);
    DivTwice(u);
  }

  lemma WrapIsExactBelow(n: nat)
    ensures Wrap(n) == n <==> n < 0x8000_0000
  {
  }

  // ---------------------------------------------------------------- objects

  function EncodeValue(v: Value): seq<Byte> {
    match v
    case Number(i) => EncodeInt(i)
    case Text(bytes) => EncodeInt(Wrap(|bytes|)) + bytes
  }

  function Encode(o: Object, schema: Schema): seq<Byte>
    requires Typed(o, schema)
  {
    if schema == [] then []
    else
      var f := schema[|schema| - 1];
      assert f in schema;
      Encode(o, schema[..|schema| - 1]) + EncodeValue(o[f.offset])
  }

  /** What one field's bytes decode to, and how many there are. Reading past the end of the
      data, or a negative length, has no defined outcome. */
  datatype Decoded = Undefined | Field(value: Value, length: nat)

  function DecodeValue(t: FieldType, data: seq<Byte>): (r: Decoded)
    ensures r.Field? ==> r.length <= |data| && (t == INT32 <==> r.value.Number?)
    ensures r.Field? && r.value.Text? ==> |r.value.bytes| < 0x8000_0000
  {
    if |data| < 4 then Undefined
    else if t == INT32 then Field(Number(DecodeInt(data)), 4)
    else
      var length := DecodeInt(data);
      if length < 0 || |data| < 4 + length then Undefined
      else Field(Text(data[4..4 + length]), 4 + length)
  }

  datatype Result = Failed | Read(target: Object, offset: nat)

  /** The object after the first fields of the schema were read into it from the data, and the offset reached. */
  function Decode(o: Object, schema: Schema, data: seq<Byte>): (r: Result)
    ensures r.Read? ==> r.offset <= |data|
  {
    if schema == [] then Read(o, 0)
    else
      var f := schema[|schema| - 1];
      match Decode(o, schema[..|schema| - 1], data)
      case Failed => Failed
      case Read(o', offset) =>
        match DecodeValue(f.fieldType, data[offset..])
        case Undefined => Failed
        case Field(v, length) => Read(o'[f.offset := v], offset + length)
  }

  predicate ShortText(v: Value) {
    v.Text? ==> |v.bytes| < 0x8000_0000
  }

  /** No string field is as long as 2^31 bytes. */
  predicate ShortTexts(o: Object, schema: Schema)
    requires Typed(o, schema)
  {
    forall f | f in schema :: ShortText(o[f.offset])
  }

  /** Object o after the schema's fields were overwritten with those of src. */
  ghost predicate Copied(o: Object, src: Object, schema: Schema, r: Object)
    requires Typed(src, schema)
  {
    && (forall f | f in schema :: f.offset in r && r[f.offset] == src[f.offset])
    && (forall x | x in o :: x in r && (r[x] == o[x] || exists f | f in schema :: f.offset == x))
    && (forall x | x in r :: x in o || exists f | f in schema :: f.offset == x)
  }

  lemma ValueRoundTrip(t: FieldType, v: Value, rest: seq<Byte>)
    requires (t == INT32 <==> v.Number?) && ShortText(v)
    ensures DecodeValue(t, EncodeValue(v) + rest) == Field(v, |EncodeValue(v)|)
  {
    match v
    case Number(i) =>
      IntRoundTrip(i, rest);
    case Text(bytes) =>
      WrapIsExactBelow(|bytes|);
      IntRoundTrip(|bytes|, bytes + rest);
      assert EncodeValue(v) + rest == EncodeInt(|bytes|) + (bytes + rest);
      assert (EncodeValue(v) + rest)[4..4 + |bytes|] == bytes;
  }

  lemma CopiedOneMore(o: Object, src: Object, part: Schema, f: MetaField, r: Object)
    requires Typed(src, part) && HasField(src, f) && Copied(o, src, part, r)
    ensures Typed(src, part + [f]) && Copied(o, src, part + [f], r[f.offset := src[f.offset]])
  {
    var r' := r[f.offset := src[f.offset]];
    assert f in part + [f];
    forall x | x in o
      ensures r'[x] == o[x] || exists f' | f' in part + [f] :: f'.offset == x
    {
      if exists f' | f' in part :: f'.offset == x {
        var f' :| f' in part && f'.offset == x;
        assert f' in part + [f];
      }
    }
    forall x | x in r'
      ensures x in o || exists f' | f' in part + [f] :: f'.offset == x
    {
      if exists f' | f' in part :: f'.offset == x {
        var f' :| f' in part && f'.offset == x;
        assert f' in part + [f];
      }
    }
  }

  lemma EncodeOneMore(o: Object, part: Schema, f: MetaField)
    requires Typed(o, part) && HasField(o, f)
    ensures Typed(o, part + [f]) && Encode(o, part + [f]) == Encode(o, part) + EncodeValue(o[f.offset])
  {
    assert (part + [f])[..|part|] == part;
  }

  lemma DecodeOneMore(o: Object, part: Schema, f: MetaField, data: seq<Byte>)
    ensures Decode(o, part + [f], data) ==
              match Decode(o, part, data)
              case Failed => Failed
              case Read(o', offset) =>
                match DecodeValue(f.fieldType, data[offset..])
                case Undefined => Failed
                case Field(v, length) => Read(o'[f.offset := v], offset + length)
  {
    assert (part + [f])[..|part|] == part;
  }

  /** Decoding an encoding, whatever object it is read into and whatever bytes follow, restores every
      field of the schema, touches nothing else, and uses exactly the bytes of the encoding. */
  lemma {:induction false} RoundTrip(src: Object, o: Object, schema: Schema, rest: seq<Byte>)
    requires Typed(src, schema) && ShortTexts(src, schema)
    ensures var r := Decode(o, schema, Encode(src, schema) + rest);
            r.Read? && r.offset == |Encode(src, schema)| && Copied(o, src, schema, r.target)
    decreases |schema|
  {
    if schema != [] {
      var part, f := schema[..|schema| - 1], schema[|schema| - 1];
      assert schema == part + [f] && f in schema;
      var code := EncodeValue(src[f.offset]);
      RoundTrip(src, o, part, code + rest);
      EncodeOneMore(src, part, f);
      var head := Encode(src, part);
      var data := head + (code + rest);
      ConcatAssociates(head, code, rest);
      assert Encode(src, schema) + rest == data;
      assert data[|head|..] == code + rest;
      ReadOneMore(o, part, f, data, src[f.offset], rest);
      CopiedOneMore(o, src, part, f, Decode(o, part, data).target);
    }
  }

  lemma ConcatAssociates(a: seq<Byte>, b: seq<Byte>, c: seq<Byte>)
    ensures a + b + c == a + (b + c)
  {
  }

  lemma ReadOneMore(o: Object, part: Schema, f: MetaField, data: seq<Byte>, v: Value, rest: seq<Byte>)
    requires (f.fieldType == INT32 <==> v.Number?) && ShortText(v) && Decode(o, part, data).Read?
    requires data[Decode(o, part, data).offset..] == EncodeValue(v) + rest
    ensures var r := Decode(o, part, data);
            Decode(o, part + [f], data) == Read(r.target[f.offset := v], r.offset + |EncodeValue(v)|)
  {
    DecodeOneMore(o, part, f, data);
    ValueRoundTrip(f.fieldType, v, rest);
  }

  // ---------------------------------------------------------------- where the fields lie

  /** The four bytes at start are the lowest byte first, the highest last, of n modulo 2^32. */
  predicate WordAt(data: seq<Byte>, start: nat, n: int) {
    start + 4 <= |data|
    && var b0: int, b1: int, b2: int, b3: int := data[start], data[start + 1], data[start + 2], data[start + 3];
    b0 + 0x100 * b1 + 0x1_0000 * b2 + 0x100_0000 * b3 == n % 0x1_0000_0000
  }

  function Width(v: Value): nat {
    match v
    case Number(_) => 4
    case Text(bytes) => 4 + |bytes|
  }

  /** A number lies at start as its four bytes, a string as the four bytes of its length before its own. */
  predicate LiesAt(data: seq<Byte>, start: nat, v: Value) {
    start + Width(v) <= |data|
    && match v
       case Number(i) => WordAt(data, start, i)
       case Text(bytes) => WordAt(data, start, |bytes|) && data[start + 4..start + 4 + |bytes|] == bytes
  }

  /** The widths of the first k fields together. */
  function Start(o: Object, schema: Schema, k: nat): nat
    requires Typed(o, schema) && k <= |schema|
  {
    if k == 0 then 0
    else
      assert schema[k - 1] in schema;
      Start(o, schema, k - 1) + Width(o[schema[k - 1].offset])
  }

  /** The fields lie one after the other, in the order of the schema, and nothing else does. */
  ghost predicate LaidOut(o: Object, schema: Schema, data: seq<Byte>)
    requires Typed(o, schema)
  {
    && |data| == Start(o, schema, |schema|)
    && forall k | 0 <= k < |schema| :: FieldLies(o, schema, data, k)
  }

  predicate FieldLies(o: Object, schema: Schema, data: seq<Byte>, k: nat)
    requires Typed(o, schema) && k < |schema|
  {
    assert schema[k] in schema;
    LiesAt(data, Start(o, schema, k), o[schema[k].offset])
  }

  lemma IntLiesAt(head: seq<Byte>, i: Int32, n: int, tail: seq<Byte>)
    requires i % 0x1_0000_0000 == n % 0x1_0000_0000
    ensures WordAt(head + (EncodeInt(i) + tail), |head|, n)
  {
    var r := head + (EncodeInt(i) + tail);
    assert forall x | 0 <= x < 4 :: r[|head| + x] == EncodeInt(i)[x];
    assert r[|head|] == EncodeInt(i)[0];
  }

  lemma ValueLiesAt(data: seq<Byte>, v: Value)
    ensures |EncodeValue(v)| == Width(v) && LiesAt(data + EncodeValue(v), |data|, v)
  {
    match v
    case Number(i) =>
      assert EncodeInt(i) + [] == EncodeInt(i);
      IntLiesAt(data, i, i, []);
    case Text(bytes) =>
      IntLiesAt(data, Wrap(|bytes|), |bytes|, bytes);
      assert (data + EncodeValue(v))[|data| + 4..|data| + 4 + |bytes|] == bytes;
  }

  lemma {:induction false} StartInPart(o: Object, schema: Schema, part: Schema, k: nat)
    requires Typed(o, schema) && k <= |part| <= |schema| && part == schema[..|part|]
    ensures Typed(o, part) && Start(o, part, k) == Start(o, schema, k)
  {
    if k > 0 {
      StartInPart(o, schema, part, k - 1);
    }
  }

  /** The encoding is that layout. */
  lemma {:induction false} EncodingIsLaidOut(o: Object, schema: Schema)
    requires Typed(o, schema)
    ensures LaidOut(o, schema, Encode(o, schema))
    decreases |schema|
  {
    if schema != [] {
      var n := |schema| - 1;
      var part, f, head := schema[..n], schema[n], Encode(o, schema[..n]);
      assert f in schema;
      EncodingIsLaidOut(o, part);
      ValueLiesAt(head, o[f.offset]);
      StartInPart(o, schema, part, n);
      forall k | 0 <= k < n
        ensures FieldLies(o, schema, Encode(o, schema), k)
      {
        StartInPart(o, schema, part, k);
        assert part[k] == schema[k] && schema[k] in schema && FieldLies(o, part, head, k);
        LiesInLonger(head, EncodeValue(o[f.offset]), Start(o, part, k), o[part[k].offset]);
      }
    }
  }

  lemma LiesInLonger(data: seq<Byte>, more: seq<Byte>, start: nat, v: Value)
    requires LiesAt(data, start, v)
    ensures LiesAt(data + more, start, v)
  {
    if v.Text? {
      var n := |v.bytes|;
      assert (data + more)[start + 4..start + 4 + n] == data[start + 4..start + 4 + n];
    }
  }

  lemma DecodedLies(t: FieldType, data: seq<Byte>, start: nat)
    requires start <= |data| && DecodeValue(t, data[start..]).Field?
    ensures var d := DecodeValue(t, data[start..]); d.length == Width(d.value) && LiesAt(data, start, d.value)
  {
    var tail := data[start..];
    assert Word(tail) == Word(data[start..start + 4]) && forall x | 0 <= x < 4 :: tail[x] == data[start + x];
    var d := DecodeValue(t, tail);
    if d.value.Text? {
      assert data[start + 4..start + d.length] == tail[4..d.length];
    }
  }

  /** Whatever decodes, each field gets the value that lies where the fields before it end; of fields
      that share an offset, the last one. */
  lemma {:induction false} DecodedFieldLies(o: Object, schema: Schema, data: seq<Byte>, k: nat)
    requires Decode(o, schema, data).Read? && k < |schema|
    requires forall j | k < j < |schema| :: schema[j].offset != schema[k].offset
    ensures var x, start := schema[k].offset, Decode(o, schema[..k], data);
            && start.Read? && x in Decode(o, schema, data).target
            && LiesAt(data, start.offset, Decode(o, schema, data).target[x])
    decreases |schema|
  {
    var n := |schema| - 1;
    var part := schema[..n];
    if k == n {
      DecodedLies(schema[n].fieldType, data, Decode(o, part, data).offset);
    } else {
      DecodedFieldLies(o, part, data, k);
      assert part[..k] == schema[..k] && part[k] == schema[k] && schema[n].offset != schema[k].offset;
    }
  }

  // ---------------------------------------------------------------- what follows from the round trip

  /** Two encodings by one schema that continue to the same bytes are the same, and so are the fields. */
  lemma EncodingIsPrefixFree(a: Object, b: Object, schema: Schema, restA: seq<Byte>, restB: seq<Byte>)
    requires Typed(a, schema) && ShortTexts(a, schema) && Typed(b, schema) && ShortTexts(b, schema)
    requires Encode(a, schema) + restA == Encode(b, schema) + restB
    ensures restA == restB && forall f | f in schema :: a[f.offset] == b[f.offset]
  {
    var data := Encode(a, schema) + restA;
    RoundTrip(a, map[], schema, restA);
    RoundTrip(b, map[], schema, restB);
    assert data[|Encode(a, schema)|..] == restA && data[|Encode(b, schema)|..] == restB;
  }

  // ---------------------------------------------------------------- strings that are too long

  /** What is decoded for a string field is always shorter than 2^31 bytes. */
  lemma {:induction false} DecodedTextsAreShort(o: Object, schema: Schema, data: seq<Byte>)
    requires Decode(o, schema, data).Read?
    ensures forall f | f in schema :: f.offset in Decode(o, schema, data).target
                                      && ShortText(Decode(o, schema, data).target[f.offset])
  {
    if schema != [] {
      var part, f := schema[..|schema| - 1], schema[|schema| - 1];
      DecodedTextsAreShort(o, part, data);
      assert forall f' | f' in schema :: f' in part || f' == f;
    }
  }

  /** The round trip works, whatever bytes follow, exactly when no string is as long as 2^31 bytes. */
  lemma RoundTripIff(src: Object, o: Object, schema: Schema, rest: seq<Byte>)
    requires Typed(src, schema)
    ensures ShortTexts(src, schema) <==>
              var r := Decode(o, schema, Encode(src, schema) + rest); r.Read? && Copied(o, src, schema, r.target)
  {
    var data := Encode(src, schema) + rest;
    if ShortTexts(src, schema) {
      RoundTrip(src, o, schema, rest);
    } else if Decode(o, schema, data).Read? {
      DecodedTextsAreShort(o, schema, data);
    }
  }
}

module Serializers {
  import opened Encoding

  /** An object whose fields lie at offsets. */
  class Record {
    var fields: Object

    constructor (fields: Object)
      ensures this.fields == fields
    {
      this.fields := fields;
    }
  }

  class MetaClass {
    var fields: Schema  // the enumeration of the original's hash map, one entry per name

    constructor ()
      ensures fields == []
    {
      fields := [];
    }

    /** A field of a name that is already there is replaced where it stands. */
    method AddField(name: string, fieldType: FieldType, offset: nat)
      modifies this
      ensures fields == Put(old(fields), MetaField(name, fieldType, offset))
    {
      var f := MetaField(name, fieldType, offset);
      for i := 0 to |fields|
        invariant fields == old(fields) && forall j | 0 <= j < i :: fields[j].name != name
      {
        if fields[i].name == name {
          PutAt(fields, f, i);
          fields := fields[i := f];
          return;
        }
      }
      PutNew(fields, f);
      fields := fields + [f];
    }
  }

  function Put(fields: Schema, f: MetaField): Schema {
    if fields == [] then [f]
    else if fields[0].name == f.name then [f] + fields[1..]
    else [fields[0]] + Put(fields[1..], f)
  }

  function LookUp(fields: Schema, name: string): seq<MetaField> {
    if fields == [] then [] else if fields[0].name == name then [fields[0]] else LookUp(fields[1..], name)
  }

  /** After the registration of a field its name leads to it, and every other name where it led before. */
  lemma {:induction false} PutEffect(fields: Schema, f: MetaField, name: string)
    ensures LookUp(Put(fields, f), name) == if name == f.name then [f] else LookUp(fields, name)
  {
    if fields != [] && fields[0].name != f.name {
      PutEffect(fields[1..], f, name);
    }
  }

  lemma {:induction false} PutAt(fields: Schema, f: MetaField, i: nat)
    requires i < |fields| && fields[i].name == f.name && forall j | 0 <= j < i :: fields[j].name != f.name
    ensures Put(fields, f) == fields[i := f]
  {
    if i > 0 {
      PutAt(fields[1..], f, i - 1);
    }
  }

  lemma {:induction false} PutNew(fields: Schema, f: MetaField)
    requires forall j | 0 <= j < |fields| :: fields[j].name != f.name
    ensures Put(fields, f) == fields + [f]
  {
    if fields != [] {
      PutNew(fields[1..], f);
    }
  }

  method SerializeObject(object_: Record, metaClass: MetaClass) returns (data: seq<Byte>)
    requires Typed(object_.fields, metaClass.fields)
    ensures data == Encode(object_.fields, metaClass.fields)
    ensures LaidOut(object_.fields, metaClass.fields, data)
  {
    var schema := metaClass.fields;
    data := [];
    for i := 0 to |schema|
      invariant Typed(object_.fields, schema[..i]) && data == Encode(object_.fields, schema[..i])
    {
      var f := schema[i];
      assert schema[..i + 1] == schema[..i] + [f];
      EncodeOneMore(object_.fields, schema[..i], f);
      data := WriteField(object_, f, data);
    }
    assert schema[..|schema|] == schema;
    EncodingIsLaidOut(object_.fields, schema);
  }

  /** The body of the original's loop. */
  method WriteField(object_: Record, f: MetaField, head: seq<Byte>) returns (data: seq<Byte>)
    requires HasField(object_.fields, f)
    ensures data == head + EncodeValue(object_.fields[f.offset])
  {
    if f.fieldType == INT32 {
      var value := object_.fields[f.offset].i;
      data := head + EncodeInt(value);
    } else {
      var value := object_.fields[f.offset].bytes;
      var length := Wrap(|value|);
      data := head + EncodeInt(length);
      data := data + value;
      assert data == head + (EncodeInt(length) + value);
    }
  }

  /** The original checks nothing: the data must hold what the schema reads. */
  method DeserializeObject(object_: Record, metaClass: MetaClass, data: seq<Byte>)
    requires Decode(object_.fields, metaClass.fields, data).Read?
    modifies object_
    ensures object_.fields == Decode(old(object_.fields), metaClass.fields, data).target
  {
    var schema := metaClass.fields;
    ghost var o := object_.fields;
    var offset: nat := 0;
    for i := 0 to |schema|
      invariant Decode(o, schema[..i], data) == Read(object_.fields, offset)
    {
      var f := schema[i];
      assert schema[..i + 1] == schema[..i] + [f];
      DecodeOneMore(o, schema[..i], f, data);
      PrefixDecodes(o, schema, data, i + 1);
      offset := ReadField(object_, f, data, offset);
    }
    assert schema[..|schema|] == schema;
  }

  /** The body of that loop. */
  method ReadField(object_: Record, f: MetaField, data: seq<Byte>, start: nat) returns (offset: nat)
    requires start <= |data| && DecodeValue(f.fieldType, data[start..]).Field?
    modifies object_
    ensures var d := DecodeValue(f.fieldType, data[start..]);
            offset == start + d.length && object_.fields == old(object_.fields)[f.offset := d.value]
  {
    offset := start;
    if f.fieldType == INT32 {
      var value := DecodeInt(data[offset..]);
      object_.fields := object_.fields[f.offset := Number(value)];
      offset := offset + 4;
    } else {
      var length := DecodeInt(data[offset..]);
      offset := offset + 4;
      var value := data[offset..offset + length];
      assert value == data[start..][4..4 + length];
      object_.fields := object_.fields[f.offset := Text(value)];
      offset := offset + length;
    }
  }

  lemma {:induction false} PrefixDecodes(o: Object, schema: Schema, data: seq<Byte>, i: nat)
    requires i <= |schema| && Decode(o, schema, data).Read?
    ensures Decode(o, schema[..i], data).Read?
    decreases |schema|
  {
    if i < |schema| {
      var part := schema[..|schema| - 1];
      PrefixDecodes(o, part, data, i);
      assert part[..i] == schema[..i];
    } else {
      assert schema[..i] == schema;
    }
  }

  /** One object written and read into another by the same class. */
  method CopyThrough(from: Record, to: Record, metaClass: MetaClass)
    requires from != to && Typed(from.fields, metaClass.fields) && ShortTexts(from.fields, metaClass.fields)
    modifies to
    ensures Copied(old(to.fields), from.fields, metaClass.fields, to.fields)
  {
    var data := SerializeObject(from, metaClass);
    RoundTrip(from.fields, to.fields, metaClass.fields, []);
    assert data + [] == data;
    DeserializeObject(to, metaClass, data);
  }
}
