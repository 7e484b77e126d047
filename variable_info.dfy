/**
 * The descriptor of one variable occurrence in a parsed save file: its name,
 * offsets, declared type and parse-time value, the byte geometry derived from
 * them, and the builder that fills in the defaults.
 */
module Variables {
  import opened Outcomes
  import opened ValueCodec

  /** The declared type of a variable. */
  datatype VariableType = Integer | Float | String | StringUtf16Le | StringUtf32Le | Uid | Stream

  predicate IsInt(t: VariableType) { t == Integer }
  predicate IsFloat(t: VariableType) { t == Float }
  predicate IsString(t: VariableType) { t == String || t == StringUtf16Le || t == StringUtf32Le }

  /** The code-unit width a string type is written with. */
  function WidthOf(t: VariableType): (w: CharWidth)
    requires IsString(t)
    ensures Unit(w) == (if t == String then 1 else if t == StringUtf16Le then 2 else 4)
  {
    match t
    case String => Narrow
    case StringUtf16Le => Wide16
    case StringUtf32Le => Wide32
  }

  /** The 32 bits of a Java float, kept opaque: no float arithmetic is modelled. */
  newtype FloatBits = x: int | 0 <= x < 0x1_0000_0000

  /** What `getValue()` returns: null or one boxed value. */
  datatype Value = NullValue | IntValue(i: int32) | StringValue(s: JString) | FloatValue(f: FloatBits) | BytesValue(b: Bytes)

  /** One variable occurrence. The four value fields are the Java class's nullable fields;
      which one is meant depends on the type. Offsets of -1 mean "unset". */
  datatype VariableInfo = VariableInfo(
    name: JString,
    alias: Option<JString>,
    keyOffset: int,
    valOffset: int,
    valSize: int,
    valueString: Option<JString>,
    valueInteger: Option<int32>,
    valueFloat: Option<FloatBits>,
    valueByteArray: Option<Bytes>,
    variableType: VariableType,
    blockOffset: int,
    utf16SizeBytes: int)

  /** Java's `Character.isWhitespace`. */
  predicate IsWhitespace(c: JChar) {
    || (0x09 <= c <= 0x0D) || (0x1C <= c <= 0x20)
    || c == 0x1680 || (0x2000 <= c <= 0x2006) || (0x2008 <= c <= 0x200A)
    || c == 0x2028 || c == 0x2029 || c == 0x205F || c == 0x3000
  }

  /** `StringUtils.isBlank`: null, empty or whitespace only. */
  predicate IsBlank(s: Option<JString>) {
    s.None? || forall i :: 0 <= i < |s.value| ==> IsWhitespace(s.value[i])
  }

  /** getAlias: the alias when one is set and not blank, otherwise the name. */
  function Alias(v: VariableInfo): (r: JString)
    ensures r == v.name || (v.alias.Some? && r == v.alias.value)
    ensures IsBlank(v.alias) ==> r == v.name
    ensures !IsBlank(v.alias) ==> r == v.alias.value
    ensures r != v.name ==> !IsBlank(Some(r))
  {
    if !IsBlank(v.alias) then v.alias.value else v.name
  }

  /** getValue: the field the declared type selects, and null for wide32 strings, which
      the source gives no value field. */
  function GetValue(v: VariableInfo): (r: Value)
    ensures v.variableType == StringUtf32Le ==> r == NullValue
    ensures r.IntValue? ==> v.variableType == Integer && v.valueInteger == Some(r.i)
    ensures r.StringValue? ==> (v.variableType == String || v.variableType == StringUtf16Le) && v.valueString == Some(r.s)
    ensures r.FloatValue? ==> v.variableType == Float && v.valueFloat == Some(r.f)
    ensures r.BytesValue? ==> (v.variableType == Uid || v.variableType == Stream) && v.valueByteArray == Some(r.b)
    ensures r == NullValue ==> match v.variableType
                               case Integer => v.valueInteger.None?
                               case String => v.valueString.None?
                               case StringUtf16Le => v.valueString.None?
                               case Float => v.valueFloat.None?
                               case Uid => v.valueByteArray.None?
                               case Stream => v.valueByteArray.None?
                               case StringUtf32Le => true
  {
    match v.variableType
    case Integer => if v.valueInteger.Some? then IntValue(v.valueInteger.value) else NullValue
    case String => if v.valueString.Some? then StringValue(v.valueString.value) else NullValue
    case StringUtf16Le => if v.valueString.Some? then StringValue(v.valueString.value) else NullValue
    case Float => if v.valueFloat.Some? then FloatValue(v.valueFloat.value) else NullValue
    case Uid => if v.valueByteArray.Some? then BytesValue(v.valueByteArray.value) else NullValue
    case Stream => if v.valueByteArray.Some? then BytesValue(v.valueByteArray.value) else NullValue
    case StringUtf32Le => NullValue
  }

  /** The string branch of getValueString: the string field for narrow and 16-bit strings,
      null for 32-bit ones. */
  function StringValueOf(v: VariableInfo): (r: Option<JString>)
    requires IsString(v.variableType)
    ensures r.Some? <==> GetValue(v).StringValue?
    ensures r.Some? ==> GetValue(v) == StringValue(r.value)
  {
    if v.variableType == StringUtf32Le then None else v.valueString
  }

  /** getValuePrefix: the value-length field's width, 4 for narrow and 16-bit strings and for
      streams, 0 for every other type (32-bit strings included). */
  function ValuePrefix(t: VariableType): (n: int)
    ensures n == 0 || n == 4
    ensures n == 4 <==> (t == String || t == StringUtf16Le || t == Stream)
  {
    match t
    case String => 4
    case StringUtf16Le => 4
    case Stream => 4
    case _ => 0
  }

  /** getValBytesLength: valSize scaled by utf16SizeBytes for 16-bit strings, valSize as it
      is for every other type. */
  function ValBytesLength(v: VariableInfo): (n: int)
    ensures v.variableType != StringUtf16Le ==> n == v.valSize
    ensures v.variableType == StringUtf16Le ==> n == v.valSize * v.utf16SizeBytes
    ensures v.variableType == StringUtf16Le && v.valSize >= 0 && v.utf16SizeBytes >= 1 ==> n >= v.valSize
  {
    if v.variableType == StringUtf16Le then v.valSize * v.utf16SizeBytes else v.valSize
  }

  /** A 16-bit string's value bytes, at either unit size the descriptor may record, are
      exactly the bytes of its text written at the width of that unit size. */
  lemma WideValueBytes(v: VariableInfo, w: CharWidth, strip: JChar -> JChar)
    requires v.variableType == StringUtf16Le && v.valueString.Some?
    requires v.valSize == |v.valueString.value| && w != Narrow && v.utf16SizeBytes == Unit(w)
    ensures ValBytesLength(v) == |StringBytes(v.valueString.value, w, strip)|
  {
  }

  /** getVariableBytesLength: from the key offset to the end of the value, plus the value
      prefix once more; the name length plus 4 when the value offset is unset. */
  function VariableBytesLength(v: VariableInfo): (n: int)
    ensures v.valOffset == -1 ==> n == |v.name| + 4
    ensures v.valOffset != -1 ==> v.keyOffset + n == v.valOffset + ValBytesLength(v) + ValuePrefix(v.variableType)
  {
    if v.valOffset == -1 then |v.name| + 4
    else v.valOffset - v.keyOffset + ValBytesLength(v) + ValuePrefix(v.variableType)
  }

  /** For a narrow or 16-bit string whose value size counts its code units, with two bytes per
      16-bit unit as the parser records them, the value bytes are exactly the string's
      encoding and the record spans from the key offset to the end of that encoding plus four. */
  lemma ParsedStringSpan(v: VariableInfo, strip: JChar -> JChar)
    requires (v.variableType == String || v.variableType == StringUtf16Le) && v.valueString.Some?
    requires v.valSize == |v.valueString.value| && v.utf16SizeBytes == 2 && v.valOffset != -1
    ensures ValBytesLength(v) == |StringBytes(v.valueString.value, WidthOf(v.variableType), strip)|
    ensures v.keyOffset + VariableBytesLength(v)
            == v.valOffset + |StringBytes(v.valueString.value, WidthOf(v.variableType), strip)| + 4
  {
  }

  // ---------------------------------------------------------------------------
  // The builder

  /** The builder's fields; each setter is a datatype update of one of them. */
  datatype Builder = Builder(
    name: Option<JString>,
    alias: Option<JString>,
    keyOffset: int,
    valOffset: int,
    valSize: int,
    valueString: Option<JString>,
    valueInteger: Option<int32>,
    valueFloat: Option<FloatBits>,
    valueByteArray: Option<Bytes>,
    variableType: Option<VariableType>,
    blockOffset: int,
    utf16SizeBytes: int)

  /** `VariableInfo.builder()`: every field unset. */
  const NEW_BUILDER: Builder := Builder(None, None, -1, -1, -1, None, None, None, None, None, -1, 2)

  /** The value size build() fills in when none was set: 4 for integers and floats, 16 for
      identifiers, the byte count of a stream, the unit count of a narrow string, the unit
      count times utf16SizeBytes for a 16-bit string, and still -1 otherwise. */
  function DefaultValSize(t: VariableType, b: Builder, utf16: int): int
  {
    if t == Float || t == Integer then 4
    else if t == Uid then 16
    else if t == Stream && b.valueByteArray.Some? then |b.valueByteArray.value|
    else if t == String && b.valueString.Some? then |b.valueString.value|
    else if t == StringUtf16Le && b.valueString.Some? then |b.valueString.value| * utf16
    else -1
  }

  /** build(): copies the fields, resets a utf16SizeBytes other than 2 or 4 to 2, and fills in
      an unset value size and an unset value offset. A builder without a name or without a type
      fails with NullPointer. */
  function Build(b: Builder): (r: Result<VariableInfo>)
    ensures r.Success? <==> b.name.Some? && b.variableType.Some?
    ensures r.Failure? ==> r.error == NullPointer
    ensures r.Success? ==> var v := r.value;
      && v.name == b.name.value && v.alias == b.alias && v.variableType == b.variableType.value
      && v.keyOffset == b.keyOffset && v.blockOffset == b.blockOffset
      && v.valueString == b.valueString && v.valueInteger == b.valueInteger
      && v.valueFloat == b.valueFloat && v.valueByteArray == b.valueByteArray
      && (v.utf16SizeBytes == 2 || v.utf16SizeBytes == 4)
      && (b.utf16SizeBytes == 2 || b.utf16SizeBytes == 4 ==> v.utf16SizeBytes == b.utf16SizeBytes)
      && (b.utf16SizeBytes != 2 && b.utf16SizeBytes != 4 ==> v.utf16SizeBytes == 2)
      && (b.valSize != -1 ==> v.valSize == b.valSize)
      && (b.valSize == -1 && (v.variableType == Integer || v.variableType == Float) ==> v.valSize == 4)
      && (b.valSize == -1 && v.variableType == Uid ==> v.valSize == 16)
      && (b.valSize == -1 && v.variableType == Stream ==>
            v.valSize == if b.valueByteArray.Some? then |b.valueByteArray.value| else -1)
      && (b.valSize == -1 && v.variableType == String ==>
            v.valSize == if b.valueString.Some? then |b.valueString.value| else -1)
      && (b.valSize == -1 && v.variableType == StringUtf16Le ==>
            v.valSize == if b.valueString.Some? then |b.valueString.value| * v.utf16SizeBytes else -1)
      && (b.valSize == -1 && v.variableType == StringUtf32Le ==> v.valSize == -1)
      && (b.valOffset != -1 ==> v.valOffset == b.valOffset)
      && (b.valOffset == -1 ==> v.valOffset == b.keyOffset + 4 + |v.name| + ValuePrefix(v.variableType))
  {
    if b.name.None? || b.variableType.None? then Failure(NullPointer)
    else
      var utf16 := if b.utf16SizeBytes != 2 && b.utf16SizeBytes != 4 then 2 else b.utf16SizeBytes;
      var t := b.variableType.value;
      var valSize := if b.valSize == -1 then DefaultValSize(t, b, utf16) else b.valSize;
      var valOffset := if b.valOffset == -1 then b.keyOffset + 4 + |b.name.value| + ValuePrefix(t) else b.valOffset;
      Success(VariableInfo(b.name.value, b.alias, b.keyOffset, valOffset, valSize,
                           b.valueString, b.valueInteger, b.valueFloat, b.valueByteArray,
                           t, b.blockOffset, utf16))
  }

  /** VariableInfo.Builder: the fields start unset, each setter assigns one of them, and build()
      first resets an unusable utf16SizeBytes on the builder itself. */
  class VariableInfoBuilder {
    var builderName: Option<JString>
    var builderAlias: Option<JString>
    var builderKeyOffset: int
    var builderValOffset: int
    var builderValSize: int
    var builderValueString: Option<JString>
    var builderValueInteger: Option<int32>
    var builderValueFloat: Option<FloatBits>
    var builderValueByteArray: Option<Bytes>
    var builderVariableType: Option<VariableType>
    var builderBlockOffset: int
    var builderUtf16SizeBytes: int

    /** The builder's fields as a value. */
    function Fields(): Builder
      reads this
    {
      Builder(builderName, builderAlias, builderKeyOffset, builderValOffset, builderValSize,
              builderValueString, builderValueInteger, builderValueFloat, builderValueByteArray,
              builderVariableType, builderBlockOffset, builderUtf16SizeBytes)
    }

    /** VariableInfo.builder(). */
    constructor ()
      ensures Fields() == NEW_BUILDER
    {
      builderName := None;
      builderAlias := None;
      builderKeyOffset := -1;
      builderValOffset := -1;
      builderValSize := -1;
      builderValueString := None;
      builderValueInteger := None;
      builderValueFloat := None;
      builderValueByteArray := None;
      builderVariableType := None;
      builderBlockOffset := -1;
      builderUtf16SizeBytes := 2;
    }

    method Name(name: JString)
      modifies this
      ensures Fields() == old(Fields()).(name := Some(name))
    {
      builderName := Some(name);
    }

    method Alias(alias: JString)
      modifies this
      ensures Fields() == old(Fields()).(alias := Some(alias))
    {
      builderAlias := Some(alias);
    }

    method KeyOffset(keyOffset: int)
      modifies this
      ensures Fields() == old(Fields()).(keyOffset := keyOffset)
    {
      builderKeyOffset := keyOffset;
    }

    method ValOffset(valOffset: int)
      modifies this
      ensures Fields() == old(Fields()).(valOffset := valOffset)
    {
      builderValOffset := valOffset;
    }

    method ValSize(valSize: int)
      modifies this
      ensures Fields() == old(Fields()).(valSize := valSize)
    {
      builderValSize := valSize;
    }

    /** value(String). */
    method StringValue(value: JString)
      modifies this
      ensures Fields() == old(Fields()).(valueString := Some(value))
    {
      builderValueString := Some(value);
    }

    /** value(int). */
    method IntValue(value: int32)
      modifies this
      ensures Fields() == old(Fields()).(valueInteger := Some(value))
    {
      builderValueInteger := Some(value);
    }

    /** value(float), as its 32 bits. */
    method FloatValue(value: FloatBits)
      modifies this
      ensures Fields() == old(Fields()).(valueFloat := Some(value))
    {
      builderValueFloat := Some(value);
    }

    /** value(byte[]). */
    method BytesValue(value: Bytes)
      modifies this
      ensures Fields() == old(Fields()).(valueByteArray := Some(value))
    {
      builderValueByteArray := Some(value);
    }

    method Type(t: VariableType)
      modifies this
      ensures Fields() == old(Fields()).(variableType := Some(t))
    {
      builderVariableType := Some(t);
    }

    method BlockOffset(blockOffset: int)
      modifies this
      ensures Fields() == old(Fields()).(blockOffset := blockOffset)
    {
      builderBlockOffset := blockOffset;
    }

    method Utf16SizeBytes(n: int)
      modifies this
      ensures Fields() == old(Fields()).(utf16SizeBytes := n)
    {
      builderUtf16SizeBytes := n;
    }

    /** build(): the descriptor Build states, with the builder's utf16SizeBytes reset to 2 when
        it was neither 2 nor 4. */
    method BuildInfo() returns (r: Result<VariableInfo>)
      modifies this
      ensures r == Build(old(Fields()))
      ensures Fields() == old(Fields()).(utf16SizeBytes := if old(builderUtf16SizeBytes) != 2 && old(builderUtf16SizeBytes) != 4
                                                           then 2 else old(builderUtf16SizeBytes))
    {
      if builderUtf16SizeBytes != 2 && builderUtf16SizeBytes != 4 {
        builderUtf16SizeBytes := 2;
      }
      if builderName.None? || builderVariableType.None? {
        return Failure(NullPointer);
      }
      var t := builderVariableType.value;
      var valSize := builderValSize;
      if valSize == -1 {
        if t == Float || t == Integer {
          valSize := 4;
        } else if t == Uid {
          valSize := 16;
        } else if t == Stream && builderValueByteArray.Some? {
          valSize := |builderValueByteArray.value|;
        } else if t == String && builderValueString.Some? {
          valSize := |builderValueString.value|;
        } else if t == StringUtf16Le && builderValueString.Some? {
          valSize := |builderValueString.value| * builderUtf16SizeBytes;
        }
      }
      var valOffset := builderValOffset;
      if valOffset == -1 {
        valOffset := builderKeyOffset + 4 + |builderName.value| + ValuePrefix(t);
      }
      r := Success(VariableInfo(builderName.value, builderAlias, builderKeyOffset, valOffset, valSize,
                                builderValueString, builderValueInteger, builderValueFloat, builderValueByteArray,
                                t, builderBlockOffset, builderUtf16SizeBytes));
    }
  }

  // ---------------------------------------------------------------------------
  // Geometry against the on-disk record

  /** Whether the on-disk record carries a 4-byte value-length field (all strings and streams). */
  predicate HasLengthField(t: VariableType) {
    IsString(t) || t == Stream
  }

  /** The on-disk length of a record: name length field, name, value length field when the
      type has one, value bytes. */
  function RecordLength(nameLength: nat, t: VariableType, valueBytes: nat): nat
  {
    4 + nameLength + (if HasLengthField(t) then 4 else 0) + valueBytes
  }

  /** For a descriptor whose value size and offset the builder filled in: the fixed-width types
      span exactly their record; narrow strings and streams span their record plus 4 bytes,
      because the value-length prefix is counted both in the value offset and again on top;
      16-bit strings span their record plus 4 bytes plus, because the unit count is scaled by
      utf16SizeBytes twice, (utf16SizeBytes^2 - 2) extra bytes per unit. */
  lemma BuiltRecordSpan(b: Builder)
    requires b.name.Some? && b.variableType.Some?
    requires b.valOffset == -1 && b.valSize == -1 && b.keyOffset >= 0
    ensures var v := Build(b).value; var n := |v.name|;
      && (v.variableType == Integer || v.variableType == Float ==> VariableBytesLength(v) == RecordLength(n, v.variableType, 4))
      && (v.variableType == Uid ==> VariableBytesLength(v) == RecordLength(n, Uid, 16))
      && (v.variableType == String && b.valueString.Some? ==>
            VariableBytesLength(v) == RecordLength(n, String, |b.valueString.value|) + 4)
      && (v.variableType == Stream && b.valueByteArray.Some? ==>
            VariableBytesLength(v) == RecordLength(n, Stream, |b.valueByteArray.value|) + 4)
      && (v.variableType == StringUtf16Le && b.valueString.Some? ==>
            VariableBytesLength(v) == RecordLength(n, StringUtf16Le, 2 * |b.valueString.value|) + 4
                                      + (v.utf16SizeBytes * v.utf16SizeBytes - 2) * |b.valueString.value|)
  {
    var v := Build(b).value;
    if v.variableType == StringUtf16Le && b.valueString.Some? {
      var k := |b.valueString.value|;
      var u := v.utf16SizeBytes;
      assert v.valSize == k * u;
      assert ValBytesLength(v) == k * u * u;
      assert k * u * u == 2 * k + (u * u - 2) * k;
    }
  }
}
