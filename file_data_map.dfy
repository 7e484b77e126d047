/**
 * The in-memory edit overlay of a parsed save file. The parser's index (the
 * blocks and, per name, the blocks a variable occurs in) is read; edits are
 * staged as replacement bytes keyed by file offset, each with the number of
 * original bytes it replaces, for the writer to splice in. Conversion between
 * the Windows and mobile formats re-stages every wide string at the other width.
 */
module FileDataMaps {
  import opened Outcomes
  import opened ValueCodec
  import opened Variables
  import opened Blocks
  import opened OverlaySpec

  class FileDataMap {
    var changes: map<int, Bytes>
    var valuesLengthIndex: map<int, int>
    var blockInfo: map<int, BlockInfo>
    var variableLocation: map<JString, seq<int>>
    var platform: Platform

    /** The staged edits as a value. */
    function Staged(): Overlay
      reads this`changes, this`valuesLengthIndex
    {
      Overlay(changes, valuesLengthIndex)
    }

    /** Every staged change has a recorded original length: the staged edits are covered. */
    ghost predicate Valid()
      reads this
    {
      Covered(Staged())
    }

    /** A fresh map: no index, no edits, in the Windows format. */
    constructor ()
      ensures Valid()
      ensures changes == map[] && valuesLengthIndex == map[]
      ensures blockInfo == map[] && variableLocation == map[] && platform == Windows
    {
      changes := map[];
      valuesLengthIndex := map[];
      blockInfo := map[];
      variableLocation := map[];
      platform := Windows;
    }

    /** setBlockInfo: installs the parser's blocks. */
    method SetBlockInfo(blocks: map<int, BlockInfo>)
      modifies this
      ensures blockInfo == blocks
      ensures changes == old(changes) && valuesLengthIndex == old(valuesLengthIndex)
      ensures variableLocation == old(variableLocation) && platform == old(platform)
    {
      blockInfo := blocks;
    }

    /** setVariableLocation: installs the parser's name index. */
    method SetVariableLocation(locations: map<JString, seq<int>>)
      modifies this
      ensures variableLocation == locations
      ensures changes == old(changes) && valuesLengthIndex == old(valuesLengthIndex)
      ensures blockInfo == old(blockInfo) && platform == old(platform)
    {
      variableLocation := locations;
    }

    /** clear: drops the index and every staged edit; the platform is kept. */
    method Clear()
      modifies this
      ensures Valid()
      ensures changes == map[] && valuesLengthIndex == map[] && blockInfo == map[] && variableLocation == map[]
      ensures platform == old(platform)
    {
      blockInfo := map[];
      variableLocation := map[];
      changes := map[];
      valuesLengthIndex := map[];
    }

    // -------------------------------------------------------------------------
    // Lookups

    /** searchFirstVariable: the first block the name is located in, or -1 when the name is
        unknown or that block is not in the index. An empty location list fails as get(0) does. */
    function SearchFirstVariable(name: JString): (r: Result<int>)
      reads this`variableLocation, this`blockInfo
      ensures r.Failure? <==> name in variableLocation && variableLocation[name] == []
      ensures r.Failure? ==> r.error == IndexOutOfBounds
      ensures r.Success? && r.value != -1 ==>
                name in variableLocation && r.value == variableLocation[name][0] && r.value in blockInfo
      ensures r.Success? && name in variableLocation && variableLocation[name][0] in blockInfo ==>
                r.value == variableLocation[name][0]
    {
      if name !in variableLocation then Success(-1)
      else if variableLocation[name] == [] then Failure(IndexOutOfBounds)
      else if variableLocation[name][0] in blockInfo then Success(variableLocation[name][0])
      else Success(-1)
    }

    /** getFirst(block, name): for a non-negative block, the first occurrence of the name in it
        (a block missing from the index fails with NullPointer, a name without occurrences with
        IndexOutOfBounds); for a negative one, null. */
    function FirstInBlock(block: int, name: JString): (r: Result<Option<VariableInfo>>)
      reads this`blockInfo
      ensures block < 0 ==> r == Success(None)
      ensures block >= 0 && block !in blockInfo ==> r == Failure(NullPointer)
      ensures block >= 0 && block in blockInfo ==>
                (r.Failure? <==> Occurrences(blockInfo[block].variables, name) == [])
                && (r.Failure? ==> r.error == IndexOutOfBounds)
      ensures block >= 0 && block in blockInfo && Occurrences(blockInfo[block].variables, name) != [] ==>
                r == Success(Some(Occurrences(blockInfo[block].variables, name)[0]))
      ensures r.Success? && r.value.Some? ==>
                && block in blockInfo
                && r.value.value in blockInfo[block].variables && r.value.value.name == name
                && r.value.value == Occurrences(blockInfo[block].variables, name)[0]
    {
      if block < 0 then Success(None)
      else if block !in blockInfo then Failure(NullPointer)
      else
        var occs := Occurrences(blockInfo[block].variables, name);
        if occs == [] then Failure(IndexOutOfBounds) else Success(Some(occs[0]))
    }

    /** getFirst(name): the first occurrence of the name in the first block it is located in;
        null when the name is unknown. */
    function First(name: JString): (r: Result<Option<VariableInfo>>)
      reads this`variableLocation, this`blockInfo
      ensures name !in variableLocation ==> r == Success(None)
      ensures name in variableLocation && variableLocation[name] == [] ==> r == Failure(IndexOutOfBounds)
      ensures name in variableLocation && variableLocation[name] != [] ==>
                var b := variableLocation[name][0];
                && (b !in blockInfo || b < 0 ==> r == Success(None))
                && (b in blockInfo && b >= 0 ==>
                      var occs := Occurrences(blockInfo[b].variables, name);
                      r == if occs == [] then Failure(IndexOutOfBounds) else Success(Some(occs[0])))
      ensures r.Success? && r.value.Some? ==>
                && name in variableLocation && variableLocation[name] != []
                && variableLocation[name][0] in blockInfo
                && Occurrences(blockInfo[variableLocation[name][0]].variables, name) != []
                && r.value.value == Occurrences(blockInfo[variableLocation[name][0]].variables, name)[0]
                && r.value.value.name == name
    {
      var block :- SearchFirstVariable(name);
      FirstInBlock(block, name)
    }

    /** Whether an edit is staged at the variable's value offset. */
    predicate HasChange(v: VariableInfo)
      reads this`changes
      ensures HasChange(v) <==> v.valOffset in changes
    {
      v.valOffset in changes
    }

    /** readIntegerFromMap: the first 4 staged bytes at the value offset, little-endian. No
        change there fails with NullPointer, fewer than 4 bytes with BufferUnderflow. */
    function ReadIntegerFromMap(v: VariableInfo): (r: Result<int32>)
      reads this`changes
      ensures r.Success? <==> HasChange(v) && |changes[v.valOffset]| >= 4
      ensures !HasChange(v) ==> r == Failure(NullPointer)
      ensures HasChange(v) && |changes[v.valOffset]| < 4 ==> r == Failure(BufferUnderflow)
      ensures r.Success? ==> EncodeInt32(r.value) == changes[v.valOffset][..4]
    {
      if v.valOffset !in changes then Failure(NullPointer)
      else
        var data := changes[v.valOffset];
        if |data| < 4 then Failure(BufferUnderflow)
        else
          EncodeDecodeInt32(data[..4]);
          Unsigned32Prefix(data[..4], data[4..]);
          assert data == data[..4] + data[4..];
          Success(DecodeInt32(data))
    }

    /** getInt(VariableInfo): the staged value when there is one, else the parse-time value
        (which may be null). A missing or non-integer variable fails with IllegalState. */
    function IntOf(v: Option<VariableInfo>): (r: Result<Option<int32>>)
      reads this`changes
      ensures v.None? || !IsInt(v.value.variableType) ==> r == Failure(IllegalState)
      ensures r.Success? ==> v.Some? && IsInt(v.value.variableType)
      ensures r.Success? && HasChange(v.value) ==>
                && r.value.Some? && |changes[v.value.valOffset]| >= 4
                && EncodeInt32(r.value.value) == changes[v.value.valOffset][..4]
      ensures v.Some? && IsInt(v.value.variableType) && HasChange(v.value) ==>
                && (r.Success? <==> |changes[v.value.valOffset]| >= 4)
                && (r.Failure? ==> r.error == BufferUnderflow)
      ensures v.Some? && IsInt(v.value.variableType) && !HasChange(v.value) ==> r == Success(v.value.valueInteger)
    {
      if v.None? || !IsInt(v.value.variableType) then Failure(IllegalState)
      else if HasChange(v.value) then
        var x :- ReadIntegerFromMap(v.value);
        Success(Some(x))
      else Success(v.value.valueInteger)
    }

    /** getInt(name): the value of the name's first occurrence, through the overlay. */
    function GetInt(name: JString): (r: Result<Option<int32>>)
      reads this`variableLocation, this`blockInfo, this`changes
      ensures name !in variableLocation ==> r == Failure(IllegalState)
      ensures First(name).Failure? ==> r == Failure(First(name).error)
      ensures First(name).Success? ==> r == IntOf(First(name).value)
      ensures r.Success? ==> First(name).Success? && First(name).value.Some? && IsInt(First(name).value.value.variableType)
    {
      var v :- First(name);
      IntOf(v)
    }

    /** getInt(blockStart, name): the value of the name's first occurrence in the block, through
        the overlay. A block missing from the index fails with IllegalState. */
    function GetIntInBlock(block: int, name: JString): (r: Result<Option<int32>>)
      reads this`blockInfo, this`changes
      ensures block !in blockInfo ==> r == Failure(IllegalState)
      ensures block in blockInfo && FirstInBlock(block, name).Failure? ==> r == Failure(FirstInBlock(block, name).error)
      ensures block in blockInfo && FirstInBlock(block, name).Success? ==> r == IntOf(FirstInBlock(block, name).value)
      ensures r.Success? ==> block in blockInfo && block >= 0 && FirstInBlock(block, name).Success?
                             && FirstInBlock(block, name).value.Some?
                             && IsInt(FirstInBlock(block, name).value.value.variableType)
    {
      if block !in blockInfo then Failure(IllegalState)
      else
        var v :- FirstInBlock(block, name);
        IntOf(v)
    }

    /** getString(name): the parse-time text of the name's first occurrence; null when the name
        is unknown, is not a string, or is a 32-bit string. Staged edits are not consulted. */
    function GetString(name: JString): (r: Result<Option<JString>>)
      reads this`variableLocation, this`blockInfo
      ensures name !in variableLocation ==> r == Success(None)
      ensures First(name).Failure? ==> r == Failure(First(name).error)
      ensures First(name).Success? && First(name).value.Some?
              && (First(name).value.value.variableType == String || First(name).value.value.variableType == StringUtf16Le) ==>
                r == Success(First(name).value.value.valueString)
      ensures First(name).Success? && (First(name).value.None? || !(First(name).value.value.variableType == String
                                                                   || First(name).value.value.variableType == StringUtf16Le)) ==>
                r == Success(None)
      ensures r.Success? && r.value.Some? ==>
                && First(name).Success? && First(name).value.Some?
                && var v := First(name).value.value;
                   (v.variableType == String || v.variableType == StringUtf16Le) && v.valueString == r.value
    {
      var v :- First(name);
      if v.Some? && IsString(v.value.variableType) then Success(StringValueOf(v.value)) else Success(None)
    }

    // -------------------------------------------------------------------------
    // Block listings

    /** getIntValuesFromBlock: the parse-time values of the name's INTEGER occurrences in the
        first block it is located in. Empty when the name is unknown or the block is missing;
        an empty location list fails as get(0) does. */
    method GetIntValuesFromBlock(name: JString) returns (r: Result<seq<int32>>)
      ensures name !in variableLocation ==> r == Success([])
      ensures name in variableLocation && variableLocation[name] == [] ==> r == Failure(IndexOutOfBounds)
      ensures name in variableLocation && variableLocation[name] != [] && variableLocation[name][0] !in blockInfo ==>
                r == Success([])
      ensures name in variableLocation && variableLocation[name] != [] && variableLocation[name][0] in blockInfo ==>
                r == Success(IntValues(blockInfo[variableLocation[name][0]].variables, name))
    {
      if name !in variableLocation {
        return Success([]);
      }
      var locations := variableLocation[name];
      if locations == [] {
        return Failure(IndexOutOfBounds);
      }
      var block := locations[0];
      if block !in blockInfo {
        return Success([]);
      }
      var values := CollectIntValues(blockInfo[block].variables, name);
      return Success(values);
    }

    /** getStringValuesFromBlock: the parse-time texts of the name's string occurrences in the
        first block it is located in whose value is not null; same edge cases as the integer
        listing. */
    method GetStringValuesFromBlock(name: JString) returns (r: Result<seq<JString>>)
      ensures name !in variableLocation ==> r == Success([])
      ensures name in variableLocation && variableLocation[name] == [] ==> r == Failure(IndexOutOfBounds)
      ensures name in variableLocation && variableLocation[name] != [] && variableLocation[name][0] !in blockInfo ==>
                r == Success([])
      ensures name in variableLocation && variableLocation[name] != [] && variableLocation[name][0] in blockInfo ==>
                r == Success(StringValues(blockInfo[variableLocation[name][0]].variables, name))
    {
      if name !in variableLocation {
        return Success([]);
      }
      var locations := variableLocation[name];
      if locations == [] {
        return Failure(IndexOutOfBounds);
      }
      var block := locations[0];
      if block !in blockInfo {
        return Success([]);
      }
      var values := CollectStringValues(blockInfo[block].variables, name);
      return Success(values);
    }

    // -------------------------------------------------------------------------
    // Staging

    /** storeChange(variable, data): stages the bytes at the value offset, replacing the value's
        prefix and value bytes. */
    method StoreChange(v: VariableInfo, data: Bytes)
      requires Valid()
      modifies this
      ensures Valid()
      ensures changes == old(changes)[v.valOffset := data]
      ensures valuesLengthIndex == old(valuesLengthIndex)[v.valOffset := ValuePrefix(v.variableType) + ValBytesLength(v)]
      ensures blockInfo == old(blockInfo) && variableLocation == old(variableLocation) && platform == old(platform)
    {
      changes := changes[v.valOffset := data];
      valuesLengthIndex := valuesLengthIndex[v.valOffset := ValuePrefix(v.variableType) + ValBytesLength(v)];
    }

    /** storeChange(offset, data, previousLength): stages the bytes at an arbitrary offset,
        replacing the given number of original bytes. */
    method StoreChangeAt(offset: int, data: Bytes, previousLength: int)
      requires Valid()
      modifies this
      ensures Valid()
      ensures changes == old(changes)[offset := data]
      ensures valuesLengthIndex == old(valuesLengthIndex)[offset := previousLength]
      ensures blockInfo == old(blockInfo) && variableLocation == old(variableLocation) && platform == old(platform)
    {
      changes := changes[offset := data];
      valuesLengthIndex := valuesLengthIndex[offset := previousLength];
    }

    /** setString(name, value): stages the int32 unit count and the text at the width of the
        name's first occurrence. An unknown name fails with NullPointer, a name located in more
        than one block with IllegalState, a missing or non-string occurrence with
        IllegalArgument. getString still returns the parse-time text afterwards. */
    method SetString(name: JString, value: JString, strip: JChar -> JChar) returns (o: Outcome)
      requires Valid()
      modifies this
      ensures Valid()
      ensures name !in old(variableLocation) ==> o == Fail(NullPointer)
      ensures name in old(variableLocation) && |old(variableLocation)[name]| > 1 ==> o == Fail(IllegalState)
      ensures name in old(variableLocation) && |old(variableLocation)[name]| <= 1 && old(First(name)).Failure? ==>
                o == Fail(old(First(name)).error)
      ensures o.Pass? <==> name in old(variableLocation) && |old(variableLocation)[name]| <= 1
                           && old(First(name)).Success? && old(First(name)).value.Some?
                           && IsString(old(First(name)).value.value.variableType)
      ensures (o.Fail? && name in old(variableLocation) && |old(variableLocation)[name]| <= 1
               && old(First(name)).Success?) ==> o == Fail(IllegalArgument)
      ensures o.Pass? ==> var v := old(First(name)).value.value;
                && changes == old(changes)[v.valOffset := Restaged(value, WidthOf(v.variableType), strip)]
                && valuesLengthIndex == old(valuesLengthIndex)[v.valOffset := ValuePrefix(v.variableType) + ValBytesLength(v)]
      ensures o.Fail? ==> changes == old(changes) && valuesLengthIndex == old(valuesLengthIndex)
      ensures blockInfo == old(blockInfo) && variableLocation == old(variableLocation) && platform == old(platform)
      ensures GetString(name) == old(GetString(name))
    {
      if name !in variableLocation {
        return Fail(NullPointer);
      }
      if |variableLocation[name]| > 1 {
        return Fail(IllegalState);
      }
      var first := First(name);
      if first.Failure? {
        return Fail(first.error);
      }
      if first.value.None? || !IsString(first.value.value.variableType) {
        return Fail(IllegalArgument);
      }
      var v := first.value.value;
      var str := EncodeString(value, WidthOf(v.variableType), strip);
      var len := EncodeInt32(ToInt32(|value|));
      StoreChange(v, len + str);
      o := Pass;
    }

    /** setInt(name, value): stages the little-endian bytes at the value offset of the name's
        first occurrence. An unknown name fails with NullPointer, a name located in more than one
        block with IllegalState, a missing occurrence with IllegalArgument, a non-integer one with
        NumberFormat. Afterwards getInt(name) returns the value. */
    method SetInt(name: JString, value: int32) returns (o: Outcome)
      requires Valid()
      modifies this
      ensures Valid()
      ensures name !in old(variableLocation) ==> o == Fail(NullPointer)
      ensures name in old(variableLocation) && |old(variableLocation)[name]| > 1 ==> o == Fail(IllegalState)
      ensures name in old(variableLocation) && |old(variableLocation)[name]| <= 1 && old(First(name)).Failure? ==>
                o == Fail(old(First(name)).error)
      ensures name in old(variableLocation) && |old(variableLocation)[name]| <= 1 && old(First(name)) == Success(None) ==>
                o == Fail(IllegalArgument)
      ensures o.Pass? <==> name in old(variableLocation) && |old(variableLocation)[name]| <= 1
                           && old(First(name)).Success? && old(First(name)).value.Some?
                           && IsInt(old(First(name)).value.value.variableType)
      ensures (o.Fail? && name in old(variableLocation) && |old(variableLocation)[name]| <= 1
               && old(First(name)).Success? && old(First(name)).value.Some?) ==> o == Fail(NumberFormat)
      ensures o.Pass? ==> var v := old(First(name)).value.value;
                && changes == old(changes)[v.valOffset := EncodeInt32(value)]
                && valuesLengthIndex == old(valuesLengthIndex)[v.valOffset := ValuePrefix(v.variableType) + ValBytesLength(v)]
      ensures o.Pass? ==> GetInt(name) == Success(Some(value))
      ensures o.Fail? ==> changes == old(changes) && valuesLengthIndex == old(valuesLengthIndex)
      ensures blockInfo == old(blockInfo) && variableLocation == old(variableLocation) && platform == old(platform)
    {
      if name !in variableLocation {
        return Fail(NullPointer);
      }
      if |variableLocation[name]| > 1 {
        return Fail(IllegalState);
      }
      var first := First(name);
      if first.Failure? {
        return Fail(first.error);
      }
      if first.value.None? {
        return Fail(IllegalArgument);
      }
      var v := first.value.value;
      if !IsInt(v.variableType) {
        return Fail(NumberFormat);
      }
      StoreChange(v, EncodeInt32(value));
      DecodeEncodeInt32(value);
      o := Pass;
    }

    /** setInt(blockStart, name, value): stages the value at the name's first occurrence in the
        block. A block missing from the index is silently ignored; a name occurring more than once
        in it fails with IllegalState; a negative block (no occurrence) with IllegalArgument, a
        non-integer occurrence with NumberFormat. Afterwards getInt(blockStart, name) returns the
        value. */
    method SetIntInBlock(block: int, name: JString, value: int32) returns (o: Outcome)
      requires Valid()
      modifies this
      ensures Valid()
      ensures block !in old(blockInfo) ==> o == Pass && changes == old(changes) && valuesLengthIndex == old(valuesLengthIndex)
      ensures block in old(blockInfo) && |Occurrences(old(blockInfo)[block].variables, name)| > 1 ==> o == Fail(IllegalState)
      ensures o.Pass? && block in old(blockInfo) ==>
                && old(FirstInBlock(block, name)).Success? && old(FirstInBlock(block, name)).value.Some?
                && var v := old(FirstInBlock(block, name)).value.value;
                   && IsInt(v.variableType)
                   && changes == old(changes)[v.valOffset := EncodeInt32(value)]
                   && valuesLengthIndex == old(valuesLengthIndex)[v.valOffset := ValuePrefix(v.variableType) + ValBytesLength(v)]
                   && GetIntInBlock(block, name) == Success(Some(value))
      ensures block in old(blockInfo) && |Occurrences(old(blockInfo)[block].variables, name)| <= 1 ==>
                (o.Pass? <==> old(FirstInBlock(block, name)).Success? && old(FirstInBlock(block, name)).value.Some?
                              && IsInt(old(FirstInBlock(block, name)).value.value.variableType))
      ensures block in old(blockInfo) && block < 0 && |Occurrences(old(blockInfo)[block].variables, name)| <= 1 ==>
                o == Fail(IllegalArgument)
      ensures o.Fail? ==> changes == old(changes) && valuesLengthIndex == old(valuesLengthIndex)
      ensures blockInfo == old(blockInfo) && variableLocation == old(variableLocation) && platform == old(platform)
    {
      if block !in blockInfo {
        return Pass;
      }
      if |Occurrences(blockInfo[block].variables, name)| > 1 {
        return Fail(IllegalState);
      }
      var first := FirstInBlock(block, name);
      if first.Failure? {
        return Fail(first.error);
      }
      if first.value.None? {
        return Fail(IllegalArgument);
      }
      var v := first.value.value;
      if !IsInt(v.variableType) {
        return Fail(NumberFormat);
      }
      StoreChange(v, EncodeInt32(value));
      DecodeEncodeInt32(value);
      o := Pass;
    }

    /** setInt(variable, value): stages the value at the descriptor's value offset. A descriptor
        whose block is not in the index fails with IllegalArgument, a non-integer one with
        NumberFormat. Afterwards getInt(variable) returns the value. */
    method SetIntOf(v: VariableInfo, value: int32) returns (o: Outcome)
      requires Valid()
      modifies this
      ensures Valid()
      ensures o.Pass? <==> v.blockOffset in old(blockInfo) && IsInt(v.variableType)
      ensures v.blockOffset !in old(blockInfo) ==> o == Fail(IllegalArgument)
      ensures v.blockOffset in old(blockInfo) && !IsInt(v.variableType) ==> o == Fail(NumberFormat)
      ensures o.Pass? ==> changes == old(changes)[v.valOffset := EncodeInt32(value)]
                          && valuesLengthIndex == old(valuesLengthIndex)[v.valOffset := ValuePrefix(v.variableType) + ValBytesLength(v)]
                          && IntOf(Some(v)) == Success(Some(value))
      ensures o.Fail? ==> changes == old(changes) && valuesLengthIndex == old(valuesLengthIndex)
      ensures blockInfo == old(blockInfo) && variableLocation == old(variableLocation) && platform == old(platform)
    {
      if v.blockOffset !in blockInfo {
        return Fail(IllegalArgument);
      }
      if !IsInt(v.variableType) {
        return Fail(NumberFormat);
      }
      StoreChange(v, EncodeInt32(value));
      DecodeEncodeInt32(value);
      o := Pass;
    }

    /** The value incrementInt adds one to: the staged bytes, zero-padded to 4, when there is a
        change (more than 4 staged bytes overflow the 4-byte buffer), else the parse-time value.
        A null value fails with NullPointer, a value that is not an integer with ClassCast. */
    function CurrentIntForIncrement(v: VariableInfo): (r: Result<int32>)
      reads this`changes
      ensures GetValue(v) == NullValue ==> r == Failure(NullPointer)
      ensures GetValue(v) != NullValue && !GetValue(v).IntValue? ==> r == Failure(ClassCast)
      ensures GetValue(v).IntValue? && !HasChange(v) ==> r == Success(v.valueInteger.value)
      ensures GetValue(v).IntValue? && HasChange(v) ==>
                (r.Failure? <==> |changes[v.valOffset]| > 4) && (r.Failure? ==> r.error == BufferOverflow)
      ensures r.Success? && HasChange(v) ==>
                EncodeInt32(r.value) == changes[v.valOffset] + Zeros(4 - |changes[v.valOffset]|)
    {
      match GetValue(v)
      case NullValue => Failure(NullPointer)
      case IntValue(x) =>
        if !HasChange(v) then Success(x)
        else
          var data := changes[v.valOffset];
          if |data| > 4 then Failure(BufferOverflow)
          else
            var padded := data + Zeros(4 - |data|);
            EncodeDecodeInt32(padded);
            Success(DecodeInt32(padded))
      case _ => Failure(ClassCast)
    }

    /** incrementInt(variable): stages the current value plus one, wrapped to 32 bits. Fails as
        the current value does, then with IllegalArgument for a descriptor whose block is not in
        the index, then with NumberFormat unless it is a 4-byte INTEGER. Afterwards getInt(variable)
        returns the incremented value. */
    method IncrementInt(v: VariableInfo) returns (o: Outcome)
      requires Valid()
      modifies this
      ensures Valid()
      ensures old(CurrentIntForIncrement(v)).Failure? ==> o == Fail(old(CurrentIntForIncrement(v)).error)
      ensures old(CurrentIntForIncrement(v)).Success? && v.blockOffset !in old(blockInfo) ==> o == Fail(IllegalArgument)
      ensures (old(CurrentIntForIncrement(v)).Success? && v.blockOffset in old(blockInfo)
               && !(v.variableType == Integer && v.valSize == 4)) ==> o == Fail(NumberFormat)
      ensures o.Pass? <==> old(CurrentIntForIncrement(v)).Success? && v.blockOffset in old(blockInfo)
                           && v.variableType == Integer && v.valSize == 4
      ensures o.Pass? ==>
                var n := ToInt32(old(CurrentIntForIncrement(v)).value as int + 1);
                && changes == old(changes)[v.valOffset := EncodeInt32(n)]
                && valuesLengthIndex == old(valuesLengthIndex)[v.valOffset := ValuePrefix(v.variableType) + ValBytesLength(v)]
                && IntOf(Some(v)) == Success(Some(n))
      ensures o.Fail? ==> changes == old(changes) && valuesLengthIndex == old(valuesLengthIndex)
      ensures blockInfo == old(blockInfo) && variableLocation == old(variableLocation) && platform == old(platform)
    {
      var current := CurrentIntForIncrement(v);
      if current.Failure? {
        return Fail(current.error);
      }
      var n := ToInt32(current.value as int + 1);
      if v.blockOffset !in blockInfo {
        return Fail(IllegalArgument);
      }
      if !(v.variableType == Integer && v.valSize == 4) {
        return Fail(NumberFormat);
      }
      StoreChange(v, EncodeInt32(n));
      DecodeEncodeInt32(n);
      o := Pass;
    }

    // -------------------------------------------------------------------------
    // Structural edits

    /** removeBlock(offset): drops the staged changes of every variable of the block, then stages
        empty bytes over the block's whole size at its start. A block not in the index fails with
        NullPointer. */
    method RemoveBlock(offset: int) returns (o: Outcome)
      requires Valid()
      modifies this
      ensures Valid()
      ensures offset !in old(blockInfo) ==> o == Fail(NullPointer) && changes == old(changes)
                                            && valuesLengthIndex == old(valuesLengthIndex)
      ensures offset in old(blockInfo) ==>
                var b := old(blockInfo)[offset];
                && o == Pass
                && changes == (old(changes) - ValOffsets(b.variables))[b.start := []]
                && valuesLengthIndex == old(valuesLengthIndex)[b.start := b.size]
      ensures blockInfo == old(blockInfo) && variableLocation == old(variableLocation) && platform == old(platform)
    {
      if offset !in blockInfo {
        return Fail(NullPointer);
      }
      var b := blockInfo[offset];
      var i := 0;
      while i < |b.variables|
        invariant 0 <= i <= |b.variables|
        invariant changes == old(changes) - ValOffsets(b.variables[..i])
        invariant valuesLengthIndex == old(valuesLengthIndex)
        invariant blockInfo == old(blockInfo) && variableLocation == old(variableLocation) && platform == old(platform)
      {
        var v := b.variables[i];
        assert ValOffsets(b.variables[..i + 1]) == ValOffsets(b.variables[..i]) + {v.valOffset} by {
          assert b.variables[..i + 1] == b.variables[..i] + [v];
        }
        changes := changes - {v.valOffset};
        i := i + 1;
      }
      assert b.variables[..i] == b.variables;
      StoreChangeAt(b.start, [], b.size);
      o := Pass;
    }

    /** removeVariable(variable): stages empty bytes over the variable's whole span, from its key
        offset. */
    method RemoveVariable(v: VariableInfo)
      requires Valid()
      modifies this
      ensures Valid()
      ensures changes == old(changes)[v.keyOffset := []]
      ensures valuesLengthIndex == old(valuesLengthIndex)[v.keyOffset := VariableBytesLength(v)]
      ensures blockInfo == old(blockInfo) && variableLocation == old(variableLocation) && platform == old(platform)
    {
      StoreChangeAt(v.keyOffset, [], VariableBytesLength(v));
    }

    /** insertVariable(offset, variable, overwrite): builds the variable's record in a buffer of
        its span plus whatever is already staged at the offset (unless overwriting), stages it at
        the offset replacing no original bytes, and registers the descriptor in its block's
        staging map. A block not in the index fails with NullPointer after the bytes are staged. */
    method InsertVariable(offset: int, v: VariableInfo, overwrite: bool) returns (o: Outcome)
      requires Valid()
      modifies this
      ensures Valid()
      ensures var rec := InsertionBytes(PrevAt(old(changes), offset, overwrite), v);
              && (rec.Failure? ==> o == Fail(rec.error) && changes == old(changes)
                                   && valuesLengthIndex == old(valuesLengthIndex) && blockInfo == old(blockInfo))
              && (rec.Success? ==> changes == old(changes)[offset := rec.value]
                                   && valuesLengthIndex == old(valuesLengthIndex)[offset := 0])
              && (rec.Success? && v.blockOffset !in old(blockInfo) ==> o == Fail(NullPointer) && blockInfo == old(blockInfo))
              && (rec.Success? && v.blockOffset in old(blockInfo) ==>
                    o == Pass
                    && blockInfo == old(blockInfo)[v.blockOffset :=
                         old(blockInfo)[v.blockOffset].(staging := old(blockInfo)[v.blockOffset].staging[v.name := v])])
      ensures variableLocation == old(variableLocation) && platform == old(platform)
    {
      var rec := BuildRecord(PrevAt(changes, offset, overwrite), v);
      if rec.Failure? {
        return Fail(rec.error);
      }
      StoreChangeAt(offset, rec.value, 0);
      if v.blockOffset !in blockInfo {
        return Fail(NullPointer);
      }
      var b := blockInfo[v.blockOffset];
      blockInfo := blockInfo[v.blockOffset := b.(staging := b.staging[v.name := v])];
      o := Pass;
    }

    // -------------------------------------------------------------------------
    // Platform conversion

    /** Where convertTo inserts mySaveId when leaving Windows: the first occurrence of
        myPlayerName, in the first block that name is located in, and that block. Fails as the
        lookups do: an unknown name or a block missing from the index with NullPointer, an empty
        location list or no occurrence with IndexOutOfBounds. */
    function PlayerNameAnchor(): (r: Result<(BlockInfo, VariableInfo)>)
      reads this`variableLocation, this`blockInfo
      ensures r.Success? ==>
                && MY_PLAYER_NAME in variableLocation && variableLocation[MY_PLAYER_NAME] != []
                && variableLocation[MY_PLAYER_NAME][0] in blockInfo
                && r.value.0 == blockInfo[variableLocation[MY_PLAYER_NAME][0]]
                && r.value.1 in r.value.0.variables && r.value.1.name == MY_PLAYER_NAME
                && r.value.1 == Occurrences(r.value.0.variables, MY_PLAYER_NAME)[0]
      ensures MY_PLAYER_NAME !in variableLocation ==> r == Failure(NullPointer)
      ensures MY_PLAYER_NAME in variableLocation && variableLocation[MY_PLAYER_NAME] == [] ==> r == Failure(IndexOutOfBounds)
      ensures MY_PLAYER_NAME in variableLocation && variableLocation[MY_PLAYER_NAME] != [] ==>
                var b := variableLocation[MY_PLAYER_NAME][0];
                && (b !in blockInfo ==> r == Failure(NullPointer))
                && (b in blockInfo ==>
                      (r.Success? <==> Occurrences(blockInfo[b].variables, MY_PLAYER_NAME) != [])
                      && (r.Failure? ==> r.error == IndexOutOfBounds))
    {
      if MY_PLAYER_NAME !in variableLocation then Failure(NullPointer)
      else if variableLocation[MY_PLAYER_NAME] == [] then Failure(IndexOutOfBounds)
      else if variableLocation[MY_PLAYER_NAME][0] !in blockInfo then Failure(NullPointer)
      else
        var b := blockInfo[variableLocation[MY_PLAYER_NAME][0]];
        var occs := Occurrences(b.variables, MY_PLAYER_NAME);
        if occs == [] then Failure(IndexOutOfBounds) else Success((b, occs[0]))
    }

    /** convertTo(target, saveId): switches the platform first, then fails with IllegalState
        when it was already the target. Leaving Windows, it inserts mySaveId, a narrow string
        holding the save identifier, at myPlayerName's key offset; then, over every occurrence of
        every block in the given order, it re-stages each wide string of the source width at the
        other width (see ConvertAll), removing mySaveId when leaving mobile. It stops at the first
        exception with the edits made so far in place. The order stands for the index's
        iteration order, which lists each block once. */
    method ConvertTo(target: Platform, saveId: JString, strip: JChar -> JChar, order: seq<int>) returns (o: Outcome)
      requires Valid()
      requires forall i :: 0 <= i < |order| ==> order[i] in blockInfo
      requires forall b :: b in blockInfo ==> b in order
      requires forall i, j :: 0 <= i < j < |order| ==> order[i] != order[j]
      modifies this
      ensures Valid()
      ensures platform == target
      ensures variableLocation == old(variableLocation)
      ensures old(platform) == target ==>
                o == Fail(IllegalState) && changes == old(changes) && valuesLengthIndex == old(valuesLengthIndex)
                && blockInfo == old(blockInfo)
      ensures old(platform) == Mobile && target == Windows ==>
                && blockInfo == old(blockInfo)
                && Converted(Overlay(changes, valuesLengthIndex), o)
                   == ConvertAll(Overlay(old(changes), old(valuesLengthIndex)), AllOccurrences(old(blockInfo), order), Mobile, strip, SourceTypeOnly)
      ensures old(platform) == Windows && target == Mobile && old(PlayerNameAnchor()).Failure? ==>
                o == Fail(old(PlayerNameAnchor()).error) && changes == old(changes)
                && valuesLengthIndex == old(valuesLengthIndex) && blockInfo == old(blockInfo)
      ensures old(platform) == Windows && target == Mobile && old(PlayerNameAnchor()).Success? ==>
                var anchor := old(PlayerNameAnchor()).value;
                var sid := SaveIdVariable(anchor.0.start, anchor.1.keyOffset, saveId);
                var rec := InsertionBytes(PrevAt(old(changes), sid.keyOffset, false), sid);
                && (rec.Failure? ==> o == Fail(rec.error) && changes == old(changes)
                                     && valuesLengthIndex == old(valuesLengthIndex) && blockInfo == old(blockInfo))
                && (rec.Success? && sid.blockOffset !in old(blockInfo) ==>
                      o == Fail(NullPointer) && blockInfo == old(blockInfo)
                      && changes == old(changes)[sid.keyOffset := rec.value]
                      && valuesLengthIndex == old(valuesLengthIndex)[sid.keyOffset := 0])
                && (rec.Success? && sid.blockOffset in old(blockInfo) ==>
                      && blockInfo == old(blockInfo)[sid.blockOffset :=
                           old(blockInfo)[sid.blockOffset].(staging := old(blockInfo)[sid.blockOffset].staging[sid.name := sid])]
                      && Converted(Overlay(changes, valuesLengthIndex), o)
                         == ConvertAll(Overlay(old(changes)[sid.keyOffset := rec.value], old(valuesLengthIndex)[sid.keyOffset := 0]),
                                       AllOccurrences(old(blockInfo), order), Windows, strip, SourceTypeOnly))
    {
      var from := platform;
      platform := target;
      if from == target {
        return Fail(IllegalState);
      }
      if from == Windows {
        var anchor := PlayerNameAnchor();
        if anchor.Failure? {
          return Fail(anchor.error);
        }
        var sid := SaveIdVariable(anchor.value.0.start, anchor.value.1.keyOffset, saveId);
        o := InsertVariable(sid.keyOffset, sid, false);
        if o.Fail? {
          return;
        }
        assert forall i :: 0 <= i < |order| ==>
                 order[i] in old(blockInfo) && order[i] in blockInfo && old(blockInfo)[order[i]].variables == blockInfo[order[i]].variables;
        AllOccurrencesIgnoreStaging(old(blockInfo), blockInfo, order);
      }
      o := ConvertBlocks(from, strip, order);
    }

    /** convertTo's outer loop: every block in the order, through the inner loop, stopping at the
        first exception. */
    method ConvertBlocks(from: Platform, strip: JChar -> JChar, order: seq<int>) returns (o: Outcome)
      requires Valid()
      requires forall i :: 0 <= i < |order| ==> order[i] in blockInfo
      modifies this
      ensures Valid()
      ensures Converted(Staged(), o) == ConvertAll(old(Staged()), AllOccurrences(old(blockInfo), order), from, strip, SourceTypeOnly)
      ensures blockInfo == old(blockInfo) && variableLocation == old(variableLocation) && platform == old(platform)
    {
      ghost var total := ConvertAll(Staged(), AllOccurrences(blockInfo, order), from, strip, SourceTypeOnly);
      var i := 0;
      while i < |order|
        invariant 0 <= i <= |order|
        invariant Valid()
        invariant blockInfo == old(blockInfo) && variableLocation == old(variableLocation) && platform == old(platform)
        invariant ConvertAll(Staged(), AllOccurrences(blockInfo, order[i..]), from, strip, SourceTypeOnly) == total
      {
        assert order[i..][1..] == order[i + 1..] && order[i..][0] == order[i];
        var vs := blockInfo[order[i]].variables;
        ghost var rest := AllOccurrences(blockInfo, order[i + 1..]);
        assert AllOccurrences(blockInfo, order[i..]) == vs + rest;
        ConvertAllAppend(Staged(), vs, rest, from, strip, SourceTypeOnly);
        o := ConvertVariables(vs, from, strip);
        if o.Fail? {
          return;
        }
        i := i + 1;
      }
      o := Pass;
    }

    /** convertTo's inner loop: the block's occurrences in order, stopping at the first exception. */
    method ConvertVariables(vs: seq<VariableInfo>, from: Platform, strip: JChar -> JChar) returns (o: Outcome)
      requires Valid()
      modifies this
      ensures Valid()
      ensures Converted(Staged(), o) == ConvertAll(old(Staged()), vs, from, strip, SourceTypeOnly)
      ensures blockInfo == old(blockInfo) && variableLocation == old(variableLocation) && platform == old(platform)
    {
      var j := 0;
      while j < |vs|
        invariant 0 <= j <= |vs|
        invariant Valid()
        invariant blockInfo == old(blockInfo) && variableLocation == old(variableLocation) && platform == old(platform)
        invariant ConvertAll(Staged(), vs[j..], from, strip, SourceTypeOnly) == ConvertAll(old(Staged()), vs, from, strip, SourceTypeOnly)
      {
        assert vs[j..][0] == vs[j] && vs[j..][1..] == vs[j + 1..];
        o := Convert(vs[j], from, strip);
        if o.Fail? {
          return;
        }
        j := j + 1;
      }
      o := Pass;
    }

    /** One iteration of convertTo's inner loop, as ConvertStep states it. */
    method Convert(v: VariableInfo, from: Platform, strip: JChar -> JChar) returns (o: Outcome)
      requires Valid()
      modifies this
      ensures Valid()
      ensures Converted(Staged(), o) == ConvertStep(old(Staged()), v, from, strip, SourceTypeOnly)
      ensures blockInfo == old(blockInfo) && variableLocation == old(variableLocation) && platform == old(platform)
    {
      if from == Mobile && v.name == MY_SAVE_ID {
        RemoveVariable(v);
        return Pass;
      }
      if v.variableType != SourceType(from) || v.valSize == 0 {
        return Pass;
      }
      var oldValue: JString;
      if HasChange(v) {
        var read := ReadStringFromMap(changes[v.valOffset], from);
        if read.Failure? {
          return Fail(read.error);
        }
        oldValue := read.value;
      } else {
        if StringValueOf(v).None? {
          return Fail(NullPointer);
        }
        oldValue := StringValueOf(v).value;
      }
      var newValue := EncodeString(oldValue, TargetWidth(from), strip);
      var len := EncodeInt32(ToInt32(|oldValue|));
      StoreChange(v, len + newValue);
      o := Pass;
    }
  }

  /** The buffer insertVariable fills: a zeroed ByteBuffer of the record's size, the previous
      bytes, the header and the value put in turn, each put past the end an overflow. */
  method BuildRecord(prev: Option<Bytes>, v: VariableInfo) returns (r: Result<Bytes>)
    ensures r == InsertionBytes(prev, v)
  {
    var size := VariableBytesLength(v) + (if prev.Some? then |prev.value| else 0);
    if size < 0 {
      return Failure(IllegalArgument);
    }
    var buffer := new byte[size](_ => 0);
    var pos, ok := PutHeader(buffer, prev, v);
    if !ok {
      return Failure(BufferOverflow);
    }
    if v.variableType != Uid && v.variableType != String {
      return Failure(IllegalState);
    }
    if RecordValue(v).None? {
      return Failure(NullPointer);
    }
    pos, ok := PutValue(buffer, pos, v);
    if !ok {
      return Failure(BufferOverflow);
    }
    ZeroTail(buffer[..], pos);
    return Success(buffer[..]);
  }

  /** A sequence that is zero from n on is its first n elements followed by zeros. */
  lemma ZeroTail(s: Bytes, n: nat)
    requires n <= |s|
    requires forall i :: n <= i < |s| ==> s[i] == 0
    ensures s == s[..n] + Zeros(|s| - n)
  {
    assert s[n..] == Zeros(|s| - n);
    assert s == s[..n] + s[n..];
  }

  /** The puts of the previous bytes, the name length and the name. */
  method PutHeader(buffer: array<byte>, prev: Option<Bytes>, v: VariableInfo) returns (pos: nat, ok: bool)
    requires forall i :: 0 <= i < buffer.Length ==> buffer[i] == 0
    modifies buffer
    ensures ok <==> |RecordHeader(prev, v)| <= buffer.Length
    ensures ok ==> pos == |RecordHeader(prev, v)| && buffer[..pos] == RecordHeader(prev, v)
    ensures forall i :: pos <= i < buffer.Length ==> buffer[i] == 0
  {
    var p := if prev.Some? then prev.value else [];
    var n := EncodeInt32(ToInt32(|v.name|));
    ghost var h := RecordHeader(prev, v);
    assert h == p + n + Utf8(v.name);
    pos, ok := Put(buffer, 0, p);
    if !ok {
      return;
    }
    assert buffer[..pos] == p;
    pos, ok := Put(buffer, pos, n);
    if !ok {
      return;
    }
    pos, ok := Put(buffer, pos, Utf8(v.name));
  }

  /** The puts of the value: the identifier bytes, or the unit count and the UTF-8 text. */
  method PutValue(buffer: array<byte>, pos0: nat, v: VariableInfo) returns (pos: nat, ok: bool)
    requires v.variableType == Uid || v.variableType == String
    requires RecordValue(v).Some?
    requires pos0 <= buffer.Length
    requires forall i :: pos0 <= i < buffer.Length ==> buffer[i] == 0
    modifies buffer
    ensures ok <==> pos0 + |RecordValue(v).value| <= buffer.Length
    ensures ok ==> pos == pos0 + |RecordValue(v).value| && buffer[..pos] == old(buffer[..pos0]) + RecordValue(v).value
    ensures forall i :: pos <= i < buffer.Length ==> buffer[i] == 0
  {
    if v.variableType == Uid {
      pos, ok := Put(buffer, pos0, v.valueByteArray.value);
    } else {
      var s := v.valueString.value;
      pos, ok := Put(buffer, pos0, EncodeInt32(ToInt32(|s|)));
      if ok {
        pos, ok := Put(buffer, pos, Utf8(s));
      }
    }
  }

  /** ByteBuffer.put into a buffer that is zero from the position on: copies the bytes at the
      position and advances it, or reports an overflow and writes nothing when they do not fit. */
  method Put(buffer: array<byte>, pos: nat, data: Bytes) returns (next: nat, ok: bool)
    requires pos <= buffer.Length
    requires forall i :: pos <= i < buffer.Length ==> buffer[i] == 0
    modifies buffer
    ensures ok <==> pos + |data| <= buffer.Length
    ensures ok ==> next == pos + |data| && buffer[..next] == old(buffer[..pos]) + data
    ensures forall i :: next <= i < buffer.Length ==> buffer[i] == 0
    ensures !ok ==> next == pos && buffer[..] == old(buffer[..])
  {
    if pos + |data| > buffer.Length {
      return pos, false;
    }
    var k := 0;
    while k < |data|
      invariant 0 <= k <= |data|
      invariant buffer[..pos] == old(buffer[..pos])
      invariant forall i :: 0 <= i < k ==> buffer[pos + i] == data[i]
      invariant forall i :: pos + k <= i < buffer.Length ==> buffer[i] == 0
    {
      buffer[pos + k] := data[k];
      k := k + 1;
    }
    assert buffer[..pos + |data|] == old(buffer[..pos]) + data;
    return pos + |data|, true;
  }

  /** The loop of getIntValuesFromBlock over one block's occurrences. */
  method CollectIntValues(vs: seq<VariableInfo>, name: JString) returns (values: seq<int32>)
    ensures values == IntValues(vs, name)
  {
    values := [];
    var i := 0;
    while i < |vs|
      invariant 0 <= i <= |vs|
      invariant values + IntValues(vs[i..], name) == IntValues(vs, name)
    {
      var v := vs[i];
      IntValuesStep(values, vs, i, name);
      if GetValue(v) != NullValue && v.name == name && v.variableType == Integer {
        values := values + [v.valueInteger.value];
      }
      i := i + 1;
    }
    assert vs[i..] == [];
    assert values + [] == values;
  }

  /** The loop of getStringValuesFromBlock over one block's occurrences. */
  method CollectStringValues(vs: seq<VariableInfo>, name: JString) returns (values: seq<JString>)
    ensures values == StringValues(vs, name)
  {
    values := [];
    var i := 0;
    while i < |vs|
      invariant 0 <= i <= |vs|
      invariant values + StringValues(vs[i..], name) == StringValues(vs, name)
    {
      var v := vs[i];
      StringValuesStep(values, vs, i, name);
      if GetValue(v) != NullValue && v.name == name && IsString(v.variableType) {
        values := values + [StringValueOf(v).value];
      }
      i := i + 1;
    }
    assert vs[i..] == [];
    assert values + [] == values;
  }
}
