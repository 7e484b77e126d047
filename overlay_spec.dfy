/**
 * Value-level definitions of what the overlay's edits stage: the record an
 * insertion writes, the re-encoding a platform conversion applies to each
 * variable, and the values the block listings return. The FileDataMap class
 * is proved against these, and the lemmas here state the properties.
 */
module OverlaySpec {
  import opened Outcomes
  import opened ValueCodec
  import opened Variables
  import opened Blocks

  /** The two on-disk encodings a save file may be in. */
  datatype Platform = Windows | Mobile

  const MY_PLAYER_NAME: JString := Ascii("myPlayerName")
  const MY_SAVE_ID: JString := Ascii("mySaveId")

  /** The staged edits: offset to replacement bytes, and offset to the number of original bytes
      they replace. */
  datatype Overlay = Overlay(changes: map<int, Bytes>, lengths: map<int, int>)

  /** The writer can splice every staged change: each one has a recorded length. */
  predicate Covered(ov: Overlay) {
    ov.changes.Keys <= ov.lengths.Keys
  }

  /** A re-staged string value: the int32 unit count, then the units at the given width. */
  function Restaged(s: JString, w: CharWidth, strip: JChar -> JChar): (b: Bytes)
    ensures |b| == 4 + |s| * Unit(w)
  {
    EncodeInt32(ToInt32(|s|)) + StringBytes(s, w, strip)
  }

  /** The unit count leads a re-staged value, so the character count is kept. */
  lemma RestagedKeepsCount(s: JString, w: CharWidth, strip: JChar -> JChar)
    requires |s| < 0x8000_0000
    ensures DecodeInt32(Restaged(s, w, strip)) as int == |s|
    ensures Restaged(s, w, strip)[4..] == StringBytes(s, w, strip)
  {
    DecodeEncodeInt32(ToInt32(|s|));
    assert Restaged(s, w, strip)[..4] == EncodeInt32(ToInt32(|s|));
  }

  /** readStringFromMap with wide = true: drop the 4-byte count (copyOfRange(data, 4, length)
      fails when there are fewer than 4 bytes), decode as UTF-32LE from a mobile file or as
      UTF-16LE from a Windows one, and pass the text through the default charset, which leaves
      16-bit decoded text as it is. */
  function ReadStringFromMap(data: Bytes, from: Platform): (r: Result<JString>)
    ensures r.Failure? <==> |data| < 4
    ensures r.Failure? ==> r.error == IllegalArgument
    ensures r.Success? ==> WellPaired(r.value)
    ensures r.Success? && from == Windows ==> r.value == DecodeWide16(data[4..])
  {
    if |data| < 4 then Failure(IllegalArgument)
    else if from == Mobile then Success(Sanitize(DecodeWide32(data[4..])))
    else Success(Sanitize(DecodeWide16(data[4..])))
  }

  /** The texts a 32-bit re-staging reads back unchanged: once stripped, well paired and not
      led by a byte order mark, with stripping idempotent on them. */
  predicate Restageable(t: JString, strip: JChar -> JChar) {
    && WellPaired(StripAll(t, strip))
    && (|t| > 0 ==> strip(t[0]) != BYTE_ORDER_MARK)
    && forall i :: 0 <= i < |t| ==> strip(strip(t[i])) == strip(t[i])
  }

  /** A text re-staged at 32 bits reads back from mobile as its stripped units, and re-staging
      those at 16 bits writes what re-staging the text itself at 16 bits writes. */
  lemma Wide32Restaging(t: JString, strip: JChar -> JChar)
    requires Restageable(t, strip)
    ensures ReadStringFromMap(Restaged(t, Wide32, strip), Mobile) == Success(StripAll(t, strip))
    ensures Restaged(StripAll(t, strip), Wide16, strip) == Restaged(t, Wide16, strip)
  {
    Wide32RoundTrip(t, strip);
    assert Restaged(t, Wide32, strip)[4..] == StringBytes(t, Wide32, strip);
    StripEquivalentEncodeEqually(StripAll(t, strip), t, Wide16, strip);
  }

  /** Staging a 16-bit string and re-staging what is read back at 32 bits and then at 16 bits
      reproduces its bytes: the value read back at each step is the stripped text, and the
      16-bit record written at the end is the one there was at the start. This is about the
      values only; it needs the stripped text to be well paired, to hold no byte-swapped mark and
      not to begin with U+FEFF, and stripping to be idempotent on it. */
  lemma WideRestagingRoundTrip(s: JString, strip: JChar -> JChar)
    requires Restageable(s, strip)
    requires forall i :: 0 <= i < |s| ==> strip(s[i]) != REVERSED_MARK
    ensures var w16 := Restaged(s, Wide16, strip);
            var read16 := ReadStringFromMap(w16, Windows);
            && read16 == Success(StripAll(s, strip))
            && var w32 := Restaged(read16.value, Wide32, strip);
               var read32 := ReadStringFromMap(w32, Mobile);
               && read32 == Success(StripAll(s, strip))
               && Restaged(read32.value, Wide16, strip) == w16
  {
    var t := StripAll(s, strip);
    Wide16RoundTrip(s, strip);
    assert Restaged(s, Wide16, strip)[4..] == StringBytes(s, Wide16, strip);
    assert forall i :: 0 <= i < |t| ==> StripAll(t, strip)[i] == t[i];
    assert StripAll(t, strip) == t;
    Wide32Restaging(t, strip);
    Wide32Restaging(s, strip);
  }

  // ---------------------------------------------------------------------------
  // Insertion

  function Zeros(n: nat): (z: Bytes)
    ensures |z| == n && forall i :: 0 <= i < n ==> z[i] == 0
  {
    seq(n, _ => 0)
  }

  /** What insertVariable appends to: the bytes staged at the offset, unless overwriting. */
  function PrevAt(changes: map<int, Bytes>, offset: int, overwrite: bool): Option<Bytes>
  {
    if offset in changes && !overwrite then Some(changes[offset]) else None
  }

  /** The bytes insertVariable writes before the value: the previous bytes, then the name's
      length as an int32, then the name's UTF-8 bytes. */
  function RecordHeader(prev: Option<Bytes>, v: VariableInfo): (h: Bytes)
    ensures var p := if prev.Some? then prev.value else [];
            && |h| == |p| + 4 + |Utf8(v.name)| && h[..|p|] == p
            && DecodeInt32(h[|p|..]) == ToInt32(|v.name|) && h[|p| + 4..] == Utf8(v.name)
  {
    var p := if prev.Some? then prev.value else [];
    var n := EncodeInt32(ToInt32(|v.name|));
    DecodeEncodeInt32(ToInt32(|v.name|));
    Unsigned32Prefix(n, Utf8(v.name));
    assert (p + n + Utf8(v.name))[|p|..] == n + Utf8(v.name);
    p + n + Utf8(v.name)
  }

  /** What insertVariable writes after the header: the 16 identifier bytes for a UID, the unit
      count as an int32 and then the UTF-8 bytes for a narrow string. None when the value is
      null. */
  function RecordValue(v: VariableInfo): (r: Option<Bytes>)
    requires v.variableType == Uid || v.variableType == String
    ensures r.Some? <==> if v.variableType == Uid then v.valueByteArray.Some? else v.valueString.Some?
    ensures r.Some? && v.variableType == Uid ==> r == v.valueByteArray
    ensures r.Some? && v.variableType == String ==>
              var t := v.valueString.value;
              |r.value| == 4 + |Utf8(t)| && DecodeInt32(r.value) == ToInt32(|t|) && r.value[4..] == Utf8(t)
  {
    if v.variableType == Uid then v.valueByteArray
    else if v.valueString.None? then None
    else
      var n := EncodeInt32(ToInt32(|v.valueString.value|));
      DecodeEncodeInt32(ToInt32(|v.valueString.value|));
      Unsigned32Prefix(n, Utf8(v.valueString.value));
      Some(n + Utf8(v.valueString.value))
  }

  /** The buffer insertVariable stages: allocated at the descriptor's span plus the previous
      bytes, filled with header and value, and zero past what was written. Fails as Java does:
      a negative size, a put past the end, a null value, a type other than UID or string. */
  function InsertionBytes(prev: Option<Bytes>, v: VariableInfo): (r: Result<Bytes>)
    ensures r.Success? ==> |r.value| == VariableBytesLength(v) + (if prev.Some? then |prev.value| else 0)
    ensures r.Success? && prev.Some? ==> |prev.value| <= |r.value| && r.value[..|prev.value|] == prev.value
    ensures r.Success? ==> (v.variableType == Uid || v.variableType == String) && RecordValue(v).Some?
    ensures r.Success? ==> var w := RecordHeader(prev, v) + RecordValue(v).value;
                           |w| <= |r.value| && r.value == w + Zeros(|r.value| - |w|)
  {
    var size := VariableBytesLength(v) + (if prev.Some? then |prev.value| else 0);
    var header := RecordHeader(prev, v);
    if size < 0 then Failure(IllegalArgument)
    else if |header| > size then Failure(BufferOverflow)
    else if v.variableType != Uid && v.variableType != String then Failure(IllegalState)
    else if RecordValue(v).None? then Failure(NullPointer)
    else
      var w := header + RecordValue(v).value;
      if |w| > size then Failure(BufferOverflow)
      else Success(w + Zeros(size - |w|))
  }

  /** Two insertions at one offset without overwrite stage the first record followed by the
      second, in order. */
  lemma InsertionsCompose(prev: Option<Bytes>, v1: VariableInfo, v2: VariableInfo)
    requires InsertionBytes(prev, v1).Success? && InsertionBytes(None, v2).Success?
    ensures InsertionBytes(Some(InsertionBytes(prev, v1).value), v2)
            == Success(InsertionBytes(prev, v1).value + InsertionBytes(None, v2).value)
  {
    var a := InsertionBytes(prev, v1).value;
    var b := InsertionBytes(None, v2).value;
    var vb := RecordValue(v2).value;
    var h2 := RecordHeader(None, v2);
    var w2 := h2 + vb;
    var z := Zeros(|b| - |w2|);
    assert b == w2 + z;
    HeaderAfter(a, v2);
    AppendAssociative(a, h2, vb);
    AppendAssociative(a, w2, z);
  }

  /** A header written after previous bytes is those bytes followed by the header alone. */
  lemma HeaderAfter(a: Bytes, v: VariableInfo)
    ensures RecordHeader(Some(a), v) == a + RecordHeader(None, v)
  {
  }

  /** mySaveId as convertTo builds it: a narrow string at the player name's key offset. */
  function SaveIdVariable(blockStart: int, keyOffset: int, saveId: JString): (v: VariableInfo)
    ensures v.name == MY_SAVE_ID && v.variableType == String && v.valueString == Some(saveId)
    ensures v.keyOffset == keyOffset && v.blockOffset == blockStart
  {
    Build(NEW_BUILDER.(name := Some(MY_SAVE_ID), blockOffset := blockStart, keyOffset := keyOffset,
                       variableType := Some(String), valueString := Some(saveId))).value
  }

  /** For a narrow string the builder positioned, with an ASCII name and value: insertion
      allocates the record's length plus 4 and writes the record, so 4 zero bytes trail it. */
  lemma BuiltStringInsertionPadding(b: Builder)
    requires b.name.Some? && b.variableType == Some(String) && b.valueString.Some?
    requires b.valOffset == -1 && b.valSize == -1 && b.keyOffset >= 0
    requires IsAscii(b.name.value) && IsAscii(b.valueString.value)
    ensures var v := Build(b).value;
            InsertionBytes(None, v) == Success(EncodeInt32(ToInt32(|v.name|)) + Utf8(v.name)
                                             + EncodeInt32(ToInt32(|b.valueString.value|)) + Utf8(b.valueString.value)
                                             + Zeros(4))
  {
    BuiltRecordSpan(b);
    StringInsertionPadding(Build(b).value);
  }

  /** A narrow string whose span is its record plus 4, with an ASCII name and value, is inserted
      as its record followed by 4 zero bytes. */
  lemma StringInsertionPadding(v: VariableInfo)
    requires v.variableType == String && v.valueString.Some?
    requires IsAscii(v.name) && IsAscii(v.valueString.value)
    requires VariableBytesLength(v) == RecordLength(|v.name|, String, |v.valueString.value|) + 4
    ensures InsertionBytes(None, v) == Success(EncodeInt32(ToInt32(|v.name|)) + Utf8(v.name)
                                             + EncodeInt32(ToInt32(|v.valueString.value|)) + Utf8(v.valueString.value)
                                             + Zeros(4))
  {
    var s := v.valueString.value;
    Utf8OfAscii(v.name);
    Utf8OfAscii(s);
    var h := EncodeInt32(ToInt32(|v.name|)) + Utf8(v.name);
    var r := EncodeInt32(ToInt32(|s|)) + Utf8(s);
    assert RecordHeader(None, v) == [] + h;
    assert [] + h == h;
    assert RecordValue(v).value == r;
    AppendAssociative(h, EncodeInt32(ToInt32(|s|)), Utf8(s));
    var w := h + r;
    assert |w| + 4 == VariableBytesLength(v);
  }

  // ---------------------------------------------------------------------------
  // Platform conversion, one variable at a time

  /** The string type a conversion re-encodes: 16-bit leaving Windows, 32-bit leaving mobile. */
  function SourceType(from: Platform): VariableType {
    if from == Windows then StringUtf16Le else StringUtf32Le
  }

  /** The width it re-encodes to: 32-bit leaving Windows, 16-bit leaving mobile. */
  function TargetWidth(from: Platform): CharWidth {
    if from == Windows then Wide32 else Wide16
  }

  /** The text a conversion re-encodes: the staged value when there is one, else the
      parse-time value, which is null for a 32-bit string. */
  function SourceString(ov: Overlay, v: VariableInfo, from: Platform): (r: Result<JString>)
    requires IsString(v.variableType)
    ensures v.valOffset !in ov.changes ==> (r.Success? <==> StringValueOf(v).Some?)
    ensures v.valOffset !in ov.changes && r.Success? ==> r.value == v.valueString.value
  {
    if v.valOffset in ov.changes then ReadStringFromMap(ov.changes[v.valOffset], from)
    else if StringValueOf(v).Some? then Success(StringValueOf(v).value)
    else Failure(NullPointer)
  }

  datatype Converted = Converted(overlay: Overlay, outcome: Outcome)

  /** Which strings a conversion re-encodes. As convertTo is written, those whose parse-time
      type is the source platform's wide type; as the design intends, every wide string, since
      after one conversion the wide strings of either parse-time type are staged at the
      current platform's width. */
  datatype Scope = SourceTypeOnly | EveryWide

  /** Whether convertTo treats the occurrence as the synthesized save identifier to remove. */
  predicate IsSaveId(v: VariableInfo, from: Platform) {
    from == Mobile && v.name == MY_SAVE_ID
  }

  /** Whether a conversion in the scope re-stages the occurrence: a non-empty string of a
      re-encoded type that is not the save identifier being removed. */
  predicate Reencodes(v: VariableInfo, from: Platform, scope: Scope) {
    && !IsSaveId(v, from) && v.valSize != 0
    && if scope == SourceTypeOnly then v.variableType == SourceType(from)
       else v.variableType == StringUtf16Le || v.variableType == StringUtf32Le
  }

  /** The offsets one occurrence's conversion step writes. */
  function TouchedBy(v: VariableInfo, from: Platform, scope: Scope): set<int> {
    if IsSaveId(v, from) then {v.keyOffset}
    else if Reencodes(v, from, scope) then {v.valOffset}
    else {}
  }

  /** One iteration of convertTo's inner loop. Leaving mobile, mySaveId is removed over its span;
      a string the scope re-encodes is re-staged at the target width with the same unit count;
      anything else is left alone. It writes only the offsets the occurrence touches, and when
      the text cannot be read it fails and writes nothing. */
  function ConvertStep(ov: Overlay, v: VariableInfo, from: Platform, strip: JChar -> JChar, scope: Scope): (r: Converted)
    ensures r.outcome.Fail? ==> && r.overlay == ov && Reencodes(v, from, scope)
                                && (r.outcome.error == IllegalArgument || r.outcome.error == NullPointer)
    ensures r.outcome.Pass? ==> && r.overlay.changes.Keys == ov.changes.Keys + TouchedBy(v, from, scope)
                                && r.overlay.lengths.Keys == ov.lengths.Keys + TouchedBy(v, from, scope)
    ensures forall k :: k in ov.changes && k !in TouchedBy(v, from, scope) ==> r.overlay.changes[k] == ov.changes[k]
    ensures forall k :: k in ov.lengths && k !in TouchedBy(v, from, scope) ==> r.overlay.lengths[k] == ov.lengths[k]
  {
    if IsSaveId(v, from) then
      Converted(Overlay(ov.changes[v.keyOffset := []], ov.lengths[v.keyOffset := VariableBytesLength(v)]), Pass)
    else if !Reencodes(v, from, scope) then Converted(ov, Pass)
    else
      var s := SourceString(ov, v, from);
      if s.Failure? then Converted(ov, Fail(s.error))
      else
        Converted(Overlay(ov.changes[v.valOffset := Restaged(s.value, TargetWidth(from), strip)],
                          ov.lengths[v.valOffset := ValuePrefix(v.variableType) + ValBytesLength(v)]), Pass)
  }

  /** convertTo's loops over a sequence of occurrences: each step in turn, stopping at the first
      exception with the edits made so far left in place. Nothing staged is dropped, and the
      only exceptions are the two a string read raises. */
  function ConvertAll(ov: Overlay, occs: seq<VariableInfo>, from: Platform, strip: JChar -> JChar, scope: Scope): (r: Converted)
    ensures ov.changes.Keys <= r.overlay.changes.Keys && ov.lengths.Keys <= r.overlay.lengths.Keys
    ensures r.outcome.Fail? ==> r.outcome.error == IllegalArgument || r.outcome.error == NullPointer
    decreases |occs|
  {
    if occs == [] then Converted(ov, Pass)
    else
      var c := ConvertStep(ov, occs[0], from, strip, scope);
      if c.outcome.Fail? then c else ConvertAll(c.overlay, occs[1..], from, strip, scope)
  }

  /** Converting a concatenation converts the first part, then, unless that failed, the second
      from where the first left off. */
  lemma {:induction false} ConvertAllAppend(ov: Overlay, a: seq<VariableInfo>, b: seq<VariableInfo>, from: Platform, strip: JChar -> JChar, scope: Scope)
    ensures var c := ConvertAll(ov, a, from, strip, scope);
            ConvertAll(ov, a + b, from, strip, scope) == if c.outcome.Fail? then c else ConvertAll(c.overlay, b, from, strip, scope)
    decreases |a|
  {
    if a == [] {
      assert a + b == b;
    } else {
      assert (a + b)[0] == a[0] && (a + b)[1..] == a[1..] + b;
      var c := ConvertStep(ov, a[0], from, strip, scope);
      if c.outcome.Pass? {
        ConvertAllAppend(c.overlay, a[1..], b, from, strip, scope);
      }
    }
  }

  /** Every occurrence of every block, blocks in the given order. */
  function AllOccurrences(blocks: map<int, BlockInfo>, order: seq<int>): seq<VariableInfo>
    requires forall i :: 0 <= i < |order| ==> order[i] in blocks
  {
    if order == [] then []
    else
      blocks[order[0]].variables + AllOccurrences(blocks, order[1..])
  }

  /** An occurrence is listed exactly when it belongs to one of the blocks in the order. */
  lemma {:induction false} AllOccurrencesMembers(blocks: map<int, BlockInfo>, order: seq<int>, v: VariableInfo)
    requires forall i :: 0 <= i < |order| ==> order[i] in blocks
    ensures v in AllOccurrences(blocks, order) <==> exists i :: 0 <= i < |order| && v in blocks[order[i]].variables
    decreases |order|
  {
    if order != [] {
      assert forall i :: 0 <= i < |order[1..]| ==> order[1..][i] == order[i + 1];
      AllOccurrencesMembers(blocks, order[1..], v);
      if v in AllOccurrences(blocks, order[1..]) {
        var i :| 0 <= i < |order[1..]| && v in blocks[order[1..][i]].variables;
        assert v in blocks[order[i + 1]].variables;
      }
      if exists i :: 0 <= i < |order| && v in blocks[order[i]].variables {
        var i :| 0 <= i < |order| && v in blocks[order[i]].variables;
        if i > 0 { assert order[1..][i - 1] == order[i]; }
      }
    }
  }

  /** The occurrences depend on the blocks' variables only, not on their staging maps. */
  lemma {:induction false} AllOccurrencesIgnoreStaging(a: map<int, BlockInfo>, b: map<int, BlockInfo>, order: seq<int>)
    requires forall i :: 0 <= i < |order| ==> order[i] in a && order[i] in b && a[order[i]].variables == b[order[i]].variables
    ensures AllOccurrences(a, order) == AllOccurrences(b, order)
  {
    if order != [] {
      assert forall i :: 0 <= i < |order[1..]| ==> order[1..][i] == order[i + 1];
      AllOccurrencesIgnoreStaging(a, b, order[1..]);
    }
  }

  /** Conversion keeps every staged change covered by a recorded length. */
  lemma {:induction false} ConvertAllCovered(ov: Overlay, occs: seq<VariableInfo>, from: Platform, strip: JChar -> JChar, scope: Scope)
    requires Covered(ov)
    ensures Covered(ConvertAll(ov, occs, from, strip, scope).overlay)
    decreases |occs|
  {
    if occs != [] {
      var c := ConvertStep(ov, occs[0], from, strip, scope);
      if c.outcome.Pass? {
        ConvertAllCovered(c.overlay, occs[1..], from, strip, scope);
      }
    }
  }

  /** Conversion leaves every offset no occurrence's step writes exactly as it was:
      non-string variables and strings outside the scope are untouched. */
  lemma {:induction false} ConvertAllFrame(ov: Overlay, occs: seq<VariableInfo>, from: Platform, strip: JChar -> JChar, scope: Scope, k: int)
    requires forall j :: 0 <= j < |occs| ==> k !in TouchedBy(occs[j], from, scope)
    ensures var r := ConvertAll(ov, occs, from, strip, scope).overlay;
            && (k in r.changes <==> k in ov.changes) && (k in ov.changes ==> r.changes[k] == ov.changes[k])
            && (k in r.lengths <==> k in ov.lengths) && (k in ov.lengths ==> r.lengths[k] == ov.lengths[k])
    decreases |occs|
  {
    if occs != [] {
      assert k !in TouchedBy(occs[0], from, scope);
      var c := ConvertStep(ov, occs[0], from, strip, scope);
      if c.outcome.Pass? {
        forall j | 0 <= j < |occs[1..]| ensures k !in TouchedBy(occs[1..][j], from, scope) {
          assert occs[1..][j] == occs[j + 1];
        }
        ConvertAllFrame(c.overlay, occs[1..], from, strip, scope, k);
      }
    }
  }

  /** When conversion completes, a string the scope re-encodes whose value offset no other
      occurrence writes holds its text, read through the overlay, re-staged at the target
      width with its unit count, and its recorded length is the descriptor's prefix plus value
      bytes. */
  lemma {:induction false} ConvertAllRestages(ov: Overlay, occs: seq<VariableInfo>, from: Platform, strip: JChar -> JChar, scope: Scope, i: nat)
    requires i < |occs| && Reencodes(occs[i], from, scope)
    requires forall j :: 0 <= j < |occs| && j != i ==> occs[i].valOffset !in TouchedBy(occs[j], from, scope)
    requires ConvertAll(ov, occs, from, strip, scope).outcome == Pass
    ensures var v := occs[i];
            var s := SourceString(ov, v, from);
            var r := ConvertAll(ov, occs, from, strip, scope).overlay;
            && s.Success?
            && v.valOffset in r.changes && r.changes[v.valOffset] == Restaged(s.value, TargetWidth(from), strip)
            && v.valOffset in r.lengths && r.lengths[v.valOffset] == ValuePrefix(v.variableType) + ValBytesLength(v)
    decreases |occs|
  {
    var v := occs[i];
    var c := ConvertStep(ov, occs[0], from, strip, scope);
    assert c.outcome == Pass;
    forall j | 0 <= j < |occs[1..]| && (i == 0 || j != i - 1)
      ensures v.valOffset !in TouchedBy(occs[1..][j], from, scope)
    {
      assert occs[1..][j] == occs[j + 1];
    }
    if i == 0 {
      ConvertAllFrame(c.overlay, occs[1..], from, strip, scope, v.valOffset);
    } else {
      assert v.valOffset !in TouchedBy(occs[0], from, scope);
      assert occs[1..][i - 1] == v;
      ConvertAllRestages(c.overlay, occs[1..], from, strip, scope, i - 1);
      assert SourceString(c.overlay, v, from) == SourceString(ov, v, from);
    }
  }

  /** When a conversion from mobile completes, every mySaveId occurrence whose key offset no
      other occurrence writes has been removed: empty bytes over its whole span. */
  lemma {:induction false} ConvertAllRemovesSaveId(ov: Overlay, occs: seq<VariableInfo>, strip: JChar -> JChar, scope: Scope, i: nat)
    requires i < |occs| && occs[i].name == MY_SAVE_ID
    requires forall j :: 0 <= j < |occs| && j != i ==> occs[i].keyOffset !in TouchedBy(occs[j], Mobile, scope)
    requires ConvertAll(ov, occs, Mobile, strip, scope).outcome == Pass
    ensures var r := ConvertAll(ov, occs, Mobile, strip, scope).overlay;
            && occs[i].keyOffset in r.changes && r.changes[occs[i].keyOffset] == []
            && occs[i].keyOffset in r.lengths && r.lengths[occs[i].keyOffset] == VariableBytesLength(occs[i])
    decreases |occs|
  {
    var v := occs[i];
    var c := ConvertStep(ov, occs[0], Mobile, strip, scope);
    assert c.outcome == Pass;
    forall j | 0 <= j < |occs[1..]| && (i == 0 || j != i - 1)
      ensures v.keyOffset !in TouchedBy(occs[1..][j], Mobile, scope)
    {
      assert occs[1..][j] == occs[j + 1];
    }
    if i == 0 {
      ConvertAllFrame(c.overlay, occs[1..], Mobile, strip, scope, v.keyOffset);
    } else {
      assert occs[1..][i - 1] == v;
      ConvertAllRemovesSaveId(c.overlay, occs[1..], strip, scope, i - 1);
    }
  }

  /** Leaving mobile, a non-empty 32-bit string with no staged edit cannot be converted:
      getValueString() is null for that type, so the step fails with NullPointer whatever the
      parse-time text is. */
  lemma ConvertUnstagedWide32Fails(ov: Overlay, v: VariableInfo, strip: JChar -> JChar, scope: Scope)
    requires v.variableType == StringUtf32Le && v.valSize != 0 && v.name != MY_SAVE_ID
    requires v.valOffset !in ov.changes
    ensures ConvertStep(ov, v, Mobile, strip, scope) == Converted(ov, Fail(NullPointer))
  {
  }

  /** A conversion fails only at a string the scope re-encodes whose text cannot be read:
      a staged value shorter than its count prefix, or a null parse-time value. */
  lemma {:induction false} ConvertAllFailure(ov: Overlay, occs: seq<VariableInfo>, from: Platform, strip: JChar -> JChar, scope: Scope)
    requires ConvertAll(ov, occs, from, strip, scope).outcome.Fail?
    ensures exists v :: v in occs && Reencodes(v, from, scope)
    decreases |occs|
  {
    var c := ConvertStep(ov, occs[0], from, strip, scope);
    if c.outcome.Pass? {
      ConvertAllFailure(c.overlay, occs[1..], from, strip, scope);
      var v :| v in occs[1..] && Reencodes(v, from, scope);
      assert v in occs;
    } else {
      assert occs[0] in occs;
    }
  }

  /** No two occurrences write the same offset. */
  predicate DisjointTouches(occs: seq<VariableInfo>, from: Platform, scope: Scope) {
    forall i, j :: 0 <= i < |occs| && 0 <= j < |occs| && i != j ==> TouchedBy(occs[i], from, scope) !! TouchedBy(occs[j], from, scope)
  }

  /** A conversion whose occurrences write disjoint offsets completes when every text it
      re-encodes can be read from where it started. */
  lemma {:induction false} ConvertAllPasses(ov: Overlay, occs: seq<VariableInfo>, from: Platform, strip: JChar -> JChar, scope: Scope)
    requires DisjointTouches(occs, from, scope)
    requires forall j :: 0 <= j < |occs| && Reencodes(occs[j], from, scope) ==> SourceString(ov, occs[j], from).Success?
    ensures ConvertAll(ov, occs, from, strip, scope).outcome == Pass
    decreases |occs|
  {
    if occs != [] {
      var c := ConvertStep(ov, occs[0], from, strip, scope);
      var rest := occs[1..];
      forall j | 0 <= j < |rest| && Reencodes(rest[j], from, scope)
        ensures SourceString(c.overlay, rest[j], from).Success?
      {
        assert rest[j] == occs[j + 1];
        assert rest[j].valOffset in TouchedBy(occs[j + 1], from, scope);
        assert rest[j].valOffset !in TouchedBy(occs[0], from, scope);
        assert SourceString(c.overlay, rest[j], from) == SourceString(ov, rest[j], from);
      }
      forall i, j | 0 <= i < |rest| && 0 <= j < |rest| && i != j
        ensures TouchedBy(rest[i], from, scope) !! TouchedBy(rest[j], from, scope)
      {
        assert rest[i] == occs[i + 1] && rest[j] == occs[j + 1];
      }
      ConvertAllPasses(c.overlay, rest, from, strip, scope);
    }
  }

  // ---------------------------------------------------------------------------
  // Converting to mobile and back

  /** The parsed occurrences of a document from Windows: no 32-bit string and no mySaveId. */
  predicate WindowsDocument(occs: seq<VariableInfo>) {
    forall j :: 0 <= j < |occs| ==> occs[j].variableType != StringUtf32Le && occs[j].name != MY_SAVE_ID
  }

  /** As convertTo is written, converting a Windows document back from mobile does nothing:
      its parsed occurrences hold no 32-bit string to re-encode and no mySaveId to remove, the
      one inserted on the way there being in a block's staging map only. */
  lemma {:induction false} AsWrittenConversionBackIsIdle(ov: Overlay, occs: seq<VariableInfo>, strip: JChar -> JChar)
    requires WindowsDocument(occs)
    ensures ConvertAll(ov, occs, Mobile, strip, SourceTypeOnly) == Converted(ov, Pass)
    decreases |occs|
  {
    if occs != [] {
      assert ConvertStep(ov, occs[0], Mobile, strip, SourceTypeOnly) == Converted(ov, Pass);
      assert WindowsDocument(occs[1..]) by {
        forall j | 0 <= j < |occs[1..]| ensures occs[1..][j].variableType != StringUtf32Le && occs[1..][j].name != MY_SAVE_ID {
          assert occs[1..][j] == occs[j + 1];
        }
      }
      AsWrittenConversionBackIsIdle(ov, occs[1..], strip);
    }
  }

  /** So a Windows to mobile to Windows round trip, as written, leaves a 16-bit string staged
      at 32 bits, which differs from its 16-bit record whenever the text is not empty. */
  lemma AsWrittenRoundTrip(ov: Overlay, occs: seq<VariableInfo>, strip: JChar -> JChar, i: nat)
    requires WindowsDocument(occs)
    requires i < |occs| && occs[i].variableType == StringUtf16Le && occs[i].valSize != 0
    requires forall j :: 0 <= j < |occs| && j != i ==> occs[i].valOffset !in TouchedBy(occs[j], Windows, SourceTypeOnly)
    requires ConvertAll(ov, occs, Windows, strip, SourceTypeOnly).outcome == Pass
    ensures var there := ConvertAll(ov, occs, Windows, strip, SourceTypeOnly);
            var back := ConvertAll(there.overlay, occs, Mobile, strip, SourceTypeOnly);
            var s := SourceString(ov, occs[i], Windows);
            && back.outcome == Pass && s.Success?
            && occs[i].valOffset in back.overlay.changes
            && back.overlay.changes[occs[i].valOffset] == Restaged(s.value, Wide32, strip)
            && (|s.value| > 0 ==> back.overlay.changes[occs[i].valOffset] != Restaged(s.value, Wide16, strip))
  {
    var there := ConvertAll(ov, occs, Windows, strip, SourceTypeOnly);
    ConvertAllRestages(ov, occs, Windows, strip, SourceTypeOnly, i);
    AsWrittenConversionBackIsIdle(there.overlay, occs, strip);
    var s := SourceString(ov, occs[i], Windows);
    if s.Success? && |s.value| > 0 {
      RestagedWidthsDiffer(s.value, strip);
    }
  }

  /** ... and leaves whatever the trip to mobile did not touch (the mySaveId record inserted at
      the player name's key offset among it) staged as it was. */
  lemma AsWrittenRoundTripKeeps(ov: Overlay, occs: seq<VariableInfo>, strip: JChar -> JChar, k: int)
    requires WindowsDocument(occs)
    requires forall j :: 0 <= j < |occs| ==> k !in TouchedBy(occs[j], Windows, SourceTypeOnly)
    requires ConvertAll(ov, occs, Windows, strip, SourceTypeOnly).outcome == Pass
    ensures var there := ConvertAll(ov, occs, Windows, strip, SourceTypeOnly);
            var back := ConvertAll(there.overlay, occs, Mobile, strip, SourceTypeOnly);
            && back.outcome == Pass
            && (k in back.overlay.changes <==> k in ov.changes)
            && (k in ov.changes ==> back.overlay.changes[k] == ov.changes[k])
  {
    var there := ConvertAll(ov, occs, Windows, strip, SourceTypeOnly);
    ConvertAllFrame(ov, occs, Windows, strip, SourceTypeOnly, k);
    AsWrittenConversionBackIsIdle(there.overlay, occs, strip);
  }

  /** A non-empty text re-staged at 32 bits is longer than at 16 bits. */
  lemma RestagedWidthsDiffer(s: JString, strip: JChar -> JChar)
    requires |s| > 0
    ensures |Restaged(s, Wide16, strip)| < |Restaged(s, Wide32, strip)|
  {
    assert |s| * Unit(Wide16) == 2 * |s| && |s| * Unit(Wide32) == 4 * |s|;
  }

  /** Taking the synthesized save identifier back out, as the design intends: the insertion
      staged at its key offset is withdrawn, and every other offset is kept. */
  function WithdrawInsertion(ov: Overlay, k: int): (r: Overlay)
    ensures k !in r.changes && k !in r.lengths
    ensures forall o :: o != k ==> (o in r.changes <==> o in ov.changes) && (o in r.lengths <==> o in ov.lengths)
    ensures forall o :: o != k && o in ov.changes ==> r.changes[o] == ov.changes[o]
    ensures forall o :: o != k && o in ov.lengths ==> r.lengths[o] == ov.lengths[o]
  {
    Overlay(ov.changes - {k}, ov.lengths - {k})
  }

  /** The conversion back from mobile as the design describes it: every wide string, whatever
      its parse-time type, re-staged at 16 bits, and the mySaveId insertion at its key offset
      withdrawn. */
  function ConvertBackIntended(ov: Overlay, occs: seq<VariableInfo>, saveIdKey: int, strip: JChar -> JChar): (r: Converted)
    ensures r.outcome.Pass? ==> saveIdKey !in r.overlay.changes && saveIdKey !in r.overlay.lengths
    ensures r.outcome.Fail? ==> r == ConvertAll(ov, occs, Mobile, strip, EveryWide)
  {
    var c := ConvertAll(ov, occs, Mobile, strip, EveryWide);
    if c.outcome.Fail? then c else Converted(WithdrawInsertion(c.overlay, saveIdKey), Pass)
  }

  /** On a Windows document, every wide string is touched alike whichever way the conversion
      goes. */
  lemma EveryWideTouchesAlike(occs: seq<VariableInfo>)
    requires WindowsDocument(occs)
    ensures forall j :: 0 <= j < |occs| ==> TouchedBy(occs[j], Mobile, EveryWide) == TouchedBy(occs[j], Windows, EveryWide)
  {
  }

  /** The setting of the intended round trip: a Windows document whose wide strings have
      distinct value offsets, none of them the player name's key offset k, where nothing was
      staged at k before mySaveId was inserted there, and each wide string's text can be read
      and suits a 32-bit re-staging. */
  predicate RoundTripReady(ov: Overlay, occs: seq<VariableInfo>, strip: JChar -> JChar, k: int) {
    && WindowsDocument(occs) && DisjointTouches(occs, Windows, EveryWide)
    && (forall j :: 0 <= j < |occs| ==> k !in TouchedBy(occs[j], Windows, EveryWide))
    && k !in ov.changes && k !in ov.lengths
    && forall j :: 0 <= j < |occs| && Reencodes(occs[j], Windows, EveryWide) ==>
         SourceString(ov, occs[j], Windows).Success? && Restageable(SourceString(ov, occs[j], Windows).value, strip)
  }

  /** The overlay convertTo converts when leaving Windows: mySaveId's record staged at k as an
      insertion. */
  function Inserted(ov: Overlay, k: int, rec: Bytes): (r: Overlay)
    ensures k in r.changes && r.changes[k] == rec && k in r.lengths && r.lengths[k] == 0
  {
    Overlay(ov.changes[k := rec], ov.lengths[k := 0])
  }

  /** In that setting, the intended conversions to mobile and back both complete. */
  lemma IntendedRoundTripCompletes(ov: Overlay, occs: seq<VariableInfo>, strip: JChar -> JChar, k: int, rec: Bytes)
    requires RoundTripReady(ov, occs, strip, k)
    ensures var there := ConvertAll(Inserted(ov, k, rec), occs, Windows, strip, EveryWide);
            && there.outcome == Pass
            && ConvertBackIntended(there.overlay, occs, k, strip).outcome == Pass
  {
    var ins := Inserted(ov, k, rec);
    forall j | 0 <= j < |occs| && Reencodes(occs[j], Windows, EveryWide)
      ensures SourceString(ins, occs[j], Windows) == SourceString(ov, occs[j], Windows)
    {
      assert occs[j].valOffset in TouchedBy(occs[j], Windows, EveryWide);
    }
    ConvertAllPasses(ins, occs, Windows, strip, EveryWide);
    var there := ConvertAll(ins, occs, Windows, strip, EveryWide);
    EveryWideTouchesAlike(occs);
    forall j | 0 <= j < |occs| && Reencodes(occs[j], Mobile, EveryWide)
      ensures SourceString(there.overlay, occs[j], Mobile).Success?
    {
      RoundTripOccurrence(ov, occs, strip, k, rec, j);
    }
    ConvertAllPasses(there.overlay, occs, Mobile, strip, EveryWide);
  }

  /** In that setting, the intended round trip leaves every offset no wide string occupies, k
      included, as it was before the insertion. */
  lemma IntendedRoundTripKeeps(ov: Overlay, occs: seq<VariableInfo>, strip: JChar -> JChar, k: int, rec: Bytes, o: int)
    requires RoundTripReady(ov, occs, strip, k)
    requires forall j :: 0 <= j < |occs| ==> o !in TouchedBy(occs[j], Windows, EveryWide)
    ensures var there := ConvertAll(Inserted(ov, k, rec), occs, Windows, strip, EveryWide);
            var back := ConvertBackIntended(there.overlay, occs, k, strip).overlay;
            && (o in back.changes <==> o in ov.changes) && (o in ov.changes ==> back.changes[o] == ov.changes[o])
            && (o in back.lengths <==> o in ov.lengths) && (o in ov.lengths ==> back.lengths[o] == ov.lengths[o])
  {
    IntendedRoundTripCompletes(ov, occs, strip, k, rec);
    var there := ConvertAll(Inserted(ov, k, rec), occs, Windows, strip, EveryWide);
    EveryWideTouchesAlike(occs);
    ConvertAllFrame(Inserted(ov, k, rec), occs, Windows, strip, EveryWide, o);
    ConvertAllFrame(there.overlay, occs, Mobile, strip, EveryWide, o);
  }

  /** In that setting, the intended round trip leaves every wide string staged as the 16-bit
      record of the text it started with, over the span of its original value. */
  lemma IntendedRoundTripRestores(ov: Overlay, occs: seq<VariableInfo>, strip: JChar -> JChar, k: int, rec: Bytes, i: nat)
    requires RoundTripReady(ov, occs, strip, k)
    requires i < |occs| && Reencodes(occs[i], Windows, EveryWide)
    ensures var there := ConvertAll(Inserted(ov, k, rec), occs, Windows, strip, EveryWide);
            var back := ConvertBackIntended(there.overlay, occs, k, strip).overlay;
            var v := occs[i];
            && v.valOffset in back.changes
            && back.changes[v.valOffset] == Restaged(SourceString(ov, v, Windows).value, Wide16, strip)
            && v.valOffset in back.lengths
            && back.lengths[v.valOffset] == ValuePrefix(v.variableType) + ValBytesLength(v)
  {
    IntendedRoundTripCompletes(ov, occs, strip, k, rec);
    var there := ConvertAll(Inserted(ov, k, rec), occs, Windows, strip, EveryWide);
    EveryWideTouchesAlike(occs);
    var v := occs[i];
    assert v.valOffset in TouchedBy(v, Windows, EveryWide);
    assert v.valOffset != k;
    RoundTripOccurrence(ov, occs, strip, k, rec, i);
    ConvertAllRestages(there.overlay, occs, Mobile, strip, EveryWide, i);
  }

  /** One wide string on the round trip: after the trip to mobile it reads back from mobile as
      its stripped text, whose 16-bit re-staging is the text's own. */
  lemma RoundTripOccurrence(ov: Overlay, occs: seq<VariableInfo>, strip: JChar -> JChar, k: int, rec: Bytes, j: nat)
    requires RoundTripReady(ov, occs, strip, k)
    requires j < |occs| && Reencodes(occs[j], Windows, EveryWide)
    requires ConvertAll(Inserted(ov, k, rec), occs, Windows, strip, EveryWide).outcome == Pass
    ensures var there := ConvertAll(Inserted(ov, k, rec), occs, Windows, strip, EveryWide);
            var t := SourceString(ov, occs[j], Windows).value;
            && SourceString(there.overlay, occs[j], Mobile) == Success(StripAll(t, strip))
            && Restaged(StripAll(t, strip), Wide16, strip) == Restaged(t, Wide16, strip)
  {
    var ins := Inserted(ov, k, rec);
    var v := occs[j];
    assert v.valOffset in TouchedBy(v, Windows, EveryWide);
    assert SourceString(ins, v, Windows) == SourceString(ov, v, Windows);
    ConvertAllRestages(ins, occs, Windows, strip, EveryWide, j);
    Wide32Restaging(SourceString(ov, v, Windows).value, strip);
  }

  // ---------------------------------------------------------------------------
  // Block listings

  /** getIntValuesFromBlock's loop: the parse-time values of the INTEGER occurrences of the
      name that have one, in order. */
  function IntValues(vs: seq<VariableInfo>, name: JString): (r: seq<int32>)
    decreases |vs|
  {
    if vs == [] then []
    else
      var v := vs[0];
      (if GetValue(v) != NullValue && v.name == name && v.variableType == Integer then [v.valueInteger.value] else [])
      + IntValues(vs[1..], name)
  }

  /** An INTEGER occurrence of the name holding x at parse time. */
  predicate HoldsInt(v: VariableInfo, name: JString, x: int32) {
    v.name == name && v.variableType == Integer && v.valueInteger == Some(x)
  }

  /** A value is listed exactly when an INTEGER occurrence of the name has it at parse time. */
  lemma {:induction false} IntValuesMembers(vs: seq<VariableInfo>, name: JString, x: int32)
    ensures x in IntValues(vs, name) <==> exists v :: v in vs && HoldsInt(v, name, x)
    decreases |vs|
  {
    if vs != [] {
      IntValuesMembers(vs[1..], name, x);
      if x in IntValues(vs, name) && x !in IntValues(vs[1..], name) {
        assert HoldsInt(vs[0], name, x) && vs[0] in vs;
      }
      if exists v :: v in vs[1..] && HoldsInt(v, name, x) {
        var v :| v in vs[1..] && HoldsInt(v, name, x);
        assert v in vs;
      }
      if exists v :: v in vs && HoldsInt(v, name, x) {
        var v :| v in vs && HoldsInt(v, name, x);
        if v != vs[0] { assert v in vs[1..]; } else { assert GetValue(v) == IntValue(x); }
      }
    }
  }

  /** getStringValuesFromBlock's loop: the parse-time values of the string occurrences of the
      name whose getValue() is not null, in order. */
  function StringValues(vs: seq<VariableInfo>, name: JString): (r: seq<JString>)
    decreases |vs|
  {
    if vs == [] then []
    else
      var v := vs[0];
      (if GetValue(v) != NullValue && v.name == name && IsString(v.variableType) then [StringValueOf(v).value] else [])
      + StringValues(vs[1..], name)
  }

  /** One step of a left-to-right pass over the occurrences that collects the INTEGER values. */
  lemma IntValuesStep(values: seq<int32>, vs: seq<VariableInfo>, i: nat, name: JString)
    requires i < |vs|
    requires values + IntValues(vs[i..], name) == IntValues(vs, name)
    ensures var v := vs[i];
            GetValue(v) != NullValue && v.name == name && v.variableType == Integer ==>
              (values + [v.valueInteger.value]) + IntValues(vs[i + 1..], name) == IntValues(vs, name)
    ensures var v := vs[i];
            !(GetValue(v) != NullValue && v.name == name && v.variableType == Integer) ==>
              values + IntValues(vs[i + 1..], name) == IntValues(vs, name)
  {
    assert vs[i..][1..] == vs[i + 1..];
    var v := vs[i];
    var tail := IntValues(vs[i + 1..], name);
    if GetValue(v) != NullValue && v.name == name && v.variableType == Integer {
      assert values + ([v.valueInteger.value] + tail) == (values + [v.valueInteger.value]) + tail;
    } else {
      assert [] + tail == tail;
    }
  }

  /** One step of a left-to-right pass over the occurrences that collects the string values. */
  lemma StringValuesStep(values: seq<JString>, vs: seq<VariableInfo>, i: nat, name: JString)
    requires i < |vs|
    requires values + StringValues(vs[i..], name) == StringValues(vs, name)
    ensures var v := vs[i];
            GetValue(v) != NullValue && v.name == name && IsString(v.variableType) ==>
              (values + [StringValueOf(v).value]) + StringValues(vs[i + 1..], name) == StringValues(vs, name)
    ensures var v := vs[i];
            !(GetValue(v) != NullValue && v.name == name && IsString(v.variableType)) ==>
              values + StringValues(vs[i + 1..], name) == StringValues(vs, name)
  {
    assert vs[i..][1..] == vs[i + 1..];
    var v := vs[i];
    var tail := StringValues(vs[i + 1..], name);
    if GetValue(v) != NullValue && v.name == name && IsString(v.variableType) {
      assert values + ([StringValueOf(v).value] + tail) == (values + [StringValueOf(v).value]) + tail;
    } else {
      assert [] + tail == tail;
    }
  }

  /** Each listed value comes from its own occurrence of the name: there are at most as many
      values as occurrences, for integers and for strings alike. */
  lemma {:induction false} ValuesPerOccurrence(vs: seq<VariableInfo>, name: JString)
    ensures |IntValues(vs, name)| <= |Occurrences(vs, name)|
    ensures |StringValues(vs, name)| <= |Occurrences(vs, name)|
    decreases |vs|
  {
    if vs != [] {
      ValuesPerOccurrence(vs[1..], name);
    }
  }

  /** A narrow or 16-bit string occurrence of the name holding x at parse time. */
  predicate HoldsString(v: VariableInfo, name: JString, x: JString) {
    v.name == name && (v.variableType == String || v.variableType == StringUtf16Le) && v.valueString == Some(x)
  }

  /** A text is listed exactly when a narrow or 16-bit string occurrence of the name has it at
      parse time; a 32-bit string is never listed, since getValue() is null for it. */
  lemma {:induction false} StringValuesMembers(vs: seq<VariableInfo>, name: JString, x: JString)
    ensures x in StringValues(vs, name) <==> exists v :: v in vs && HoldsString(v, name, x)
    decreases |vs|
  {
    if vs != [] {
      StringValuesMembers(vs[1..], name, x);
      if x in StringValues(vs, name) && x !in StringValues(vs[1..], name) {
        assert HoldsString(vs[0], name, x) && vs[0] in vs;
      }
      if exists v :: v in vs[1..] && HoldsString(v, name, x) {
        var v :| v in vs[1..] && HoldsString(v, name, x);
        assert v in vs;
      }
      if exists v :: v in vs && HoldsString(v, name, x) {
        var v :| v in vs && HoldsString(v, name, x);
        if v != vs[0] { assert v in vs[1..]; } else { assert GetValue(v) == StringValue(x); }
      }
    }
  }
}
