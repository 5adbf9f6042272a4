/**
 * Helpers of the generic SSZ conformance tests that read a test-case name
 * such as `vec_uint16_4_max`: the name is split on underscores and single
 * segments select an element type, a length, a limit, a bit width or one of
 * six fixed container types.
 */
module SszGenericUtils {
  import opened Common

  // Splitting on underscores, with JavaScript's `split("_")` semantics.

  const SEPARATOR: char := '_'

  /**
   * `name.split("_")`: the pieces between separators, in order. There is
   * always at least one piece; the empty string gives one empty piece and a
   * separator at either end gives an empty piece there.
   */
  function Split(s: string): (parts: seq<string>)
    ensures |parts| >= 1
    ensures forall i :: 0 <= i < |parts| ==> SEPARATOR !in parts[i]
  {
    if s == [] then [[]]
    else
      var rest := Split(s[1..]);
      if s[0] == SEPARATOR then [[]] + rest
      else [[s[0]] + rest[0]] + rest[1..]
  }

  /** The pieces put back together with a separator between neighbours (`parts.join("_")`). */
  function Join(parts: seq<string>): string
    requires |parts| >= 1
  {
    if |parts| == 1 then parts[0] else parts[0] + [SEPARATOR] + Join(parts[1..])
  }

  /** `parts[i]`, which is `undefined` past the end. */
  function Segment(parts: seq<string>, i: nat): (r: Option<string>)
    ensures r.Some? <==> i < |parts|
  {
    if i < |parts| then Some(parts[i]) else None
  }

  /** Joining the pieces of a split gives the name back. */
  lemma {:induction false} JoinSplit(s: string)
    ensures Join(Split(s)) == s
  {
    if s != [] {
      var rest := Split(s[1..]);
      JoinSplit(s[1..]);
      if s[0] != SEPARATOR && |rest| > 1 {
        assert Join(rest) == rest[0] + [SEPARATOR] + Join(rest[1..]);
        assert Split(s)[1..] == rest[1..];
      }
    }
  }

  /** Splitting a name that starts with a separator-free piece `a` extends the first piece by `a`. */
  lemma {:induction false} SplitPrefix(a: string, t: string)
    requires SEPARATOR !in a
    ensures Split(a + t) == [a + Split(t)[0]] + Split(t)[1..]
  {
    var rest := Split(t);
    if a != [] {
      assert a[0] != SEPARATOR by { assert a[0] in a; }
      assert (a + t)[0] == a[0];
      assert (a + t)[1..] == a[1..] + t;
      SplitPrefix(a[1..], t);
      assert [a[0]] + (a[1..] + rest[0]) == a + rest[0];
    } else {
      assert a + t == t;
      assert a + rest[0] == rest[0];
      assert [rest[0]] + rest[1..] == rest;
    }
  }

  /** Splitting separator-free pieces joined by separators gives the pieces back. */
  lemma {:induction false} SplitJoin(parts: seq<string>)
    requires |parts| >= 1
    requires forall i :: 0 <= i < |parts| ==> SEPARATOR !in parts[i]
    ensures Split(Join(parts)) == parts
  {
    if |parts| == 1 {
      SplitPrefix(parts[0], []);
      assert parts[0] + [] == parts[0];
    } else {
      var tail := [SEPARATOR] + Join(parts[1..]);
      SplitJoin(parts[1..]);
      assert tail[1..] == Join(parts[1..]);
      assert Split(tail) == [[]] + parts[1..];
      assert Join(parts) == parts[0] + tail;
      SplitPrefix(parts[0], tail);
      assert Split(tail)[0] == [] && Split(tail)[1..] == parts[1..];
      assert parts[0] + [] == parts[0];
      assert [parts[0]] + parts[1..] == parts;
    }
  }

  /** The first piece is everything before the first separator. */
  lemma FirstSegment(a: string, rest: string)
    requires SEPARATOR !in a
    requires rest == [] || rest[0] == SEPARATOR
    ensures Split(a + rest)[0] == a
  {
    SplitPrefix(a, rest);
    assert Split(rest)[0] == [];
  }

  // Numbers in names.

  predicate IsDigit(c: char) {
    '0' <= c <= '9'
  }

  predicate AllDigits(s: string) {
    forall i :: 0 <= i < |s| ==> IsDigit(s[i])
  }

  /** The value of a string of decimal digits; the empty string reads as 0. */
  function DecimalValue(s: string): nat
    requires AllDigits(s)
  {
    if s == [] then 0
    else 10 * DecimalValue(s[..|s| - 1]) + ((s[|s| - 1] as int) - ('0' as int))
  }

  /** Why a name was rejected. */
  datatype ParseError =
    | MissingType(typeName: string)
    | UnknownContainerType
    | NotDecimal(text: string)

  /**
   * `new BN(segment)` for the segments a name can hold: a missing or empty
   * segment is falsy and reads as 0, a string of decimal digits is read in
   * base 10. Any other text is rejected here.
   */
  function BigNumber(segment: Option<string>): (r: Result<nat, ParseError>)
    ensures r.Success? <==> segment.None? || AllDigits(segment.value)
    ensures segment == None || segment == Some([]) ==> r == Success(0)
    ensures r.Failure? ==> segment.Some? && r.error == NotDecimal(segment.value)
  {
    match segment
    case None => Success(0)
    case Some(text) => if AllDigits(text) then Success(DecimalValue(text)) else Failure(NotDecimal(text))
  }

  /** A JavaScript number as `parseInt` returns it. */
  datatype JsNumber = Finite(value: int) | NaN

  /** The characters `parseInt` skips before the number (white space and line terminators). */
  predicate IsJsSpace(c: char) {
    c in {' ', '\t', '\n', '\r', '\U{000B}', '\U{000C}', '\U{00A0}', '\U{2028}', '\U{2029}', '\U{FEFF}'}
  }

  function TrimStart(s: string): (r: string)
    ensures |r| <= |s| && r == s[|s| - |r|..]
    ensures r == [] || !IsJsSpace(r[0])
    ensures forall i :: 0 <= i < |s| - |r| ==> IsJsSpace(s[i])
  {
    if s != [] && IsJsSpace(s[0]) then TrimStart(s[1..]) else s
  }

  /** The longest run of decimal digits at the start of `s`. */
  function DigitPrefix(s: string): (r: string)
    ensures AllDigits(r) && r <= s
    ensures |r| < |s| ==> !IsDigit(s[|r|])
  {
    if s == [] || !IsDigit(s[0]) then [] else [s[0]] + DigitPrefix(s[1..])
  }

  /**
   * `parseInt(text, 10)`: after leading white space and an optional sign, the
   * longest run of digits; NaN when there is none.
   */
  function ParseIntText(text: string): JsNumber {
    ParseTrimmed(TrimStart(text))
  }

  /** What `parseInt` reads once the leading white space is gone: a sign, then digits. */
  function ParseTrimmed(t: string): JsNumber {
    var negative := t != [] && t[0] == '-';
    var unsigned := if t != [] && (t[0] == '-' || t[0] == '+') then t[1..] else t;
    var digits := DigitPrefix(unsigned);
    if digits == [] then NaN
    else if negative then Finite(-(DecimalValue(digits) as int))
    else Finite(DecimalValue(digits))
  }

  /** `parseInt(segment, 10)`: an undefined segment is converted to the text "undefined" first. */
  function ParseInt(segment: Option<string>): (r: JsNumber)
    ensures segment.None? ==> r == NaN
  {
    if segment.Some? then ParseIntText(segment.value)
    else
      UndefinedIsNaN();
      ParseIntText("undefined")
  }

  // The type table and the parsers.

  /** The element types a basic vector can have. */
  datatype SszType = BoolType | UintType(useNumber: bool, byteLength: nat)

  /** The six container types of the generic container tests. */
  datatype ContainerType =
    | SingleFieldTestStruct
    | SmallTestStruct
    | FixedTestStruct
    | VarTestStruct
    | ComplexTestStruct
    | BitsStruct

  /** The name a container type has in test-case names. */
  function ContainerName(c: ContainerType): string {
    match c
    case SingleFieldTestStruct => "SingleFieldTestStruct"
    case SmallTestStruct => "SmallTestStruct"
    case FixedTestStruct => "FixedTestStruct"
    case VarTestStruct => "VarTestStruct"
    case ComplexTestStruct => "ComplexTestStruct"
    case BitsStruct => "BitsStruct"
  }

  /**
   * typeToEnum: the fixed table of element-type names. The error message
   * renders a missing segment as "undefined".
   */
  function TypeToEnum(typeName: Option<string>): (r: Result<SszType, ParseError>)
    ensures typeName.None? ==> r == Failure(MissingType("undefined"))
    ensures r.Failure? && typeName.Some? ==> r.error == MissingType(typeName.value)
    ensures r.Success? && r.value.UintType? ==>
              && r.value.byteLength in {1, 2, 4, 8, 16, 32}
              && (r.value.useNumber <==> r.value.byteLength <= 4)
  {
    match typeName
    case None => Failure(MissingType("undefined"))
    case Some(name) =>
      if name == "bool" then Success(BoolType)
      else if name == "uint8" then Success(UintType(true, 1))
      else if name == "uint16" then Success(UintType(true, 2))
      else if name == "uint32" then Success(UintType(true, 4))
      else if name == "uint64" then Success(UintType(false, 8))
      else if name == "uint128" then Success(UintType(false, 16))
      else if name == "uint256" then Success(UintType(false, 32))
      else Failure(MissingType(name))
  }

  datatype BasicVectorType = BasicVectorType(elementType: SszType, length: nat)

  /**
   * parseBasicVectorType: the element type from segment 1, then the length
   * from segment 2; an unknown type is reported before the length is read.
   */
  function ParseBasicVectorType(name: string): (r: Result<BasicVectorType, ParseError>)
    ensures TypeToEnum(Segment(Split(name), 1)).Failure? ==> r == Failure(TypeToEnum(Segment(Split(name), 1)).error)
    ensures r.Success? ==>
              && TypeToEnum(Segment(Split(name), 1)) == Success(r.value.elementType)
              && BigNumber(Segment(Split(name), 2)) == Success(r.value.length)
  {
    var parts := Split(name);
    match TypeToEnum(Segment(parts, 1))
    case Failure(e) => Failure(e)
    case Success(elementType) =>
      match BigNumber(Segment(parts, 2))
      case Failure(e) => Failure(e)
      case Success(length) => Success(BasicVectorType(elementType, length))
  }

  /** parseBitListType: the limit from segment 1. */
  function ParseBitListType(name: string): (r: Result<nat, ParseError>)
    ensures |Split(name)| < 2 ==> r == Success(0)
    ensures r.Failure? ==> r.error.NotDecimal?
  {
    BigNumber(Segment(Split(name), 1))
  }

  /** parseUintType: the size from segment 1, read by `parseInt`. */
  function ParseUintType(name: string): (r: JsNumber)
    ensures |Split(name)| < 2 ==> r == NaN
  {
    ParseInt(Segment(Split(name), 1))
  }

  /** parseContainerType: dispatch on segment 0, which always exists. */
  function ParseContainerType(name: string): (r: Result<ContainerType, ParseError>)
    ensures r.Success? ==> ContainerName(r.value) == Split(name)[0]
    ensures r.Failure? ==> r.error == UnknownContainerType
  {
    var parts := Split(name);
    match parts[0]
    case "SingleFieldTestStruct" => Success(SingleFieldTestStruct)
    case "SmallTestStruct" => Success(SmallTestStruct)
    case "FixedTestStruct" => Success(FixedTestStruct)
    case "VarTestStruct" => Success(VarTestStruct)
    case "ComplexTestStruct" => Success(ComplexTestStruct)
    case "BitsStruct" => Success(BitsStruct)
    case _ => Failure(UnknownContainerType)
  }

  // Properties of the table and the parsers.

  /** The seven names typeToEnum accepts; everything else is rejected with the name in the message. */
  lemma TypeTableAccepts(name: string)
    ensures TypeToEnum(Some(name)).Success? <==>
            name in ["bool", "uint8", "uint16", "uint32", "uint64", "uint128", "uint256"]
    ensures TypeToEnum(Some(name)).Failure? ==> TypeToEnum(Some(name)).error == MissingType(name)
    ensures TypeToEnum(Some(name)) == Success(BoolType) <==> name == "bool"
  {
  }

  /** A name made of "uint" and a run of digits splits back into the two. */
  lemma UintDigits(name: string, digits: string)
    requires name == "uint" + digits && digits != [] && AllDigits(digits)
    ensures |name| > 4 && name[..4] == "uint" && name[4..] == digits && AllDigits(name[4..])
  {
  }

  /** The values of the six widths in the type table. */
  lemma UintWidthValues()
    ensures DecimalValue("8") == 8 && DecimalValue("16") == 16 && DecimalValue("32") == 32
    ensures DecimalValue("64") == 64 && DecimalValue("128") == 128 && DecimalValue("256") == 256
  {
    assert "16"[..1] == "1" && "32"[..1] == "3" && "64"[..1] == "6";
    assert "128"[..2] == "12" && "12"[..1] == "1";
    assert "256"[..2] == "25" && "25"[..1] == "2";
  }

  /**
   * Every unsigned type `uintN` has N = 8 × byteLength, and is held in a
   * JavaScript number exactly when it is at most 32 bits wide.
   */
  lemma UintWidths(name: string)
    requires TypeToEnum(Some(name)).Success? && TypeToEnum(Some(name)).value.UintType?
    ensures var t := TypeToEnum(Some(name)).value;
            && |name| > 4 && name[..4] == "uint" && AllDigits(name[4..])
            && DecimalValue(name[4..]) == 8 * t.byteLength
            && (t.useNumber <==> t.byteLength <= 4)
  {
    assert name != "bool";
    UintWidthValues();
    if name == "uint8" {
      UintDigits(name, "8");
    } else if name == "uint16" {
      UintDigits(name, "16");
    } else if name == "uint32" {
      UintDigits(name, "32");
    } else if name == "uint64" {
      UintDigits(name, "64");
    } else if name == "uint128" {
      UintDigits(name, "128");
    } else {
      UintDigits(name, "256");
    }
  }

  /**
   * The container type is named by everything before the first separator;
   * it is found exactly when that piece is one of the six names.
   */
  lemma ContainerBySegment(name: string)
    ensures ParseContainerType(name).Success? <==> exists c :: ContainerName(c) == Split(name)[0]
    ensures ParseContainerType(name).Success? ==> ContainerName(ParseContainerType(name).value) == Split(name)[0]
  {
    var first := Split(name)[0];
    if ParseContainerType(name).Failure? {
      forall c ensures ContainerName(c) != first {
      }
    } else {
      assert ContainerName(ParseContainerType(name).value) == first;
    }
  }

  /** A container name followed by nothing or by `_` and anything selects that container. */
  lemma ContainerNameRoundTrip(c: ContainerType, rest: string)
    requires rest == [] || rest[0] == SEPARATOR
    ensures ParseContainerType(ContainerName(c) + rest) == Success(c)
  {
    FirstSegment(ContainerName(c), rest);
  }

  /**
   * A vector name reads its element type from piece 1 and its length from
   * piece 2; without piece 1 the type is reported missing as "undefined",
   * and without piece 2 the length is 0.
   */
  lemma BasicVectorSegments(parts: seq<string>)
    requires |parts| >= 1
    requires forall i :: 0 <= i < |parts| ==> SEPARATOR !in parts[i]
    ensures |parts| < 2 ==> ParseBasicVectorType(Join(parts)) == Failure(MissingType("undefined"))
    ensures |parts| >= 2 && TypeToEnum(Some(parts[1])).Failure? ==>
              ParseBasicVectorType(Join(parts)) == Failure(MissingType(parts[1]))
    ensures |parts| == 2 && TypeToEnum(Some(parts[1])).Success? ==>
              ParseBasicVectorType(Join(parts)) == Success(BasicVectorType(TypeToEnum(Some(parts[1])).value, 0))
    ensures |parts| >= 3 && TypeToEnum(Some(parts[1])).Success? && AllDigits(parts[2]) ==>
              ParseBasicVectorType(Join(parts))
              == Success(BasicVectorType(TypeToEnum(Some(parts[1])).value, DecimalValue(parts[2])))
  {
    SplitJoin(parts);
    var name := Join(parts);
    assert Split(name) == parts;
    if |parts| >= 2 {
      assert Segment(Split(name), 1) == Some(parts[1]);
      TypeTableAccepts(parts[1]);
    }
    if |parts| >= 3 {
      assert Segment(Split(name), 2) == Some(parts[2]);
    }
  }

  /** A bit-list name reads its limit from piece 1; without it the limit is 0. */
  lemma BitListSegments(parts: seq<string>)
    requires |parts| >= 1
    requires forall i :: 0 <= i < |parts| ==> SEPARATOR !in parts[i]
    ensures |parts| < 2 ==> ParseBitListType(Join(parts)) == Success(0)
    ensures |parts| >= 2 && AllDigits(parts[1]) ==> ParseBitListType(Join(parts)) == Success(DecimalValue(parts[1]))
  {
    SplitJoin(parts);
  }

  /** `parseInt` reads a run of digits and ignores whatever follows it. */
  lemma {:induction false} DigitPrefixOf(d: string, x: string)
    requires AllDigits(d)
    requires x == [] || !IsDigit(x[0])
    ensures DigitPrefix(d + x) == d
  {
    if d != [] {
      assert (d + x)[1..] == d[1..] + x;
      DigitPrefixOf(d[1..], x);
    } else {
      assert d + x == x;
    }
  }

  /** `parseInt` of a run of digits followed by a non-digit (or nothing) reads the run. */
  lemma ParseIntOfDigits(digits: string, suffix: string)
    requires digits != [] && AllDigits(digits) && (suffix == [] || !IsDigit(suffix[0]))
    ensures ParseIntText(digits + suffix) == Finite(DecimalValue(digits))
  {
    var text := digits + suffix;
    assert text[0] == digits[0];
    NoLeadingSpace(text);
    DigitPrefixOf(digits, suffix);
  }

  /** Text that starts with a digit or a sign has no leading white space to skip. */
  lemma NoLeadingSpace(text: string)
    requires text != [] && (IsDigit(text[0]) || text[0] == '-' || text[0] == '+')
    ensures TrimStart(text) == text
  {
    assert !IsJsSpace(text[0]);
  }

  /** An undefined piece reads as the text "undefined", which holds no number. */
  lemma UndefinedIsNaN()
    ensures ParseIntText("undefined") == NaN
  {
    var text := "undefined";
    assert text[0] == 'u';
    assert TrimStart(text) == text;
    assert DigitPrefix(text) == [];
  }

  /** The negation `parseInt` applies after a minus sign. */
  function Negated(n: JsNumber): JsNumber {
    if n.Finite? then Finite(-n.value) else NaN
  }

  /** A leading white-space character does not change what `parseInt` reads. */
  lemma ParseIntSkipsSpace(c: char, text: string)
    requires IsJsSpace(c)
    ensures ParseIntText([c] + text) == ParseIntText(text)
  {
    assert ([c] + text)[1..] == text;
  }

  /**
   * A sign before unsigned text: `-` negates what the text reads, `+` leaves
   * it; with no digits after the sign the result stays NaN.
   */
  lemma ParseIntSign(text: string)
    requires text == [] || (!IsJsSpace(text[0]) && text[0] != '-' && text[0] != '+')
    ensures ParseIntText(['-'] + text) == Negated(ParseIntText(text))
    ensures ParseIntText(['+'] + text) == ParseIntText(text)
  {
    NoLeadingSpace(['-'] + text);
    NoLeadingSpace(['+'] + text);
    assert (['-'] + text)[1..] == text && (['+'] + text)[1..] == text;
    assert TrimStart(text) == text;
  }

  /** A uint name without piece 1 has size NaN. */
  lemma UintSizeMissing(part: string)
    requires SEPARATOR !in part
    ensures ParseUintType(Join([part])) == NaN
  {
    SplitJoin([part]);
  }

  /** A uint name reads its size from piece 1 as the leading digits of that piece. */
  lemma UintSegments(parts: seq<string>, digits: string, suffix: string)
    requires |parts| >= 2
    requires forall i :: 0 <= i < |parts| ==> SEPARATOR !in parts[i]
    requires parts[1] == digits + suffix
    requires digits != [] && AllDigits(digits) && (suffix == [] || !IsDigit(suffix[0]))
    ensures ParseUintType(Join(parts)) == Finite(DecimalValue(digits))
  {
    SplitJoin(parts);
    ParseIntOfDigits(digits, suffix);
  }

  /** Reading the name of one of the conformance cases. */
  lemma VectorExample()
    ensures ParseBasicVectorType("vec_uint16_4_max") == Success(BasicVectorType(UintType(true, 2), 4))
  {
    var parts := ["vec", "uint16", "4", "max"];
    assert Join(parts[3..]) == "max";
    assert Join(parts[2..]) == "4_max";
    assert Join(parts[1..]) == "uint16_4_max";
    assert Join(parts) == "vec_uint16_4_max";
    assert DecimalValue("4") == 4;
    BasicVectorSegments(parts);
  }

  /** A uint case name gives its bit width; a name without a second piece gives NaN. */
  lemma UintExample()
    ensures ParseUintType("uint_64_max") == Finite(64)
    ensures ParseUintType("uint") == NaN
  {
    var parts := ["uint", "64", "max"];
    assert Join(parts[2..]) == "max";
    assert Join(parts[1..]) == "64_max";
    assert Join(parts) == "uint_64_max";
    assert "64"[..1] == "6" && DecimalValue("6") == 6;
    assert "64" + [] == "64";
    UintSegments(parts, "64", []);
    UintSizeMissing("uint");
  }
}
