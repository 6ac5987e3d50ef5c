/** `serde_kind`: a kind travels as one of sixteen lowercase names. */
module SerdeKind {
  import opened Wrappers
  import opened Tch
  import opened Errors

  /** A lowercase identifier: a letter, then letters, digits or '_'. */
  predicate IsLowerName(s: string) {
    |s| >= 1 && 'a' <= s[0] <= 'z'
    && forall i :: 0 <= i < |s| ==> 'a' <= s[i] <= 'z' || '0' <= s[i] <= '9' || s[i] == '_'
  }

  /** `serde_kind::serialize`: every kind has its name. */
  function Serialize(kind: Kind): (name: string)
    ensures IsLowerName(name)
  {
    match kind
    case Uint8 => "uint8"
    case Int8 => "int8"
    case Int16 => "int16"
    case Int => "int"
    case Int64 => "int64"
    case Half => "half"
    case Float => "float"
    case Double => "double"
    case ComplexHalf => "complex_half"
    case ComplexFloat => "complex_float"
    case ComplexDouble => "complex_double"
    case Bool => "bool"
    case QInt8 => "qint8"
    case QUInt8 => "quint8"
    case QInt32 => "qint32"
    case BFloat16 => "bfloat16"
  }

  /** `serde_kind::deserialize`: an exact, case-sensitive match on the
      sixteen names; any other text is refused and carried in the error. */
  function Deserialize(text: string): (r: Result<Kind, CodecError>)
    ensures r.Err? ==> r.error == InvalidKind(text)
  {
    match text
    case "uint8" => Ok(Uint8)
    case "int8" => Ok(Int8)
    case "int16" => Ok(Int16)
    case "int" => Ok(Int)
    case "int64" => Ok(Int64)
    case "half" => Ok(Half)
    case "float" => Ok(Float)
    case "double" => Ok(Double)
    case "complex_half" => Ok(ComplexHalf)
    case "complex_float" => Ok(ComplexFloat)
    case "complex_double" => Ok(ComplexDouble)
    case "bool" => Ok(Bool)
    case "qint8" => Ok(QInt8)
    case "quint8" => Ok(QUInt8)
    case "qint32" => Ok(QInt32)
    case "bfloat16" => Ok(BFloat16)
    case _ => Err(InvalidKind(text))
  }

  /** Every kind, each once. */
  const AllKinds: seq<Kind> := [
    Uint8, Int8, Int16, Int, Int64, Half, Float, Double,
    ComplexHalf, ComplexFloat, ComplexDouble,
    Bool, QInt8, QUInt8, QInt32, BFloat16
  ]

  lemma DeserializeSerialize(kind: Kind)
    ensures Deserialize(Serialize(kind)) == Ok(kind)
  {
  }

  lemma SerializeDeserialize(text: string)
    requires Deserialize(text).Ok?
    ensures Serialize(Deserialize(text).value) == text
  {
  }

  /** Decoding succeeds on exactly the sixteen names the encoder produces. */
  lemma DeserializeAcceptsExactlyNames(text: string)
    ensures Deserialize(text).Ok? <==> exists kind :: Serialize(kind) == text
  {
    if Deserialize(text).Ok? {
      SerializeDeserialize(text);
    } else if exists kind :: Serialize(kind) == text {
      var kind :| Serialize(kind) == text;
      DeserializeSerialize(kind);
    }
  }

  /** The sixteen names are pairwise distinct. */
  lemma SerializeInjective(a: Kind, b: Kind)
    ensures Serialize(a) == Serialize(b) ==> a == b
  {
    DeserializeSerialize(a);
    DeserializeSerialize(b);
  }

  /** The enumeration lists all sixteen kinds. */
  lemma AllKindsEnumerated(kind: Kind)
    ensures |AllKinds| == 16 && kind in AllKinds
  {
    match kind
    case Uint8 => assert AllKinds[0] == kind;
    case Int8 => assert AllKinds[1] == kind;
    case Int16 => assert AllKinds[2] == kind;
    case Int => assert AllKinds[3] == kind;
    case Int64 => assert AllKinds[4] == kind;
    case Half => assert AllKinds[5] == kind;
    case Float => assert AllKinds[6] == kind;
    case Double => assert AllKinds[7] == kind;
    case ComplexHalf => assert AllKinds[8] == kind;
    case ComplexFloat => assert AllKinds[9] == kind;
    case ComplexDouble => assert AllKinds[10] == kind;
    case Bool => assert AllKinds[11] == kind;
    case QInt8 => assert AllKinds[12] == kind;
    case QUInt8 => assert AllKinds[13] == kind;
    case QInt32 => assert AllKinds[14] == kind;
    case BFloat16 => assert AllKinds[15] == kind;
  }

  /** The sixteen names of the enumeration are pairwise distinct. */
  lemma AllKindNamesDistinct(i: int, j: int)
    requires 0 <= i < j < |AllKinds|
    ensures Serialize(AllKinds[i]) != Serialize(AllKinds[j])
  {
    SerializeInjective(AllKinds[i], AllKinds[j]);
  }

  /** The unit test's expectations for serialising. */
  lemma SerializeExamples()
    ensures Serialize(Int) == "int" && Serialize(Float) == "float"
    ensures Serialize(Uint8) == "uint8" && Serialize(Int8) == "int8"
    ensures Serialize(Int16) == "int16" && Serialize(Int64) == "int64"
    ensures Serialize(Half) == "half" && Serialize(Double) == "double"
    ensures Serialize(ComplexHalf) == "complex_half"
    ensures Serialize(ComplexFloat) == "complex_float"
    ensures Serialize(ComplexDouble) == "complex_double"
    ensures Serialize(Bool) == "bool" && Serialize(QInt8) == "qint8"
    ensures Serialize(QUInt8) == "quint8" && Serialize(QInt32) == "qint32"
    ensures Serialize(BFloat16) == "bfloat16"
  {
  }

  lemma DeserializeExamples()
    ensures Deserialize("int") == Ok(Int) && Deserialize("float") == Ok(Float)
    ensures Deserialize("uint8") == Ok(Uint8) && Deserialize("int8") == Ok(Int8)
    ensures Deserialize("int16") == Ok(Int16) && Deserialize("int64") == Ok(Int64)
    ensures Deserialize("half") == Ok(Half) && Deserialize("double") == Ok(Double)
    ensures Deserialize("complex_half") == Ok(ComplexHalf)
    ensures Deserialize("complex_float") == Ok(ComplexFloat)
    ensures Deserialize("complex_double") == Ok(ComplexDouble)
    ensures Deserialize("bool") == Ok(Bool) && Deserialize("qint8") == Ok(QInt8)
    ensures Deserialize("quint8") == Ok(QUInt8) && Deserialize("qint32") == Ok(QInt32)
    ensures Deserialize("bfloat16") == Ok(BFloat16)
  {
  }

  /** Names differing from the sixteen only in case or spelling are refused. */
  lemma DeserializeRejects()
    ensures Deserialize("Float") == Err(InvalidKind("Float"))
    ensures Deserialize("uint16") == Err(InvalidKind("uint16"))
    ensures Deserialize("") == Err(InvalidKind(""))
    ensures Deserialize("int ") == Err(InvalidKind("int "))
  {
  }
}
