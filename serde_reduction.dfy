/** `serde_reduction`: a reduction travels as "none", "mean", "sum" or
    "other:<code>". */
module SerdeReduction {
  import opened Wrappers
  import opened Rust
  import opened Tch
  import opened Errors

  const OTHER_PREFIX: string := "other:"

  predicate IsKeyword(text: string) {
    text == "none" || text == "mean" || text == "sum"
  }

  /** `serde_reduction::serialize`: a keyword, or the prefix and the code
      as signed decimal. */
  function Serialize(reduction: Reduction): (text: string)
    ensures reduction.Other? <==> !IsKeyword(text)
    ensures reduction.Other? ==> OTHER_PREFIX <= text && IsCanonicalInt(text[|OTHER_PREFIX|..])
  {
    match reduction
    case None => "none"
    case Mean => "mean"
    case Sum => "sum"
    case Other(code) => OTHER_PREFIX + FormatInt(code)
  }

  /** `serde_reduction::deserialize`: the three keywords exactly, otherwise
      strip the prefix and parse the rest as an `i64`; any failure refuses
      the whole text, which the error carries. */
  function Deserialize(text: string): (r: Result<Reduction, CodecError>)
    ensures r.Err? ==> r.error == InvalidReduction(text)
  {
    match text
    case "none" => Ok(Reduction.None)
    case "mean" => Ok(Mean)
    case "sum" => Ok(Sum)
    case _ =>
      match StripPrefix(text, OTHER_PREFIX)
      case None => Err(InvalidReduction(text))
      case Some(remaining) =>
        match ParseI64(remaining)
        case None => Err(InvalidReduction(text))
        case Some(code) => Ok(Other(code))
  }

  /** Past the keywords, decoding is the parse of what follows the prefix. */
  lemma DeserializePrefixed(remaining: string)
    ensures Deserialize(OTHER_PREFIX + remaining)
      == if ParseI64(remaining).Some? then Ok(Other(ParseI64(remaining).value))
         else Err(InvalidReduction(OTHER_PREFIX + remaining))
  {
    assert (OTHER_PREFIX + remaining)[|OTHER_PREFIX|..] == remaining;
    assert !IsKeyword(OTHER_PREFIX + remaining) by {
      assert (OTHER_PREFIX + remaining)[0] == 'o';
    }
  }

  lemma DeserializeSerialize(reduction: Reduction)
    ensures Deserialize(Serialize(reduction)) == Ok(reduction)
  {
    if reduction.Other? {
      ParseI64OfFormat(reduction.code);
      DeserializePrefixed(FormatInt(reduction.code));
    }
  }

  lemma SerializeInjective(a: Reduction, b: Reduction)
    ensures Serialize(a) == Serialize(b) ==> a == b
  {
    DeserializeSerialize(a);
    DeserializeSerialize(b);
  }

  /** Which texts decode: the three keywords, and "other:" followed by an
      `i64` literal; everything else fails. */
  lemma DeserializeAccepts(text: string)
    ensures Deserialize(text).Ok?
      <==> IsKeyword(text) || (OTHER_PREFIX <= text && ParseI64(text[|OTHER_PREFIX|..]).Some?)
  {
  }

  /** Re-encoding a decoded reduction gives the same text back exactly when
      the code was written the way the encoder writes it (no '+', no
      leading zero, no "-0"). */
  lemma SerializeDeserialize(text: string)
    requires Deserialize(text).Ok?
    ensures Serialize(Deserialize(text).value) == text
      <==> IsKeyword(text) || IsCanonicalInt(text[|OTHER_PREFIX|..])
  {
    if !IsKeyword(text) {
      var remaining := text[|OTHER_PREFIX|..];
      assert text == OTHER_PREFIX + remaining;
      FormatOfParseI64(remaining);
      var code := ParseI64(remaining).value;
      DeserializePrefixed(remaining);
      assert Serialize(Other(code)) == OTHER_PREFIX + FormatInt(code);
      if Serialize(Other(code)) == text {
        assert FormatInt(code) == (OTHER_PREFIX + FormatInt(code))[|OTHER_PREFIX|..];
      }
    }
  }

  /** The parser is lenient: a '+' or a leading zero before the code is
      accepted, so encode after decode is not the identity. */
  lemma DeserializeAcceptsPlus(code: I64)
    requires code >= 0
    ensures Deserialize(OTHER_PREFIX + ("+" + FormatInt(code))) == Ok(Other(code))
  {
    var d := FormatInt(code);
    ParseI64OfFormat(code);
    ParseI64Lenient(d);
    DeserializePrefixed("+" + d);
  }

  lemma DeserializeAcceptsLeadingZero(code: I64)
    requires code >= 0
    ensures Deserialize(OTHER_PREFIX + ("0" + FormatInt(code))) == Ok(Other(code))
  {
    var d := FormatInt(code);
    ParseI64OfFormat(code);
    ParseI64Lenient(d);
    DeserializePrefixed("0" + d);
  }

  /** A code that does not fit in an `i64` is refused. */
  lemma DeserializeRejectsOverflow(code: int)
    requires code < I64_MIN || code >= I64_LIMIT
    ensures Deserialize(OTHER_PREFIX + FormatInt(code)) == Err(InvalidReduction(OTHER_PREFIX + FormatInt(code)))
  {
    var s := FormatInt(code);
    if code < 0 {
      var m: nat := -code;
      assert s[1..] == FormatNat(m);
      ValueOfFormat(m);
    } else {
      ValueOfFormat(code);
    }
    DeserializePrefixed(s);
  }

  /** Malformed names are refused, with the text in the error. */
  lemma DeserializeRejects()
    ensures Deserialize("other:") == Err(InvalidReduction("other:"))
    ensures Deserialize("other:x") == Err(InvalidReduction("other:x"))
    ensures Deserialize("mean ") == Err(InvalidReduction("mean "))
    ensures Deserialize("Mean") == Err(InvalidReduction("Mean"))
    ensures Deserialize("other:-") == Err(InvalidReduction("other:-"))
  {
    DeserializePrefixed("");
    DeserializePrefixed("x");
    DeserializePrefixed("-");
    assert "other:" == OTHER_PREFIX + "";
    assert "other:x" == OTHER_PREFIX + "x";
    assert "other:-" == OTHER_PREFIX + "-";
    assert !IsDigit("x"[0]);
  }

  /** The unit test's expectations, and a negative code. */
  lemma Examples()
    ensures Deserialize("none") == Ok(Reduction.None)
    ensures Deserialize("mean") == Ok(Mean) && Deserialize("sum") == Ok(Sum)
    ensures Deserialize("other:3") == Ok(Other(3))
    ensures Deserialize("other:-7") == Ok(Other(-7))
    ensures Serialize(Reduction.None) == "none"
    ensures Serialize(Mean) == "mean" && Serialize(Sum) == "sum"
    ensures Serialize(Other(1)) == "other:1"
    ensures Serialize(Other(3)) == "other:3"
    ensures Serialize(Other(-7)) == "other:-7"
  {
    DeserializeSerialize(Other(3));
    DeserializeSerialize(Other(-7));
    assert FormatInt(-7) == "-7";
  }
}
