/** `serde_device`: a device travels as "cpu" or "cuda:<index>". */
module SerdeDevice {
  import opened Wrappers
  import opened Rust
  import opened Tch
  import opened Errors

  const CUDA_PREFIX: string := "cuda:"

  /** `serde_device::serialize`: "cpu", or the prefix and the index in decimal. */
  function Serialize(device: Device): (text: string)
    ensures device.Cpu? <==> text == "cpu"
    ensures device.Cuda? ==> CUDA_PREFIX <= text && IsCanonicalNat(text[|CUDA_PREFIX|..])
  {
    match device
    case Cpu => "cpu"
    case Cuda(n) => CUDA_PREFIX + FormatNat(n)
  }

  /** `serde_device::deserialize`: "cpu" exactly, otherwise strip the
      prefix and parse the rest as a `usize`; any failure refuses the whole
      text, which the error carries. */
  function Deserialize(text: string): (r: Result<Device, CodecError>)
    ensures r.Err? ==> r.error == InvalidDevice(text)
  {
    if text == "cpu" then Ok(Cpu)
    else
      match StripPrefix(text, CUDA_PREFIX)
      case None => Err(InvalidDevice(text))
      case Some(remaining) =>
        match ParseUsize(remaining)
        case None => Err(InvalidDevice(text))
        case Some(index) => Ok(Cuda(index))
  }

  lemma DeserializeSerialize(device: Device)
    ensures Deserialize(Serialize(device)) == Ok(device)
  {
    if device.Cuda? {
      var text := Serialize(device);
      assert text[|CUDA_PREFIX|..] == FormatNat(device.index);
      ParseUsizeOfFormat(device.index);
    }
  }

  lemma SerializeInjective(a: Device, b: Device)
    ensures Serialize(a) == Serialize(b) ==> a == b
  {
    DeserializeSerialize(a);
    DeserializeSerialize(b);
  }

  /** Which texts decode: "cpu", and "cuda:" followed by a `usize` literal;
      everything else fails. */
  lemma DeserializeAccepts(text: string)
    ensures Deserialize(text).Ok?
      <==> text == "cpu" || (CUDA_PREFIX <= text && ParseUsize(text[|CUDA_PREFIX|..]).Some?)
    ensures Deserialize(text) == Ok(Cpu) <==> text == "cpu"
  {
  }

  /** Re-encoding a decoded device gives the same text back exactly when
      the index was written the way the encoder writes it (no '+', no
      leading zero). */
  lemma SerializeDeserialize(text: string)
    requires Deserialize(text).Ok?
    ensures Serialize(Deserialize(text).value) == text
      <==> text == "cpu" || IsCanonicalNat(text[|CUDA_PREFIX|..])
  {
    if text != "cpu" {
      var remaining := text[|CUDA_PREFIX|..];
      assert text == CUDA_PREFIX + remaining;
      FormatOfParseUsize(remaining);
      var n := ParseUsize(remaining).value;
      assert Serialize(Cuda(n)) == CUDA_PREFIX + FormatNat(n);
      if Serialize(Cuda(n)) == text {
        assert FormatNat(n) == (CUDA_PREFIX + FormatNat(n))[|CUDA_PREFIX|..];
      }
    }
  }

  /** Past the "cpu" keyword, decoding is the parse of what follows the prefix. */
  lemma DeserializePrefixed(remaining: string)
    ensures Deserialize(CUDA_PREFIX + remaining)
      == if ParseUsize(remaining).Some? then Ok(Cuda(ParseUsize(remaining).value))
         else Err(InvalidDevice(CUDA_PREFIX + remaining))
  {
    assert (CUDA_PREFIX + remaining)[|CUDA_PREFIX|..] == remaining;
  }

  /** The parser is lenient: a '+' or a leading zero before the index is
      accepted, so encode after decode is not the identity. */
  lemma DeserializeAcceptsPlus(n: Usize)
    ensures Deserialize(CUDA_PREFIX + ("+" + FormatNat(n))) == Ok(Cuda(n))
  {
    var d := FormatNat(n);
    ParseUsizeOfFormat(n);
    ParseUsizeLenient(d);
    DeserializePrefixed("+" + d);
  }

  lemma DeserializeAcceptsLeadingZero(n: Usize)
    ensures Deserialize(CUDA_PREFIX + ("0" + FormatNat(n))) == Ok(Cuda(n))
  {
    var d := FormatNat(n);
    ParseUsizeOfFormat(n);
    ParseUsizeLenient(d);
    DeserializePrefixed("0" + d);
  }

  lemma LenientExamples()
    ensures Deserialize("cuda:+1") == Ok(Cuda(1))
    ensures Deserialize("cuda:01") == Ok(Cuda(1))
    ensures Serialize(Cuda(1)) == "cuda:1"
  {
    DeserializeAcceptsPlus(1);
    DeserializeAcceptsLeadingZero(1);
    assert FormatNat(1) == "1";
    assert "cuda:+1" == CUDA_PREFIX + ("+" + FormatNat(1));
    assert "cuda:01" == CUDA_PREFIX + ("0" + FormatNat(1));
  }

  /** An index that does not fit in a `usize` is refused. */
  lemma DeserializeRejectsOverflow(n: nat)
    requires n >= USIZE_LIMIT
    ensures Deserialize(CUDA_PREFIX + FormatNat(n)) == Err(InvalidDevice(CUDA_PREFIX + FormatNat(n)))
  {
    ValueOfFormat(n);
    DeserializePrefixed(FormatNat(n));
  }

  /** Malformed names are refused, with the text in the error. */
  lemma DeserializeRejects()
    ensures Deserialize("cuda:") == Err(InvalidDevice("cuda:"))
    ensures Deserialize("cuda:-1") == Err(InvalidDevice("cuda:-1"))
    ensures Deserialize("cuda:abc") == Err(InvalidDevice("cuda:abc"))
    ensures Deserialize("gpu:0") == Err(InvalidDevice("gpu:0"))
    ensures Deserialize("CPU") == Err(InvalidDevice("CPU"))
  {
    assert "cuda:-1"[5..] == "-1";
    assert "cuda:abc"[5..] == "abc";
    assert !IsDigit("abc"[0]);
    assert "cuda:"[5..] == "";
  }

  /** The unit test's expectations. */
  lemma Examples()
    ensures Serialize(Cpu) == "cpu"
    ensures Serialize(Cuda(0)) == "cuda:0" && Serialize(Cuda(1)) == "cuda:1"
    ensures Deserialize("cpu") == Ok(Cpu)
    ensures Deserialize("cuda:0") == Ok(Cuda(0)) && Deserialize("cuda:1") == Ok(Cuda(1))
  {
    DeserializeSerialize(Cuda(0));
    DeserializeSerialize(Cuda(1));
  }
}
