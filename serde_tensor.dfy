/** `serde_tensor` and `TensorRepr`: a tensor travels as a record of its
    gradient flag, device, shape, kind and raw element bytes. */
module SerdeTensor {
  import opened Wrappers
  import opened Rust
  import opened Tch
  import opened Errors
  import SerdeKind
  import SerdeDevice

  /** `TensorRepr`: the record a tensor is converted to. */
  datatype TensorRepr = TensorRepr(requiresGrad: bool, device: Device, shape: seq<I64>, kind: Kind, data: seq<Byte>)

  /** The record as serde writes it: the device and kind fields go through
      `serde_device` and `serde_kind`. */
  datatype TensorReprText = TensorReprText(requiresGrad: bool, device: string, shape: seq<I64>, kind: string, data: seq<Byte>)

  /** The encoder's table of element widths (`mem::size_of` of the matching
      Rust type). The complex kinds are not in it. */
  function ElemSize(kind: Kind): (size: Option<nat>)
    ensures size.None? <==> IsComplex(kind)
    ensures size.Some? ==> size.value in {1, 2, 4, 8}
  {
    match kind
    case Uint8 => Some(1)     // u8
    case Int8 => Some(1)      // i8
    case Int16 => Some(2)     // i16
    case Int => Some(4)       // i32
    case Int64 => Some(8)     // i64
    case Half => Some(2)      // f16
    case Float => Some(4)     // f32
    case Double => Some(8)    // f64
    case Bool => Some(1)      // bool
    case QInt8 => Some(1)     // i8
    case QUInt8 => Some(1)    // u8
    case QInt32 => Some(4)    // i32
    case BFloat16 => Some(2)  // f16
    case _ => Option.None
  }

  /** Where the encoder's table has a width, it is the library's storage width. */
  lemma ElemSizeAgreesWithLibrary(kind: Kind)
    requires ElemSize(kind).Some?
    ensures ElemSize(kind).value == EltSizeInBytes(kind)
  {
  }

  /** `serde_tensor::serialize`, up to the record: read the four fields,
      refuse a kind without a width, and copy the elements into a zeroed
      buffer of `numel * elem_size` bytes. */
  function Serialize(tensor: LiveTensor): (r: Result<TensorRepr, CodecError>)
    ensures r.Err? <==> IsComplex(tensor.kind)
    ensures r.Err? ==> r.error == UnsupportedKind(tensor.kind)
    ensures r.Ok? ==> |r.value.data| == Numel(tensor.shape) * ElemSize(tensor.kind).value
    ensures r.Ok? ==> r.value.data == tensor.data
    ensures r.Ok? ==> r.value.requiresGrad == tensor.requiresGrad && r.value.device == tensor.device
    ensures r.Ok? ==> r.value.shape == tensor.shape && r.value.kind == tensor.kind
  {
    match ElemSize(tensor.kind)
    case None => Err(UnsupportedKind(tensor.kind))
    case Some(elemSize) =>
      var numel := Numel(tensor.shape);
      var buffer := seq(numel * elemSize, _ => 0);
      var data := CopyDataU8(tensor, buffer, numel);
      Ok(TensorRepr(tensor.requiresGrad, tensor.device, tensor.shape, tensor.kind, data))
  }

  /** `serde_tensor::deserialize`, from the record: build a host tensor from
      the bytes, shape and kind, then set the gradient flag, then move it to
      the recorded device. Nothing compares the byte count with the shape
      and kind. */
  function Deserialize(repr: TensorRepr): (tensor: Tensor)
    ensures tensor.requiresGrad == repr.requiresGrad && tensor.device == repr.device
    ensures tensor.shape == repr.shape && tensor.kind == repr.kind && tensor.data == repr.data
  {
    var tensor := OfDataSize(repr.data, repr.shape, repr.kind);
    var tensor := SetRequiresGrad(tensor, repr.requiresGrad);
    ToDevice(tensor, repr.device)
  }

  /** A record the encoder could have produced: no negative dimension, a
      kind with a width, and exactly that many bytes per element. */
  predicate IsWellSized(repr: TensorRepr) {
    (forall i :: 0 <= i < |repr.shape| ==> repr.shape[i] >= 0)
    && ElemSize(repr.kind).Some?
    && |repr.data| == Numel(repr.shape) * ElemSize(repr.kind).value
  }

  /** Encoding succeeds for every supported kind and decoding gives back the
      same tensor: shape, kind, flag, device and every byte. */
  lemma DeserializeSerialize(tensor: LiveTensor)
    requires !IsComplex(tensor.kind)
    ensures Serialize(tensor).Ok? && Deserialize(Serialize(tensor).value) == tensor
  {
  }

  /** Every record the encoder produces is well sized. */
  lemma SerializeWellSized(tensor: LiveTensor)
    requires Serialize(tensor).Ok?
    ensures IsWellSized(Serialize(tensor).value)
  {
  }

  /** Conversely, a well-sized record decodes to a live tensor that encodes
      back to the same record. */
  lemma SerializeDeserialize(repr: TensorRepr)
    requires IsWellSized(repr)
    ensures IsLive(Deserialize(repr))
    ensures Serialize(Deserialize(repr)) == Ok(repr)
  {
    ElemSizeAgreesWithLibrary(repr.kind);
  }

  /** Decoding never refuses a record: nothing compares the byte count with
      the shape and kind, and a complex record, which the encoder never
      produces, is taken too. In this model the result is a live tensor
      exactly when the byte count matches; what `of_data_size` itself does
      with mismatched bytes is not modelled. */
  lemma DeserializeUnchecked(repr: TensorRepr)
    ensures IsLive(Deserialize(repr))
      <==> (forall i :: 0 <= i < |repr.shape| ==> repr.shape[i] >= 0)
           && |repr.data| == Numel(repr.shape) * EltSizeInBytes(repr.kind)
  {
  }

  /** A record one byte short of a two-element float tensor decodes without
      refusal. */
  lemma DeserializeShortRecord()
    ensures var repr := TensorRepr(false, Cpu, [2], Float, [0, 0, 0, 0, 0, 0, 0]);
      !IsWellSized(repr) && Deserialize(repr).data == repr.data && !IsLive(Deserialize(repr))
  {
    assert Numel([2]) == 2;
  }

  /** The encoder refuses the three complex kinds, whatever the tensor. */
  lemma SerializeRejectsComplex(tensor: LiveTensor)
    requires IsComplex(tensor.kind)
    ensures Serialize(tensor) == Err(UnsupportedKind(tensor.kind))
  {
  }

  // ---------------------------------------------------------------------
  // The record's textual fields

  function ToText(repr: TensorRepr): (text: TensorReprText)
    ensures text.device == SerdeDevice.Serialize(repr.device)
    ensures text.kind == SerdeKind.Serialize(repr.kind)
    ensures text.requiresGrad == repr.requiresGrad && text.shape == repr.shape && text.data == repr.data
  {
    TensorReprText(repr.requiresGrad, SerdeDevice.Serialize(repr.device), repr.shape,
                   SerdeKind.Serialize(repr.kind), repr.data)
  }

  /** Decode the device field, then the kind field; a failure in either
      refuses the record. */
  function FromText(text: TensorReprText): (r: Result<TensorRepr, CodecError>)
    ensures r.Ok? <==> SerdeDevice.Deserialize(text.device).Ok? && SerdeKind.Deserialize(text.kind).Ok?
    ensures r.Err? ==> r.error == InvalidDevice(text.device) || r.error == InvalidKind(text.kind)
    ensures r.Ok? ==> r.value == TensorRepr(text.requiresGrad, SerdeDevice.Deserialize(text.device).value,
                                            text.shape, SerdeKind.Deserialize(text.kind).value, text.data)
  {
    match SerdeDevice.Deserialize(text.device)
    case Err(e) => Err(e)
    case Ok(device) =>
      match SerdeKind.Deserialize(text.kind)
      case Err(e) => Err(e)
      case Ok(kind) => Ok(TensorRepr(text.requiresGrad, device, text.shape, kind, text.data))
  }

  lemma FromTextToText(repr: TensorRepr)
    ensures FromText(ToText(repr)) == Ok(repr)
  {
    SerdeDevice.DeserializeSerialize(repr.device);
    SerdeKind.DeserializeSerialize(repr.kind);
  }

  /** The whole of `serde_tensor::serialize`. */
  function SerializeText(tensor: LiveTensor): (r: Result<TensorReprText, CodecError>)
    ensures r.Err? <==> IsComplex(tensor.kind)
    ensures r.Err? ==> r.error == UnsupportedKind(tensor.kind)
    ensures r.Ok? ==> r.value == ToText(Serialize(tensor).value)
    ensures r.Ok? ==> r.value.requiresGrad == tensor.requiresGrad && r.value.shape == tensor.shape
    ensures r.Ok? ==> r.value.data == tensor.data
    ensures r.Ok? ==> r.value.device == SerdeDevice.Serialize(tensor.device)
    ensures r.Ok? ==> r.value.kind == SerdeKind.Serialize(tensor.kind)
    ensures r.Ok? ==> |r.value.data| == Numel(tensor.shape) * ElemSize(tensor.kind).value
  {
    match Serialize(tensor)
    case Err(e) => Err(e)
    case Ok(repr) => Ok(ToText(repr))
  }

  /** The whole of `serde_tensor::deserialize`. */
  function DeserializeText(text: TensorReprText): (r: Result<Tensor, CodecError>)
    ensures r.Ok? <==> FromText(text).Ok?
    ensures r.Err? ==> r.error == InvalidDevice(text.device) || r.error == InvalidKind(text.kind)
    ensures r.Ok? ==> r.value.device == SerdeDevice.Deserialize(text.device).value
    ensures r.Ok? ==> r.value.kind == SerdeKind.Deserialize(text.kind).value
    ensures r.Ok? ==> r.value.data == text.data && r.value.shape == text.shape
    ensures r.Ok? ==> r.value.requiresGrad == text.requiresGrad
  {
    match FromText(text)
    case Err(e) => Err(e)
    case Ok(repr) => Ok(Deserialize(repr))
  }

  /** The central round trip, through the record's textual form. */
  lemma DeserializeTextSerializeText(tensor: LiveTensor)
    requires !IsComplex(tensor.kind)
    ensures SerializeText(tensor).Ok?
    ensures DeserializeText(SerializeText(tensor).value) == Ok(tensor)
  {
    DeserializeSerialize(tensor);
    FromTextToText(Serialize(tensor).value);
  }
}
