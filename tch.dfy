/** The types of the tch library that the codecs convert, and the handful
    of tensor operations they call. A tensor is modelled as an abstract
    value; the library's queries are field reads and its builders field
    updates. */
module Tch {
  import opened Rust

  /** Element types, in the order the codecs list them. */
  datatype Kind =
    | Uint8 | Int8 | Int16 | Int | Int64 | Half | Float | Double
    | ComplexHalf | ComplexFloat | ComplexDouble
    | Bool | QInt8 | QUInt8 | QInt32 | BFloat16

  predicate IsComplex(kind: Kind) {
    kind.ComplexHalf? || kind.ComplexFloat? || kind.ComplexDouble?
  }

  /** The storage width of one element, as the library reports it
      (`Kind::elt_size_in_bytes`); a complex element holds two parts. */
  function EltSizeInBytes(kind: Kind): (size: nat)
    ensures size in {1, 2, 4, 8, 16}
    ensures size == 16 ==> IsComplex(kind)
  {
    match kind
    case Uint8 | Int8 | Bool | QInt8 | QUInt8 => 1
    case Int16 | Half | BFloat16 => 2
    case Int | Float | QInt32 | ComplexHalf => 4
    case Int64 | Double | ComplexFloat => 8
    case ComplexDouble => 16
  }

  /** Where a tensor's storage lives: host memory or a CUDA device. */
  datatype Device = Cpu | Cuda(index: Usize)

  /** How a loss aggregates; `Other` carries a library-specific code. */
  datatype Reduction = None | Mean | Sum | Other(code: I64)

  /** A tensor as the codec sees it: its gradient flag, placement, shape
      (outermost dimension first; empty for a scalar), element kind, and the
      raw bytes of its elements in contiguous row-major order. */
  datatype Tensor = Tensor(requiresGrad: bool, device: Device, shape: seq<I64>, kind: Kind, data: seq<Byte>)

  /** The element count of a shape: the product of its dimensions, so a
      scalar (empty shape) has one element. */
  function Numel(shape: seq<int>): (n: int)
    ensures (forall i :: 0 <= i < |shape| ==> shape[i] >= 0) ==> n >= 0
    ensures (exists i :: 0 <= i < |shape| && shape[i] == 0) ==> n == 0
    ensures shape == [] ==> n == 1
  {
    if shape == [] then 1 else shape[0] * Numel(shape[1..])
  }

  /** What every tensor the library hands out satisfies: no negative
      dimension, and exactly one element's worth of bytes per element. */
  predicate IsLive(t: Tensor) {
    (forall i :: 0 <= i < |t.shape| ==> t.shape[i] >= 0)
    && |t.data| == Numel(t.shape) * EltSizeInBytes(t.kind)
  }

  type LiveTensor = t: Tensor | IsLive(t) witness Tensor(false, Cpu, [], Uint8, [0])

  /** `tensor.copy_data_u8(&mut buffer, numel)`: the library insists on a
      buffer of exactly `numel` elements and overwrites all of it with the
      tensor's bytes. */
  function CopyDataU8(t: LiveTensor, buffer: seq<Byte>, numel: int): (filled: seq<Byte>)
    requires numel == Numel(t.shape) && |buffer| == numel * EltSizeInBytes(t.kind)
    ensures |filled| == |buffer| && filled == t.data
  {
    t.data
  }

  /** `Tensor::of_data_size(&data, &shape, kind)`: a host tensor with the
      gradient flag off, holding the given bytes, shape and kind. The
      library's own handling of bytes that do not match the shape and kind
      is not modelled: the bytes are kept as given. */
  function OfDataSize(data: seq<Byte>, shape: seq<I64>, kind: Kind): (t: Tensor)
    ensures !t.requiresGrad && t.device == Cpu
    ensures t.shape == shape && t.kind == kind && t.data == data
  {
    Tensor(false, Cpu, shape, kind, data)
  }

  /** `tensor.set_requires_grad(flag)`. */
  function SetRequiresGrad(t: Tensor, flag: bool): (r: Tensor)
    ensures r.requiresGrad == flag && r.device == t.device
    ensures r.shape == t.shape && r.kind == t.kind && r.data == t.data
    ensures IsLive(r) <==> IsLive(t)
  {
    t.(requiresGrad := flag)
  }

  /** `tensor.to_device(device)`: moves the storage; the bytes are unchanged. */
  function ToDevice(t: Tensor, device: Device): (r: Tensor)
    ensures r.device == device && r.requiresGrad == t.requiresGrad
    ensures r.shape == t.shape && r.kind == t.kind && r.data == t.data
    ensures IsLive(r) <==> IsLive(t)
  {
    t.(device := device)
  }
}
