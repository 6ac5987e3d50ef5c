# tch-serde, modelled in Dafny

tch-serde lets serde serialise the tch library's `Tensor`, `Kind`, `Device`
and `Reduction` values, field by field, through `#[serde(with = "...")]`.
It has four codecs in `src/lib.rs`:

- `serde_kind` writes each of the sixteen element kinds as a lowercase name and reads
  it back by exact match.
- `serde_device` writes `Cpu` as `"cpu"` and `Cuda(n)` as `"cuda:<n>"`. It reads by
  exact keyword, then by stripping the prefix and parsing a `usize`.
- `serde_reduction` writes `None`/`Mean`/`Sum` as keywords and `Other(v)` as
  `"other:<v>"`. It reads by keyword, then by stripping the prefix and parsing an `i64`.
- `serde_tensor` converts a tensor to a `TensorRepr` record. The record holds the
  gradient flag, device, shape, kind and the raw element bytes. The byte count is
  `numel × elem_size`, taken from a fixed per-kind table that leaves out the complex
  kinds. Decoding rebuilds the tensor from the record, then sets the gradient flag,
  then moves the tensor to the recorded device.

The model is pure: datatypes, functions and lemmas, one module per codec.

- `Rust` holds the integer ranges, `str::strip_prefix`, decimal `Display` and radix-10
  `FromStr` for `usize` and `i64`.
- `Tch` holds the library's types. A tensor is an abstract value. Its queries are
  field reads and its builders (`of_data_size`, `set_requires_grad`, `to_device`) are
  field updates. `LiveTensor` is the library's invariant on the tensors it hands out.
- `Errors` holds the refusals, each carrying the refused value.
- `SerdeKind`, `SerdeDevice`, `SerdeReduction` and `SerdeTensor` are the four codecs.

For every codec, decoding what was encoded gives the original value back. Encoding
what was decoded gives the text back exactly when the text was in the encoder's own
form. The number parser accepts a leading `+` and leading zeros, so `"cuda:01"` and
`"cuda:+1"` both decode to `Cuda(1)`, which encodes as `"cuda:1"`.

The tensor decoder in `src/lib.rs` has no length check: it does not compare the
byte count with the shape and kind. `SerdeTensor.DeserializeUnchecked` and
`SerdeTensor.DeserializeShortRecord` show a wrong-sized record decoding without
refusal. What `of_data_size` does with mismatched bytes is not modelled; the model
keeps the bytes as given.

## Model

| member | source | states |
|---|---|---|
| `Rust.StripPrefix` | src/lib.rs:200 | succeeds exactly when the text starts with the prefix, and then the text is the prefix followed by the result |
| `Rust.FormatNat` | src/lib.rs:186 | the decimal text of an unsigned number is digits only, with no leading zero, and is "0" exactly for zero |
| `Rust.FormatInt` | src/lib.rs:285 | the decimal text of a signed number has a canonical magnitude and starts with '-' exactly for negative numbers |
| `Rust.ParseUsize` | src/lib.rs:201 | an accepted text is non-empty and is all digits after an optional '+' |
| `Rust.ParseI64` | src/lib.rs:303 | an accepted text is non-empty and is all digits after an optional '+' or '-'; a result is negative only after a '-', and a '-' never gives a positive result |
| `Rust.ValueOfFormat` | src/lib.rs:186 | the digits written for n spell n |
| `Rust.FormatOfValue` | src/lib.rs:186 | a canonical digit string is the text written for its own value |
| `Rust.LeadingZeroValue` | src/lib.rs:201 | a leading zero does not change the value of a digit string |
| `Rust.ParseUsizeOfFormat` | src/lib.rs:199-203 | parsing the text written for any usize gives it back |
| `Rust.ParseI64OfFormat` | src/lib.rs:301-304 | parsing the text written for any i64, including negatives and the minimum, gives it back |
| `Rust.FormatOfParseUsize` | src/lib.rs:201 | writing a parsed usize reproduces the text exactly when the text was canonical |
| `Rust.FormatOfParseI64` | src/lib.rs:303 | writing a parsed i64 reproduces the text exactly when the text was canonical (no '+', no leading zero, no "-0") |
| `Rust.ParseUsizeLenient` | src/lib.rs:201 | a leading '+' or a leading zero does not change what a digit string parses to |
| `Rust.ParseI64Lenient` | src/lib.rs:303 | a leading '+' or a leading zero does not change what a digit string parses to as an i64 |
| `Rust.ParseI64LenientNegative` | src/lib.rs:303 | a zero after the '-' does not change what a negative literal parses to |
| `Rust.Zeros` | src/lib.rs:201 | a run of k '0' digits |
| `Rust.ZerosValue` | src/lib.rs:201 | any number of leading zeros does not change the value of a digit string |
| `Rust.SplitLeadingZeros` | src/lib.rs:201 | every non-empty digit string is some zeros followed by the canonical text of its value |
| `Rust.ParseUsizeOfDigits` | src/lib.rs:201 | a plain digit string parses to its value exactly when that value fits in a usize |
| `Rust.ParseUsizeOfZerosFormat` | src/lib.rs:201 | zeros followed by the canonical text of n parse to n |
| `Rust.ParseUsizeOfPlusZerosFormat` | src/lib.rs:201 | '+', zeros, then the canonical text of n parse to n |
| `Rust.ParsedUsizeIsSpelling` | src/lib.rs:201 | every text that parses to n is a spelling of n |
| `Rust.ParseUsizeSpellings` | src/lib.rs:201 | the texts that parse to a usize n are exactly an optional '+', then any number of zeros, then the canonical text of n |
| `Rust.ParseI64OfDigits` | src/lib.rs:303 | a plain digit string parses to its value exactly when that value fits in an i64 |
| `Rust.ParseI64OfPlusDigits` | src/lib.rs:303 | a digit string after '+' parses to its value exactly when that value fits in an i64 |
| `Rust.ParseI64OfMinusDigits` | src/lib.rs:303 | a digit string after '-' parses to the negation of its value exactly when that negation fits in an i64 |
| `Rust.SpellingParsesI64` | src/lib.rs:303 | every spelling of an i64 v parses to v |
| `Rust.ParsedI64IsSpelling` | src/lib.rs:303 | every text that parses to v is a spelling of v |
| `Rust.ParseI64Spellings` | src/lib.rs:303 | the texts that parse to an i64 v are exactly an optional sign agreeing with v ('+' for v >= 0, '-' for v <= 0), then any number of zeros, then the canonical text of the magnitude |
| `Tch.Numel` | src/lib.rs:117 | the element count is non-negative for non-negative dimensions, and zero when some dimension is zero; a scalar has one element |
| `Tch.EltSizeInBytes` | src/lib.rs:141 | the library's width of one element is 1, 2, 4, 8 or 16 bytes, and 16 only for a complex kind |
| `Tch.CopyDataU8` | src/lib.rs:140-141 | a buffer of exactly numel elements is overwritten completely, with the tensor's bytes |
| `Tch.OfDataSize` | src/lib.rs:168 | the new tensor is on the CPU with the gradient flag off, and holds the given bytes, shape and kind |
| `Tch.SetRequiresGrad` | src/lib.rs:169 | the tensor gets the given flag, and its device, shape, kind and bytes are unchanged; it is live exactly when the input was |
| `Tch.ToDevice` | src/lib.rs:170 | the tensor gets the given device, and its flag, shape, kind and bytes are unchanged; it is live exactly when the input was |
| `SerdeKind.Serialize` | src/lib.rs:218-242 | every kind has a name, and every name is a lowercase identifier |
| `SerdeKind.Deserialize` | src/lib.rs:244-270 | a refusal carries the offending text |
| `SerdeKind.DeserializeSerialize` | src/lib.rs:223-266 | decoding the name of any kind gives that kind |
| `SerdeKind.SerializeDeserialize` | src/lib.rs:250-267 | any accepted name is the name of the kind it decodes to |
| `SerdeKind.DeserializeAcceptsExactlyNames` | src/lib.rs:250-267 | decoding succeeds if and only if the text is the name of some kind |
| `SerdeKind.SerializeInjective` | src/lib.rs:223-240 | distinct kinds have distinct names |
| `SerdeKind.AllKindsEnumerated` | src/lib.rs:223-240 | the enumeration has sixteen entries and every kind is among them |
| `SerdeKind.AllKindNamesDistinct` | src/lib.rs:223-240 | the names of any two different entries of the enumeration differ |
| `SerdeKind.SerializeExamples` | src/lib.rs:396-435 | the names the unit test expects for each kind |
| `SerdeKind.DeserializeExamples` | src/lib.rs:437-509 | the kinds the unit test expects for each name |
| `SerdeKind.DeserializeRejects` | src/lib.rs:267 | "Float", "uint16", "" and "int " are refused, each with its own text |
| `SerdeDevice.Serialize` | src/lib.rs:180-189 | "cpu" exactly for the CPU; otherwise "cuda:" then a canonical decimal index |
| `SerdeDevice.Deserialize` | src/lib.rs:191-211 | a refusal carries the original text |
| `SerdeDevice.DeserializeSerialize` | src/lib.rs:184-206 | decoding the text of any device gives that device |
| `SerdeDevice.SerializeInjective` | src/lib.rs:184-187 | distinct devices have distinct texts |
| `SerdeDevice.DeserializeAccepts` | src/lib.rs:196-204 | decoding succeeds if and only if the text is "cpu", or is "cuda:" followed by a usize literal; only "cpu" gives the CPU |
| `SerdeDevice.SerializeDeserialize` | src/lib.rs:196-206 | re-encoding a decoded device reproduces the text exactly when the index was canonical |
| `SerdeDevice.DeserializePrefixed` | src/lib.rs:198-206 | after the prefix, decoding is the usize parse of the rest |
| `SerdeDevice.DeserializeAcceptsPlus` | src/lib.rs:201 | "cuda:+" followed by the index decodes to that device |
| `SerdeDevice.DeserializeAcceptsLeadingZero` | src/lib.rs:201 | "cuda:0" followed by the index decodes to that device |
| `SerdeDevice.LenientExamples` | src/lib.rs:199-206 | "cuda:+1" and "cuda:01" decode to Cuda(1), which encodes as "cuda:1" |
| `SerdeDevice.DeserializeRejectsOverflow` | src/lib.rs:201 | an index of 2^64 or more is refused |
| `SerdeDevice.DeserializeRejects` | src/lib.rs:199-204 | "cuda:", "cuda:-1", "cuda:abc", "gpu:0" and "CPU" are refused, each with its own text |
| `SerdeDevice.Examples` | src/lib.rs:363-386 | the texts and devices the unit test expects |
| `SerdeReduction.Serialize` | src/lib.rs:277-288 | the keywords exactly for None, Mean and Sum; otherwise "other:" then the canonical signed code |
| `SerdeReduction.Deserialize` | src/lib.rs:290-312 | a refusal carries the original text |
| `SerdeReduction.DeserializePrefixed` | src/lib.rs:300-307 | past the keywords, decoding is the i64 parse of what follows "other:" |
| `SerdeReduction.DeserializeSerialize` | src/lib.rs:281-308 | decoding the text of any reduction, negative codes included, gives that reduction |
| `SerdeReduction.SerializeInjective` | src/lib.rs:281-286 | distinct reductions have distinct texts |
| `SerdeReduction.DeserializeAccepts` | src/lib.rs:296-306 | decoding succeeds if and only if the text is a keyword, or is "other:" followed by an i64 literal |
| `SerdeReduction.SerializeDeserialize` | src/lib.rs:296-308 | re-encoding a decoded reduction reproduces the text exactly when the code was canonical |
| `SerdeReduction.DeserializeAcceptsPlus` | src/lib.rs:303 | "other:+" followed by a non-negative code decodes to that code |
| `SerdeReduction.DeserializeAcceptsLeadingZero` | src/lib.rs:303 | "other:0" followed by a non-negative code decodes to that code |
| `SerdeReduction.DeserializeRejectsOverflow` | src/lib.rs:303 | a code outside the i64 range is refused |
| `SerdeReduction.DeserializeRejects` | src/lib.rs:301-306 | "other:", "other:x", "other:-", "mean " and "Mean" are refused, each with its own text |
| `SerdeReduction.Examples` | src/lib.rs:325-353 | the texts and reductions the unit test expects, plus Other(-7) |
| `SerdeTensor.ElemSize` | src/lib.rs:118-137 | no width exactly for the three complex kinds; every other width is 1, 2, 4 or 8 |
| `SerdeTensor.ElemSizeAgreesWithLibrary` | src/lib.rs:118-131 | each width in the table is the library's storage width for that kind |
| `SerdeTensor.Serialize` | src/lib.rs:107-151 | refuses exactly the complex kinds, naming the kind; otherwise the record has numel × elem_size bytes, the tensor's own bytes, and the tensor's flag, device, shape and kind |
| `SerdeTensor.Deserialize` | src/lib.rs:156-173 | the tensor takes the flag, device, shape, kind and bytes of the record |
| `SerdeTensor.DeserializeSerialize` | src/lib.rs:111-172 | every tensor of a supported kind encodes, and decoding the record gives the same tensor back |
| `SerdeTensor.SerializeWellSized` | src/lib.rs:139-151 | every record the encoder produces is well sized |
| `SerdeTensor.SerializeDeserialize` | src/lib.rs:160-172 | a well-sized record decodes to a live tensor that encodes back to the same record |
| `SerdeTensor.DeserializeUnchecked` | src/lib.rs:160-168 | decoding never refuses a record, whatever its byte count; in the model the result is live if and only if the byte count matches the shape and kind |
| `SerdeTensor.DeserializeShortRecord` | src/lib.rs:168 | a float record of shape [2] with seven bytes decodes without refusal |
| `SerdeTensor.SerializeRejectsComplex` | src/lib.rs:132-136 | any complex tensor is refused with UnsupportedKind of its kind |
| `SerdeTensor.ToText` | src/lib.rs:93-101 | the device and kind fields are written by their codecs; the other fields are copied |
| `SerdeTensor.FromText` | src/lib.rs:93-101 | reading the record succeeds if and only if both the device and the kind names decode; a refusal is that of one of them; the record read has the decoded device and kind and the other fields copied |
| `SerdeTensor.FromTextToText` | src/lib.rs:95-98 | reading a written record gives it back |
| `SerdeTensor.SerializeText` | src/lib.rs:107-154 | refuses exactly the complex kinds, with UnsupportedKind of the kind; otherwise it writes the record of the tensor: the tensor's flag, shape and bytes (numel × elem_size of them), with the device and kind written by their codecs |
| `SerdeTensor.DeserializeText` | src/lib.rs:156-173 | succeeds exactly when the record's device and kind names decode, and a refusal comes only from one of them; the tensor has the codec-decoded device and kind and the record's bytes, shape and flag |
| `SerdeTensor.DeserializeTextSerializeText` | src/lib.rs:519-550 | decoding the written record of a tensor of a supported kind gives back the same tensor |

## Left out

- The serde `Serializer`/`Deserializer` plumbing and the JSON text. Each codec is a function to and from a string or a record.
- `examples/compound.rs`: it only prints a JSON document.
- `usize` is taken to be 64 bits wide. On a 32-bit target the device index limit would be 2^32.
- The product `numel * elem_size` is computed without `usize` overflow. No tensor that fits in memory reaches that limit.
- What `of_data_size` does with a record whose byte count does not match is not modelled. The decoded tensor simply carries the bytes it was given.
- Refusals inside the library on decoding are not modelled: `to_device` to a CUDA index that does not exist, and `set_requires_grad(true)` on a kind that cannot carry gradients (a non-floating kind). The model decodes such records into a tensor.
- The shape is not checked for negative dimensions on decoding, as in the code. The model does not say what the library does with one.
- The text of the error messages is not modelled. Each error carries the refused value (kind or text) only.
- `SerdeTensor.FromText` reports the device error before the kind error. In the real code, the field that comes first in the document fails first.
- Floating-point values, endianness and portability of the bytes. The codec copies raw bytes, and the model treats them as raw bytes.
- Autograd is not modelled. Moving a tensor that requires gradients keeps only the flag.
- Random tensor construction (`randn`, `randint`) and `cuda_if_available`, used by the tensor unit test. That test's round trip is `SerdeTensor.DeserializeTextSerializeText`, stated for all tensors.
- The `Device` and `Reduction` variants are those the source matches on (`Cpu`, `Cuda`; `None`, `Mean`, `Sum`, `Other`).
