# rust-wfa2: CIGAR run-length compression

rust-wfa2 is a thin Rust binding over the C library WFA2-lib, the wavefront
alignment engine. Almost all behaviour lives in C or in the `aligner` wrapper
module, which are not part of this model. The one self-contained algorithm in
`src/lib.rs` is `compress_cigar` (lines 17-48). It turns the aligner's CIGAR,
one byte per edit operation (`M`, `X`, `I`, `D`), into the readable
run-length form `<count><op>...`, for example `9I13M10I`.

This project models that function and proves what it computes.

- `run_length.dfy` (module `RunLength`) holds the run-length view of a byte
  string. `Runs` gives the maximal runs of equal bytes, in order, and
  `Expand` is its inverse. `Canonical` says that no run is empty and that
  neighbouring runs carry different operations.
- `decimal.dfy` (module `Decimal`) holds `Digits`, the decimal text of a run
  length as Rust's `{}` formatting writes it. It also holds `Value` and
  `DigitSpan`, which read digits back.
- `utf8.dfy` (module `Utf8`) defines well-formed UTF-8 byte sequences,
  following the syntax table of section 4 of RFC 3629. This is the
  acceptance rule of `std::str::from_utf8`.
- `compress_cigar.dfy` (module `CompressCigar`) holds three things. `Compress`
  is the specification: the fields `<count><op>` of the maximal runs, or a
  panic. `CompressCigar` is the loop of `src/lib.rs:17-48`, written
  imperatively. It keeps the original state exactly: `out`, `runlen`, and
  `current_type`, which starts at the sentinel byte 0. It is proved to return
  `Compress(cigar)` on every input. `ParseCigar` and `Decompress` read the
  compressed text back, which closes the round trip.

Error path: each emitted run calls `std::str::from_utf8(&[current_type]).unwrap()`.
A lone byte of 0x80 or above is not well-formed UTF-8, so the call panics. The model
returns `Utf8Panic` in that case. `FromUtf8Byte` is the one-byte conversion.
The input is not required to be ASCII.

The sentinel: `current_type` starts as 0 with `runlen` 0, so an input whose
first byte is 0 takes the "same type" branch on the first step. The loop
invariant `runlen == 0 <==> i == 0` covers that step. `runlen` becomes 1 and
nothing is emitted, which is what the other branch would also have done. The
method's postcondition therefore holds for inputs that start with 0 bytes,
and `LeadingZeroBytes` shows the output for one such input.

## Model

| member | source | states |
|---|---|---|
| `CompressCigar.CompressCigar` | src/lib.rs:17-48 | The loop returns exactly `Compress(cigar)` on every input. That is the text of the maximal runs when every byte is ASCII, and a panic otherwise. This includes inputs that start with the sentinel byte 0. |
| `CompressCigar.EmitRun` | src/lib.rs:27-36 | Emitting the closed run `(runlen, current_type)` keeps the emitted runs canonical and ASCII. They still expand to the consumed input, and `out` is still their text. |
| `CompressCigar.WrittenAll` | src/lib.rs:39-47 | Once the final flush has closed the last run, the text written is the compressed input. |
| `RunLength.LeadLengthBlock` | src/lib.rs:24-25 | The "same type" branch extends the current run. A run covers the whole block of equal bytes and stops at the first different byte. |
| `RunLength.RunsCanonical` | src/lib.rs:24-37 | Every run has a count of at least 1. Neighbouring runs have different operations, so runs are maximal. There are no runs only for an empty input. The first run carries the first byte. |
| `RunLength.ExpandRuns` | src/lib.rs:17-48 | Round trip: expanding each `(count, op)` into `count` copies of `op`, in order, gives back the input. |
| `RunLength.RunsExpand` | src/lib.rs:24-37 | The run view is unique. Every canonical list of runs is the run view of its own expansion. |
| `RunLength.CountsSumToLength` | src/lib.rs:23-46 | The emitted counts add up to the input length. |
| `RunLength.RunsOps` | src/lib.rs:23-46 | The operations of the emitted runs are exactly the bytes that occur in the input. |
| `CompressCigar.PanicIffNonAscii` | src/lib.rs:28-45 | The compressor panics if and only if some input byte is 0x80 or above. |
| `CompressCigar.FromUtf8Byte` | src/lib.rs:31 | The conversion of the one-byte slice `[b]` succeeds exactly when `[b]` is well-formed UTF-8 under the syntax of section 4 of RFC 3629 (`Utf8.WellFormed`). The character it then yields has code point `b`. |
| `CompressCigar.CompressEmpty` | src/lib.rs:18-21 | An empty input compresses to the empty string. A non-empty input never compresses to the empty string. |
| `CompressCigar.CompressOfRuns` | src/lib.rs:17-48 | Given a canonical list of ASCII runs, the compressor outputs exactly their fields. |
| `Decimal.Digits` | src/lib.rs:28-32 | A run length is written as decimal digits. The text is never empty, has no leading zero for a positive count, and reads back as the count. |
| `Decimal.DigitSpanOfNumber` | src/lib.rs:28-32 | When the count's digits are followed by a non-digit operation, the leading digit span stops exactly where the digits end. |
| `CompressCigar.ParseText` | src/lib.rs:28-33 | When no operation is a digit, the text of a list of runs parses back into those runs. |
| `CompressCigar.DecompressCompress` | src/lib.rs:17-48 | For ASCII input with no digit bytes, such as the CIGAR operations `M`, `X`, `I` and `D`, compression succeeds and decompressing its text gives back the input. |
| `CompressCigar.EndsFreeInsertionVector` | src/lib.rs:97 | 9 `I`, 13 `M` and 10 `I` compress to `9I13M10I`. |
| `CompressCigar.EndsFreeDeletionVector` | src/lib.rs:113 | 9 `D`, 13 `M` and 10 `D` compress to `9D13M10D`. |
| `CompressCigar.LongInsertionVector` | src/lib.rs:170 | 6 `M`, 21 `I` and 5 `M` compress to `6M21I5M`. |
| `CompressCigar.LeadingZeroBytes` | src/lib.rs:20-25 | A leading block of zero bytes, the sentinel's own value, is counted in full: `[0, 0, M]` compresses to `2\01M`. |

## Left out

- The `aligner` module (src/lib.rs:1) is not part of this model. It wraps foreign C calls (`WFAlignerGapAffine`, `align_end_to_end`, `align_ends_free`, `score`, `cigar`, `matching`) whose code is not available.
- The `wfa2` re-export of the `wfa2_sys` bindings (src/lib.rs:3-6) is foreign C code and is left out.
- The wavefront alignment engine, the penalty models, traceback and the `matching` formatter live in WFA2-lib's C sources, which are not part of this repository. They are left out.
- The scores and CIGARs asserted by the tests (src/lib.rs:51-316) describe the C engine's output, so only their `compress_cigar` expectations are modelled. Those are lines 97, 113 and 170.
- The `MemoryModel` and `AlignmentScope` settings are configuration passed through to C, and are left out.
- CompressCigar.CompressCigar: `runlen` is an unbounded `nat`. The Rust variable is an inferred `i32`, and `compress_cigar` exists only under `#[cfg(test)]` (src/lib.rs:8), where overflow checks are on. So `runlen += 1` on a run longer than 2^31 - 1 bytes panics (test profile). The model does not capture that panic.
- CompressCigar.CompressCigar: the input `&Vec<u8>` is modelled as a read-only `seq<Byte>`, and the output `String` as a sequence of characters. UTF-8 encoding of the `String` is not modelled. Every character the compressor emits is ASCII, so each character is one byte.
- `format!` and `from_utf8` are modelled only by their effect: the decimal digits of the count followed by the operation character, or a panic on a non-ASCII byte. Their internal machinery and the panic message are left out.
- `ParseCigar` and `Decompress` are not in the source. They exist only to state the round trip back from the compressed text.
