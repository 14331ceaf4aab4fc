# UserPatch install engine, modelled in Dafny

This project models the feature-gated binary patch engine of the
`aoc-userpatch` crate (`crates/aoc-userpatch/src/patch.rs`). The engine takes
three inputs:

- an Age of Empires II 1.0c executable image, as bytes
- a catalog of named features, each an ordered list of injections (an
  absolute address and a hexadecimal payload)
- the install options

It returns a new image of exactly 3072 × 1024 bytes, with the injections of
the selected features written in.

The model follows the source's own structure:

- `Base.dfy` holds the shared vocabulary. `Byte` and `U32` are subset types
  of `int`. `Option` and `Result` are wrappers. `Error` names each way the
  original aborts: an assertion, an `expect`, a slice out of range, or an
  integer underflow.
- `HexCodec.dfy` models `decode_hex`. `HexDecode` is the specification
  function; `DecodeHex` is the loop that pushes one byte per pair of digits,
  proved equal to it. The module also has an upper-case encoder and the
  round trip through it.
- `PatchApply.dfy` models `apply_patch`. `ApplyPatch` overwrites an `array`
  in place. It is specified by the function `Overwrite` on sequences.
- `Features.dfy` holds `Feature`, `Injection` and the options record.
  `Feature::enable` becomes `Enable`, and `configure_features` becomes
  `ConfigureFeatures`. The twenty-arm name match becomes `Toggle`. That match
  is proved equal to an explicit table of (feature name, option field,
  direct/inverted) rows, `SwitchTable`.
- `Install.dfy` models `install_into`:
  - `Install` is the specification, built from `InjectStep`,
    `ApplyInjections` and `ApplyFeatures`.
  - `InstallInto` is the imperative version. It fills a fresh array and runs
    the loops over features and injections, with the inner loop in
    `ApplyInjectionsInPlace`.
  - `ReduceAddress` is the address-correction `while` loop, with a ghost
    count of the corrections.
  - The lemmas cover the install's observable guarantees:
    - the output size
    - disabled features write nothing
    - untouched bytes keep their value
    - on overlap, the later injection wins, within a feature and across
      features
    - a non-empty patch corrected to the end of the image aborts, and a
      successful install fit every enabled injection

Three behaviours of the code are easy to misread, and the model keeps them
as written:

- `configure_features` calls `enable` on every catalog feature. That
  includes features no switch names, which are given their own current
  state. `enable` asserts that the feature is optional, so the first
  non-optional feature anywhere in the catalog aborts resolution, and with it
  the install. It does not keep its default. The model returns
  `IllegalToggle(name)` for the first such feature, and
  `ConfigureFeatures`'s contract says that resolution succeeds exactly when
  every catalog feature is optional. Non-optional features are not skipped.
- The four "Disable …" features are enabled with the negation of their
  option. An options record with every field false therefore enables those
  four features. It does not leave every feature off.
- The address correction subtracts while the address is greater than the
  buffer length, so an address equal to the length is kept. A non-empty patch
  there then reaches past the end and aborts the install
  (`InjectionAtEndOfImageFails`). No patch is ever cut short: a successful
  install decoded every enabled injection and fit each one inside the image
  (`InstallMeansEveryInjectionFits`).

The catalog is a parameter (`seq<Feature>`) rather than the generated table.
The options are a record of twenty booleans named after the fields the name
match reads. Each function is deterministic by construction, and so is
`InstallInto`, because its result equals `Install`. The source image is a
`seq<Byte>` value, so the install cannot change the caller's image.

## Model

| member | source | states |
|---|---|---|
| `HexCodec.DigitValue` | crates/aoc-userpatch/src/patch.rs:55-60 | a character has a value exactly when it is 0-9, a-f or A-F; the value is below 16 and is the nibble whose upper-case digit is the character with a-f raised to A-F, so lower- and upper-case letters give the same value |
| `HexCodec.DecodePairs` | crates/aoc-userpatch/src/patch.rs:53-63 | decoding an even-length string succeeds exactly when every character is a hex digit; it then yields half as many bytes, byte k being 16 × digit(2k) + digit(2k+1); otherwise the error is a non-hex digit |
| `HexCodec.HexDecode` | crates/aoc-userpatch/src/patch.rs:47-64 | an odd length fails with `OddLength` whatever the characters; an even length succeeds exactly when all characters are hex digits, with `|s|/2` bytes, byte k = 16 × digit(s[2k]) + digit(s[2k+1]); no partial result on failure |
| `HexCodec.DecodeHex` | crates/aoc-userpatch/src/patch.rs:47-64 | the chunk-by-chunk loop that pushes one byte per pair returns exactly `HexDecode` of its input, including the failure cases |
| `HexCodec.DecodeEncode` | crates/aoc-userpatch/src/patch.rs:46-64 | decoding inverts upper-case hex encoding: every byte sequence survives the round trip |
| `HexCodec.DecodeExamples` | crates/aoc-userpatch/src/patch.rs:147-151 | "ABCDEF" decodes to [0xAB, 0xCD, 0xEF] and "123456" to [0x12, 0x34, 0x56] |
| `PatchApply.Overwrite` | crates/aoc-userpatch/src/patch.rs:66-70 | for an in-range offset, the result has the buffer's length, holds the patch at `offset..offset+|patch|`, and equals the buffer at every other index |
| `PatchApply.ApplyPatch` | crates/aoc-userpatch/src/patch.rs:67-70 | requires `offset + |patch| <= |buffer|`; afterwards the array's contents are `Overwrite` of its old contents |
| `PatchApply.LaterPatchWins` | crates/aoc-userpatch/src/patch.rs:153-172 | of two overlapping patches the second replaces rather than merges: its range holds its bytes, the rest of the first range the first patch, everything else the original |
| `PatchApply.ApplyPatchExample` | crates/aoc-userpatch/src/patch.rs:153-172 | on 256 zero bytes, eight 1s at 8 and then four 2s at 10 give exactly the 24-byte prefixes the unit test expects |
| `Features.Enable` | crates/aoc-userpatch/src/patch.rs:24-36 | toggling fails with `IllegalToggle(name)` exactly when the feature is not optional, whatever the value; on success `enabled` is the requested value and name, optional, affects_sync and patches are unchanged |
| `Features.ConfigureFeatures` | crates/aoc-userpatch/src/patch.rs:78-109 | resolution succeeds exactly when every catalog feature is optional, returning a list of the same length and order in which feature i is catalog feature i with `enabled` set to its requested state; otherwise it fails naming the first non-optional feature |
| `Features.Toggle` | crates/aoc-userpatch/src/patch.rs:83-104 | a name the match gives no switch (the `_` arm) is carried by no row of the switch table |
| `Features.RequestedState` | crates/aoc-userpatch/src/patch.rs:83-104 | the value handed to `enable` is the option value (negated for an inverted row) of any table row naming the feature, and the feature's current state when no row names it |
| `Features.ToggleFollowsTable` | crates/aoc-userpatch/src/patch.rs:83-105 | the name match gives, for every name, what the twenty-row switch table gives: the option's value for a direct row, its negation for an inverted row, and no switch for any other name |
| `Features.SwitchTableShape` | crates/aoc-userpatch/src/patch.rs:84-103 | the table has twenty rows, and a row is inverted exactly when its feature name starts with "Disable " |
| `Features.ConfiguredByTable` | crates/aoc-userpatch/src/patch.rs:78-109 | for an all-optional catalog, each resolved feature keeps its name, flags and injections; `enabled` is the table's value for its name, or its catalog state when no row names it |
| `Install.Padded` | crates/aoc-userpatch/src/patch.rs:115-116 | the padded buffer has exactly 3072 × 1024 bytes, starts with the source image and is zero after it |
| `Install.Reduce` | crates/aoc-userpatch/src/patch.rs:126-134 | the corrected address is at most the buffer length, congruent to the original modulo the length, unchanged exactly when the original is at most the length, and positive when a correction happened |
| `Install.ReduceAddress` | crates/aoc-userpatch/src/patch.rs:126-134 | the correction loop terminates on a non-empty buffer, returns `Reduce` of the address, and the address equals the result plus (number of corrections) × length |
| `Install.ReduceMultiple` | crates/aoc-userpatch/src/patch.rs:127-133 | a non-zero multiple of the length is corrected to the length itself, which the loop's `>` test keeps |
| `Install.InjectionAtEndOfImageFails` | crates/aoc-userpatch/src/patch.rs:124-135 | an injection whose address is a non-zero multiple of the buffer length and whose payload is non-empty fails the bounds check of `apply_patch` |
| `Install.SuccessMeansEveryInjectionFits` | crates/aoc-userpatch/src/patch.rs:124-135 | after a successful run of injections, every injection's payload decoded and its corrected range lies inside the image |
| `Install.SuccessMeansEveryFeatureFits` | crates/aoc-userpatch/src/patch.rs:118-137 | after a successful run of features, every injection of every enabled feature decoded and fit inside the image at its corrected address |
| `Install.InstallMeansEveryInjectionFits` | crates/aoc-userpatch/src/patch.rs:112-139 | in a successful install, every injection of every feature the options enable decoded and fit inside the 3072 × 1024 bytes at its corrected address: nothing is truncated |
| `Install.InjectStep` | crates/aoc-userpatch/src/patch.rs:124-135 | a successful injection preserves the buffer length |
| `Install.ApplyInjections` | crates/aoc-userpatch/src/patch.rs:124-136 | a feature's injections, applied in order, preserve the buffer length |
| `Install.ApplyFeatures` | crates/aoc-userpatch/src/patch.rs:118-137 | the features, applied in catalog order, preserve the buffer length |
| `Install.Install` | crates/aoc-userpatch/src/patch.rs:112-139 | a non-optional feature in the catalog aborts with `IllegalToggle` before anything else; otherwise a source image longer than 3072 × 1024 aborts with `Oversized`; a successful install is exactly 3072 × 1024 bytes |
| `Install.ApplyInjectionsInPlace` | crates/aoc-userpatch/src/patch.rs:124-136 | the in-place loop over one feature's injections leaves the array as `ApplyInjections` of its old contents, or reports the same error |
| `Install.InstallInto` | crates/aoc-userpatch/src/patch.rs:112-139 | the imperative install (copy, zero-fill, nested loops patching an array in place) returns exactly `Install` of its inputs |
| `Install.DisabledFeaturesAreSkipped` | crates/aoc-userpatch/src/patch.rs:118-121 | applying the resolved features gives the same result as applying only the enabled ones |
| `Install.NothingEnabledIsIdentity` | crates/aoc-userpatch/src/patch.rs:118-121 | when no feature is enabled the buffer comes through unchanged |
| `Install.InstallWithNothingEnabled` | crates/aoc-userpatch/src/patch.rs:112-139 | for an all-optional catalog and a source no longer than 3072 × 1024, if the options enable no feature the install is the source image followed by zeros up to 3072 × 1024 bytes |
| `Install.InjectionsKeepUnwrittenBytes` | crates/aoc-userpatch/src/patch.rs:124-136 | after a successful run of injections, a byte none of them writes (at its corrected address) keeps its value |
| `Install.FeaturesKeepUnwrittenBytes` | crates/aoc-userpatch/src/patch.rs:118-137 | after a successful run of features, a byte no injection of an enabled feature writes keeps its value |
| `Install.InstallKeepsUnwrittenBytes` | crates/aoc-userpatch/src/patch.rs:112-139 | in a successful install, a byte that no injection of a feature the options enable writes is the source byte, or zero past the source's end |
| `Install.ApplyInjectionsAppend` | crates/aoc-userpatch/src/patch.rs:124-136 | injections run in declaration order: appending one runs it on the result of the others, and an earlier abort ends the run |
| `Install.ApplyFeaturesAppend` | crates/aoc-userpatch/src/patch.rs:118-137 | features run in catalog order: the features after a prefix run on the image the prefix leaves, and an abort in the prefix ends the run |
| `Install.DisabledSuffixWritesNothing` | crates/aoc-userpatch/src/patch.rs:118-121 | disabled features after the last enabled one leave the result of the features before them unchanged |
| `Install.LastInjectionWins` | crates/aoc-userpatch/src/patch.rs:124-135 | after a successful run, the last injection's corrected range holds exactly its decoded payload, whatever earlier injections wrote there |
| `Install.LastFeatureWins` | crates/aoc-userpatch/src/patch.rs:118-137 | after a successful run of features, the last injection of the last enabled feature holds exactly its decoded payload in its corrected range, whatever earlier features wrote there |
| `Install.LastEnabledInjectionWins` | crates/aoc-userpatch/src/patch.rs:112-139 | in a successful install, the last injection of the last catalog feature the options enable holds exactly its decoded payload at its address corrected against 3072 × 1024 |

## Left out

- Aborts are modelled as `Failure` results. The original panics and ends the process, and the model does not capture that.
- `usize` overflow of `offset + patch.len()` is not modelled: addresses are below 2^32 and lengths are bounded, so all arithmetic is unbounded `nat`. The underflow of `3072 * 1024 - exe.len()` is modelled as the `Oversized` error (the debug-build panic). A release build would wrap and then fail to allocate; that is not modelled.
- Hex payloads are sequences of characters, not the UTF-8 bytes that the original chunks. Success and the decoded bytes are the same for every input. For a non-ASCII payload only the error kind can differ (`OddLength` instead of a non-hex digit, or the reverse).
- `Feature::enable` mutates a fresh clone inside `configure_features`. It is modelled as a function returning the updated value; no other reference to the clone exists.
- `Feature::enabled()` is read as the field, and `assert_optional` is part of `Enable`.
- The generated catalog (`FEATURES`) is an input parameter, and `get_available_features`, a plain accessor to it, is not part of this model.
- `InstallOptions`, its constructors (such as the bare configuration) and the rest of the crate root are not part of this model. Only the twenty fields the name match reads are kept.
- The `fmt::Debug` output and the warning printed for each address correction are not modelled. Only the number of corrections is kept, as a ghost result.
- The tests that read and write executables on disk or print the catalog are I/O and are not part of this model.
- `crates/dprun/src/lib.rs` (process spawning, the session host server and GUID formatting) is not part of this model.
