# combine_bootloader_with_app, modelled in Dafny

`tools/combine_bootloader_with_app.py` does two jobs. It builds a firmware
image from three parts, written into one sparse memory image in a fixed
order:

1. the bootloader, unless `--no-bootloader` is given;
2. a 112-byte firmware metadata header;
3. the application.

The header (`create_header`) is a big-endian record of layout
`">2I2Q64s16s2I"`. Its fields are:

- the magic `0x5A51B3D4`;
- header version 2;
- the firmware version;
- the application's length;
- the application's SHA-256 digest, in a 64-byte field;
- a 16-byte campaign field;
- a signature size of 0;
- a CRC-32 of the 108 bytes before it.

The project has these modules:

- `Bytes` (`bytes.dfy`): bytes, the big-endian integer fields and the NUL-padded string fields of Python's `struct`.
- `Crc32` (`crc32.dfy`): zlib's CRC-32, defined bit by bit.
- `Header` (`header.dfy`): `struct.pack` for this layout; `create_header`; a reader of the same layout that checks magic, version and the CRC as line 119 computes it. The reader stands for no code in the source. The C comment at lines 63-64 describes a CRC over the whole header with the CRC field zeroed, and the reader does not check that one.
- `Image` (`image.dfy`): the IntelHex object as a class over `map<nat, bv8>`; `puts`/`loadbin` as a loop writing one byte at a time.
- `Combine` (`combine.dfy`): choosing a file's format by the part of its name after the last dot; `combine` as a method over the image, proved against a step-by-step specification function `CombineSpec`.
- `Wrappers` (`wrappers.dfy`): `Option` and `Result`.

Errors the source can raise are modelled as values, not as preconditions:

- `struct.error` for a version or length that does not fit 64 bits becomes `Err(ArgumentOutOfRange)`.
- `exit(-1)` for a bootloader that is neither `.bin` nor `.hex` becomes `Aborted(BootloaderFormat, ...)`.
- The unbound `app_blob` for an application that is neither `.bin` nor `.hex` becomes `Aborted(AppBlobUnbound, ...)`. Each `Aborted` also carries the image as it stood.

Where the code and the comments around it disagree, the model follows the code:

- The C struct comment (lines 63-65) says the CRC covers the whole header with the CRC field zeroed. Line 119 computes it over the first 108 bytes only (`FirmwareHeader[:-4]`).
- The header is 112 bytes, as the format string at line 80 packs it.

## Model

| member | source | states |
|---|---|---|
| Bytes.EncodeBE | tools/combine_bootloader_with_app.py:80 | the `I` and `Q` fields: the n-byte big-endian encoding of any v below 256^n is n bytes that decode back to v |
| Bytes.EncodeDecode | tools/combine_bootloader_with_app.py:80 | encoding a decoded n-byte string at width n gives the string back |
| Bytes.EncodeInjective | tools/combine_bootloader_with_app.py:80 | two values that fit the width have equal encodings only if they are equal |
| Bytes.PadField | tools/combine_bootloader_with_app.py:80 | an `s` field of width n: n bytes; byte i is the string's byte i while the string lasts, NUL after it |
| Bytes.Low32 | tools/combine_bootloader_with_app.py:119 | `& 0xffffffff` yields a value below 2^32 and leaves a value already below 2^32 unchanged |
| Crc32.UpdateByte | tools/combine_bootloader_with_app.py:119 | feeding one byte into the CRC register loses nothing: running the register back eight steps and removing the byte gives the old state |
| Crc32.Update | tools/combine_bootloader_with_app.py:119 | feeding a byte string into the CRC register loses nothing: taking the bytes back out, last first, gives the old state |
| Crc32.UnshiftNShiftN | tools/combine_bootloader_with_app.py:119 | k steps of the CRC shift register run backwards undo k steps run forwards |
| Crc32.Checksum | tools/combine_bootloader_with_app.py:119 | `zlib.crc32` is a value below 2^32 |
| Crc32.CheckValue | tools/combine_bootloader_with_app.py:119 | the CRC of "123456789" is 0xCBF43926, the CRC-32/ISO-HDLC check value |
| Crc32.UpdateAppend | tools/combine_bootloader_with_app.py:119 | running the CRC register over a + b is running it over a, then b |
| Crc32.UpdateInjective | tools/combine_bootloader_with_app.py:119 | the register state before a byte string is determined by the state after it |
| Crc32.DetectsSingleByteError | tools/combine_bootloader_with_app.py:119 | changing any one byte of a string changes its CRC-32 |
| Header.Pack | tools/combine_bootloader_with_app.py:122-130 | `struct.pack(">2I2Q64s16s2I", ...)`: a successful pack is 112 bytes long |
| Header.PackLayout | tools/combine_bootloader_with_app.py:122-130 | the eight arguments land at offsets 0, 4, 8, 16, 24, 88, 104 and 108, each as its big-endian encoding or padded string |
| Header.PackDecodes | tools/combine_bootloader_with_app.py:122-130 | decoding each integer field of a packed record gives its argument back; the string fields are the padded arguments |
| Header.PackCrcField | tools/combine_bootloader_with_app.py:107-130 | repacking with another CRC succeeds; it changes only the last four bytes, which are the new CRC's encoding |
| Header.Provisional | tools/combine_bootloader_with_app.py:107-116 | the first pack, with CRC 0, succeeds exactly when the version and the application's length fit 64 bits; it is 112 bytes ending in four zero bytes |
| Header.CreateHeader | tools/combine_bootloader_with_app.py:89-132 | `create_header` succeeds exactly when the version and the application length are both in [0, 2^64); its header is 112 bytes |
| Header.CreateFromProvisional | tools/combine_bootloader_with_app.py:107-130 | the provisional header and the final one agree on bytes 0..107; the provisional one has zeros in 108..111, the final one the CRC |
| Header.HeaderConstantFields | tools/combine_bootloader_with_app.py:122-124 | bytes 0..3 are 5A 51 B3 D4 and bytes 4..7 are 00 00 00 02 for every input |
| Header.MagicBytes | tools/combine_bootloader_with_app.py:78 | the magic encodes as 5A 51 B3 D4 |
| Header.VersionBytes | tools/combine_bootloader_with_app.py:79 | header version 2 encodes as 00 00 00 02 |
| Header.HeaderVersionAndSize | tools/combine_bootloader_with_app.py:125-126 | bytes 8..15 encode the firmware version and bytes 16..23 the application's length; decoding them gives both back |
| Header.HeaderHashAndZeros | tools/combine_bootloader_with_app.py:127-129 | bytes 24..55 are the SHA-256 digest of the application and bytes 56..107 are all zero |
| Header.PaddedFields | tools/combine_bootloader_with_app.py:97 | the hash field is the digest then 32 NULs; the campaign `b'\00'` pads to 16 NULs |
| Header.HeaderSelfChecksum | tools/combine_bootloader_with_app.py:119-130 | the last four bytes are the big-endian CRC-32 of the first 108; recomputing it over `header[:108]` reproduces the stored field |
| Header.ParseCreated | tools/combine_bootloader_with_app.py:89-132 | reading back a created header accepts it. The fields are the version, the length, the zero-padded digest, a zero campaign and signature size 0 |
| Header.ParsedIsSealed | tools/combine_bootloader_with_app.py:119 | every header the reader accepts carries the CRC of its first 108 bytes |
| Header.SealedDifferInMoreThanOne | tools/combine_bootloader_with_app.py:119 | two headers that each carry their own CRC never differ in exactly one byte |
| Header.SealedRejectsChange | tools/combine_bootloader_with_app.py:119 | changing any one byte of a header that carries its own CRC makes the reader reject it |
| Header.CorruptionRejected | tools/combine_bootloader_with_app.py:107-130 | every created header with any one byte changed is rejected |
| Image.Overlay | tools/combine_bootloader_with_app.py:163 | after writing data at addr, address addr + i holds data[i]; every other address keeps its byte; no other address appears |
| Image.OverlayIsUnion | tools/combine_bootloader_with_app.py:163 | writing data over an image is the union of the image with the data's own address map, the data winning |
| Image.OverlaySnoc | tools/combine_bootloader_with_app.py:163 | writing data and then one more byte is writing data with that byte appended |
| Image.DisjointOverlaysCommute | tools/combine_bootloader_with_app.py:141-171 | writes to disjoint address ranges give the same image in either order |
| Image.MemoryImage.constructor | tools/combine_bootloader_with_app.py:136 | `IntelHex()` starts empty |
| Image.MemoryImage.Puts | tools/combine_bootloader_with_app.py:163 | `puts` (and `loadbin` once the file is read) stores the bytes one by one; the new image is the old image overlaid with the bytes |
| Image.MemoryImage.MergeHex | tools/combine_bootloader_with_app.py:171 | `fromfile(..., 'hex')` once the file is decoded: the new image is the old one with the decoded cells on top |
| Combine.Extension | tools/combine_bootloader_with_app.py:138 | `split('.')[-1]` holds no dot and is no longer than the name |
| Combine.FormatOf | tools/combine_bootloader_with_app.py:143-149 | a file is `.bin` exactly when its name is "bin" or ends with ".bin", `.hex` likewise; any other name is neither (also lines 154-158) |
| Combine.ExtensionIs | tools/combine_bootloader_with_app.py:138 | for a dot-free ext, `name.split('.')[-1] == ext` holds exactly when the name is ext or ends with "." + ext |
| Combine.ExtensionIsLastField | tools/combine_bootloader_with_app.py:138 | `split('.')[-1]` is a dot-free tail of the name; it is preceded by a dot unless it is the whole name |
| Combine.ExtensionAfterLastDot | tools/combine_bootloader_with_app.py:154 | the extension of stem + "." + ext is ext whenever ext has no dot |
| Combine.WithBootloader | tools/combine_bootloader_with_app.py:141-151 | the bootloader step fails, with `BootloaderFormat`, exactly when it is on and the file is neither `.bin` nor `.hex`; otherwise the image holds exactly the file's span from `bootloader_addr` (`.bin`), its decoded cells (`.hex`), or nothing (step off) |
| Combine.AppBlob | tools/combine_bootloader_with_app.py:154-160 | `app_blob` is bound exactly when the application is `.bin` or `.hex` |
| Combine.WithApplication | tools/combine_bootloader_with_app.py:166-171 | after the application step the image holds the old addresses and the application's and no others; each `app_addr + i` holds `app_blob[i]` (`.bin`) or each decoded cell its byte (`.hex`); every other address keeps its byte |
| Combine.CombineSpec | tools/combine_bootloader_with_app.py:135-171 | `combine` stops with `BootloaderFormat`, `AppBlobUnbound` or a `struct.error` exactly under the conditions the source checks in that order; a stop keeps the image as it stood (empty after the bootloader check) |
| Combine.BootloaderStep | tools/combine_bootloader_with_app.py:141-151 | the bootloader step writes nothing when skipped; with `.bin`, the file's bytes from `bootloader_addr`; with `.hex`, the decoded cells |
| Combine.BadBootloaderFormatWritesNothing | tools/combine_bootloader_with_app.py:149-151 | a bootloader that is neither `.bin` nor `.hex` stops `combine` with the image still empty, before the header or the application |
| Combine.CombineSucceedsExactly | tools/combine_bootloader_with_app.py:135-171 | `combine` produces an image exactly when the inputs complete (`Completes`): the bootloader step is off or its file is `.bin`/`.hex`; the application is `.bin`/`.hex`; the version and the application blob's length fit 64 bits |
| Combine.CombinedHoldsBinApplication | tools/combine_bootloader_with_app.py:166-168 | for inputs that complete (`Completes`) and a `.bin` application, `combine` produces an image in which every address `app_addr + i` holds `app_blob[i]` |
| Combine.CombinedHoldsHexApplication | tools/combine_bootloader_with_app.py:169-171 | for inputs that complete and a `.hex` application, `combine` produces an image in which every address the application's records give holds the decoded byte |
| Combine.CombinedHoldsHeader | tools/combine_bootloader_with_app.py:161-163 | for inputs that complete, `combine` produces an image in which every address `hdr_addr + j` the application does not write holds `header[j]` |
| Combine.CombinedHoldsBootloaderElsewhere | tools/combine_bootloader_with_app.py:141-171 | for inputs that complete, the image holds exactly the addresses of bootloader, header span and application; a bootloader byte survives exactly where neither header nor application wrote |
| Combine.NoBootloaderWritesNoBootloaderByte | tools/combine_bootloader_with_app.py:141-171 | with `no_bootloader` and inputs that complete, the image holds the header span and the application's addresses and nothing else |
| Combine.Combine | tools/combine_bootloader_with_app.py:135-171 | the method performs the steps on a fresh image; its image and its failure (if any) are exactly those of `CombineSpec` |

## Left out

- File I/O is not modelled: `open(...).read()`, the file reading inside `loadbin`, `IntelHex(app_fn)`/`fromfile` and the final `tofile` (line 174) with its output format.
  - Each input file is an `InputFile` value carrying its path, its raw bytes, the cells its Intel HEX records decode to, and the flat string `tobinstr()` returns.
  - The model does not relate the flat string to the cells: the IntelHex gap-fill policy is not visible.
- SHA-256 (`hashlib.sha256`, line 91) is a function parameter returning 32 bytes; its internals are not modelled.
- The `print` calls (lines 102-104, 142-170) are diagnostics and are left out.
- The `__main__` command-line block (lines 177-321) is left out: argument parsing, bootloader discovery with `glob`, `mbed_app.json` reading, `addr_arg`'s `eval`, the `bin_map` board table and the `time.time()` default version.
- The Python 2 `b()` helper (lines 82-87) only affects printing and is left out.
- Addresses are `nat`, so negative addresses are not modelled; IntelHex's handling of negative addresses is not visible.
- `exit(-1)` ends the process. Here it is the `Aborted(BootloaderFormat, ...)` outcome, and the image built so far (empty) is returned rather than discarded.
- The unbound-`app_blob` `NameError` is likewise the `Aborted(AppBlobUnbound, ...)` outcome.
- Image.MemoryImage.MergeHex: assumes decoded hex records replace bytes already in the image. The IntelHex library (not part of this model) may instead raise `AddressOverlapError` when a record lands on an address that already holds data.
