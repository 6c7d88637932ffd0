/**
 * `combine` of tools/combine_bootloader_with_app.py: one memory image is
 * written in a fixed order, the bootloader (unless it is left out), then the
 * metadata header, then the application; the format of each input file is
 * taken from the part of its name after the last dot.
 */
module Combine {
  import opened Wrappers
  import opened Bytes
  import Header
  import opened Image

  /**
   * `name.split('.')[-1]`: what follows the last dot of name, or the whole
   * name when it has no dot. It holds no dot and is no longer than name.
   */
  function Extension(name: string): (r: string)
    ensures '.' !in r
    ensures |r| <= |name|
    decreases |name|
  {
    if name == [] || name[|name| - 1] == '.' then []
    else
      var init, last := Extension(name[..|name| - 1]), name[|name| - 1];
      assert forall c :: c in init + [last] ==> c in init || c == last;
      init + [last]
  }

  /**
   * The extension is a dot-free tail of the name, and it is preceded by a dot
   * unless it is the whole name: the field after the last dot.
   */
  lemma {:induction false} ExtensionIsLastField(name: string)
    ensures '.' !in Extension(name)
    ensures |Extension(name)| <= |name|
    ensures Extension(name) == name[|name| - |Extension(name)|..]
    ensures |Extension(name)| < |name| ==> name[|name| - |Extension(name)| - 1] == '.'
    decreases |name|
  {
    if name != [] && name[|name| - 1] != '.' {
      var init, last := name[..|name| - 1], name[|name| - 1];
      ExtensionIsLastField(init);
      var r0 := Extension(init);
      var r := Extension(name);
      assert r == r0 + [last];
      assert '.' !in r by {
        assert forall c :: c in r ==> c in r0 || c == last;
      }
      var k := |init| - |r0|;
      assert name[k..] == name[k..|name| - 1] + [last];
      assert name[k..|name| - 1] == init[k..];
      if |r| < |name| {
        assert name[|name| - |r| - 1] == init[|init| - |r0| - 1];
      }
    }
  }

  /** How `combine` treats an input file, by its extension. */
  datatype Format = Bin | Hex | Unknown

  /**
   * name is ext itself, or ends with a dot followed by ext: what
   * `name.split('.')[-1] == ext` tests for an ext without a dot.
   */
  predicate HasExtension(name: string, ext: string)
  {
    name == ext || (|name| > |ext| && name[|name| - |ext| - 1..] == "." + ext)
  }

  /**
   * The extension compared with `"bin"` and `"hex"`: a path is `Bin` exactly
   * when it is "bin" or ends with ".bin", and likewise for `Hex`.
   */
  function FormatOf(path: string): (r: Format)
    ensures r == Bin <==> HasExtension(path, "bin")
    ensures r == Hex <==> HasExtension(path, "hex")
  {
    ExtensionIs(path, "bin");
    ExtensionIs(path, "hex");
    var e := Extension(path);
    if e == "bin" then Bin else if e == "hex" then Hex else Unknown
  }

  /** For an ext without a dot, the extension of name is ext exactly when name has extension ext. */
  lemma ExtensionIs(name: string, ext: string)
    requires '.' !in ext
    ensures Extension(name) == ext <==> HasExtension(name, ext)
  {
    ExtensionIsLastField(name);
    var e := Extension(name);
    if e == ext && |e| < |name| {
      var k := |name| - |ext|;
      assert name[k - 1..] == [name[k - 1]] + name[k..];
    }
    if name == ext {
      ExtensionIsLastField(ext);
    } else if HasExtension(name, ext) {
      var stem := name[..|name| - |ext| - 1];
      assert name == stem + "." + ext;
      ExtensionAfterLastDot(stem, ext);
    }
  }

  /** The extension of a name whose last dot is followed by ext is ext. */
  lemma {:induction false} ExtensionAfterLastDot(stem: string, ext: string)
    requires '.' !in ext
    ensures Extension(stem + "." + ext) == ext
    decreases |ext|
  {
    var name := stem + "." + ext;
    if ext == [] {
      assert name[|name| - 1] == '.';
    } else {
      var init := ext[..|ext| - 1];
      assert name[..|name| - 1] == stem + "." + init;
      assert '.' !in init by {
        assert forall c :: c in init ==> c in ext;
      }
      ExtensionAfterLastDot(stem, init);
      assert ext == init + [ext[|ext| - 1]];
    }
  }

  /**
   * An input file as its collaborators see it: its path; its bytes, as
   * `open(...).read()` and `loadbin` read them; and what the Intel HEX
   * codec makes of it, the address-tagged bytes `fromfile` stores and the
   * flat string `tobinstr()` returns.
   */
  datatype InputFile = InputFile(
    path: string,
    raw: seq<byte>,
    hexCells: map<nat, byte>,
    hexFlat: seq<byte>)

  /** Why `combine` stops without producing an image. */
  datatype Failure =
    | BootloaderFormat              // the bootloader is neither .bin nor .hex: `exit(-1)`
    | AppBlobUnbound                // the application is neither .bin nor .hex: `app_blob` is never bound
    | HeaderPack(error: Header.PackError)  // `create_header` raised `struct.error`

  /** The image handed to `tofile`, or the failure and the image as it stood when it happened. */
  datatype Outcome =
    | Combined(image: map<nat, byte>)
    | Aborted(reason: Failure, partial: map<nat, byte>)

  /**
   * The image after the bootloader step: an error exactly when the step is on
   * and the bootloader is neither `.bin` nor `.hex`; otherwise nothing, the
   * bootloader's bytes from bootloaderAddr on, or its decoded cells.
   */
  function WithBootloader(bootloader: InputFile, bootloaderAddr: nat, noBootloader: bool)
    : (r: Result<map<nat, byte>, Failure>)
    ensures r.Err? <==> !noBootloader && FormatOf(bootloader.path) == Unknown
    ensures r.Err? ==> r.error == BootloaderFormat
    ensures r.Ok? ==> forall k :: k in r.value <==>
      !noBootloader && (if FormatOf(bootloader.path) == Bin then InSpan(k, bootloaderAddr, |bootloader.raw|)
                        else k in bootloader.hexCells)
  {
    if noBootloader then Ok(map[])
    else if FormatOf(bootloader.path) == Hex then Ok(map[] + bootloader.hexCells)
    else if FormatOf(bootloader.path) == Bin then Ok(Overlay(map[], bootloaderAddr, bootloader.raw))
    else Err(BootloaderFormat)
  }

  /**
   * `app_blob`: the application as the header describes it. It is bound
   * exactly when the application is `.bin` or `.hex`.
   */
  function AppBlob(app: InputFile): (r: Option<seq<byte>>)
    ensures r.None? <==> FormatOf(app.path) == Unknown
  {
    if FormatOf(app.path) == Bin then Some(app.raw)
    else if FormatOf(app.path) == Hex then Some(app.hexFlat)
    else None
  }

  /** Every address addr + i holds data[i]. */
  predicate BytesHeld(image: map<nat, byte>, addr: nat, data: seq<byte>)
  {
    forall i :: 0 <= i < |data| ==> addr + i in image && image[addr + i] == data[i]
  }

  /** Every address of cells holds the byte cells gives it. */
  predicate CellsHeld(image: map<nat, byte>, cells: map<nat, byte>)
  {
    forall k :: k in cells ==> k in image && image[k] == cells[k]
  }

  /**
   * The image after the application step, given the image before it: the
   * application's bytes wherever it writes, the old bytes everywhere else.
   */
  function WithApplication(m: map<nat, byte>, app: InputFile, appAddr: nat): (r: map<nat, byte>)
    ensures forall k :: k in r <==> k in m || AppWrites(app, appAddr, k)
    ensures FormatOf(app.path) == Bin ==> BytesHeld(r, appAddr, app.raw)
    ensures FormatOf(app.path) != Bin ==> CellsHeld(r, app.hexCells)
    ensures forall k :: k in m && !AppWrites(app, appAddr, k) ==> r[k] == m[k]
  {
    if FormatOf(app.path) == Bin then Overlay(m, appAddr, app.raw) else m + app.hexCells
  }

  /**
   * What `combine` produces, step by step. Each stop has its own cause, the
   * checks are made in the source's order, and a stop leaves no header or
   * application byte in the image.
   */
  function CombineSpec(sha256: seq<byte> -> Header.Digest, bootloader: InputFile, app: InputFile,
                       appAddr: nat, hdrAddr: nat, bootloaderAddr: nat, version: int, noBootloader: bool)
    : (r: Outcome)
    ensures r.Aborted? && r.reason == BootloaderFormat
      <==> !noBootloader && FormatOf(bootloader.path) == Unknown
    ensures r.Aborted? && r.reason == AppBlobUnbound
      <==> (noBootloader || FormatOf(bootloader.path) != Unknown) && FormatOf(app.path) == Unknown
    ensures r.Aborted? && r.reason.HeaderPack?
      <==> (noBootloader || FormatOf(bootloader.path) != Unknown) && FormatOf(app.path) != Unknown
           && !(Header.Fits(version, 8)
                && Header.Fits(|if FormatOf(app.path) == Bin then app.raw else app.hexFlat|, 8))
    ensures r.Aborted? ==>
      r.partial == if r.reason == BootloaderFormat then map[]
                   else WithBootloader(bootloader, bootloaderAddr, noBootloader).value
  {
    match WithBootloader(bootloader, bootloaderAddr, noBootloader)
    case Err(e) => Aborted(e, map[])
    case Ok(m) =>
      match AppBlob(app)
      case None => Aborted(AppBlobUnbound, m)
      case Some(blob) =>
        match Header.CreateHeader(sha256, blob, version)
        case Err(e) => Aborted(HeaderPack(e), m)
        case Ok(header) => Combined(WithApplication(Overlay(m, hdrAddr, header), app, appAddr))
  }

  /** The application step writes address k. */
  predicate AppWrites(app: InputFile, appAddr: nat, k: nat)
  {
    if FormatOf(app.path) == Bin then InSpan(k, appAddr, |app.raw|) else k in app.hexCells
  }

  /** The image holds the bootloader's, the header's and the application's addresses and no others. */
  lemma LayersDomain(boot: map<nat, byte>, hdrAddr: nat, header: seq<byte>, app: InputFile, appAddr: nat)
    ensures var image := WithApplication(Overlay(boot, hdrAddr, header), app, appAddr);
      forall k :: k in image <==> k in boot || InSpan(k, hdrAddr, |header|) || AppWrites(app, appAddr, k)
  {
  }

  /** Where the application does not write, the header's byte is left. */
  lemma HeaderLayerAt(boot: map<nat, byte>, hdrAddr: nat, header: seq<byte>, app: InputFile, appAddr: nat, j: nat)
    requires j < |header| && !AppWrites(app, appAddr, hdrAddr + j)
    ensures hdrAddr + j in WithApplication(Overlay(boot, hdrAddr, header), app, appAddr)
    ensures WithApplication(Overlay(boot, hdrAddr, header), app, appAddr)[hdrAddr + j] == header[j]
  {
    var k := hdrAddr + j;
    var withHeader := Overlay(boot, hdrAddr, header);
    assert k in withHeader && withHeader[k] == header[j];
  }

  /** Every address hdrAddr + j the application step does not write holds header[j]. */
  predicate HeaderHeld(image: map<nat, byte>, hdrAddr: nat, header: seq<byte>, app: InputFile, appAddr: nat)
  {
    forall j :: 0 <= j < |header| && !AppWrites(app, appAddr, hdrAddr + j) ==>
      hdrAddr + j in image && image[hdrAddr + j] == header[j]
  }

  /** Every header byte survives at each address the application step does not write. */
  lemma HeaderLayer(boot: map<nat, byte>, hdrAddr: nat, header: seq<byte>, app: InputFile, appAddr: nat)
    ensures HeaderHeld(WithApplication(Overlay(boot, hdrAddr, header), app, appAddr), hdrAddr, header, app, appAddr)
  {
    var image := WithApplication(Overlay(boot, hdrAddr, header), app, appAddr);
    forall j | 0 <= j < |header| && !AppWrites(app, appAddr, hdrAddr + j)
      ensures hdrAddr + j in image && image[hdrAddr + j] == header[j]
    {
      HeaderLayerAt(boot, hdrAddr, header, app, appAddr, j);
    }
  }

  /** Where neither the header nor the application writes, the bootloader's byte is left. */
  lemma BootLayerAt(boot: map<nat, byte>, hdrAddr: nat, header: seq<byte>, app: InputFile, appAddr: nat, k: nat)
    requires k in boot && !InSpan(k, hdrAddr, |header|) && !AppWrites(app, appAddr, k)
    ensures k in WithApplication(Overlay(boot, hdrAddr, header), app, appAddr)
    ensures WithApplication(Overlay(boot, hdrAddr, header), app, appAddr)[k] == boot[k]
  {
    var withHeader := Overlay(boot, hdrAddr, header);
    assert k in withHeader && withHeader[k] == boot[k];
  }

  /**
   * The inputs for which `combine` gets to `tofile`: the bootloader step is
   * off or the bootloader is `.bin` or `.hex`, the application is `.bin` or
   * `.hex`, and the version and the application's length fit their 64-bit
   * header fields.
   */
  predicate Completes(bootloader: InputFile, app: InputFile, version: int, noBootloader: bool)
  {
    && (noBootloader || FormatOf(bootloader.path) != Unknown)
    && FormatOf(app.path) != Unknown
    && Header.Fits(version, 8)
    && Header.Fits(|if FormatOf(app.path) == Bin then app.raw else app.hexFlat|, 8)
  }

  /** For inputs that complete, every step of `combine` succeeds. */
  lemma CompletedSteps(sha256: seq<byte> -> Header.Digest, bootloader: InputFile, app: InputFile,
                       bootloaderAddr: nat, version: int, noBootloader: bool)
    requires Completes(bootloader, app, version, noBootloader)
    ensures WithBootloader(bootloader, bootloaderAddr, noBootloader).Ok?
    ensures AppBlob(app).Some?
    ensures Header.CreateHeader(sha256, AppBlob(app).value, version).Ok?
  {
    var blob := AppBlob(app);
    assert blob.value == if FormatOf(app.path) == Bin then app.raw else app.hexFlat;
  }

  /** The pieces a combined image is made of. */
  lemma CombinedParts(sha256: seq<byte> -> Header.Digest, bootloader: InputFile, app: InputFile,
                      appAddr: nat, hdrAddr: nat, bootloaderAddr: nat, version: int, noBootloader: bool)
    requires Completes(bootloader, app, version, noBootloader)
    ensures CombineSpec(sha256, bootloader, app, appAddr, hdrAddr, bootloaderAddr, version, noBootloader).Combined?
    ensures WithBootloader(bootloader, bootloaderAddr, noBootloader).Ok?
    ensures AppBlob(app).Some?
    ensures Header.CreateHeader(sha256, AppBlob(app).value, version).Ok?
    ensures CombineSpec(sha256, bootloader, app, appAddr, hdrAddr, bootloaderAddr, version, noBootloader).image
      == WithApplication(Overlay(WithBootloader(bootloader, bootloaderAddr, noBootloader).value, hdrAddr,
                                 Header.CreateHeader(sha256, AppBlob(app).value, version).value), app, appAddr)
  {
    CompletedSteps(sha256, bootloader, app, bootloaderAddr, version, noBootloader);
    var boot := WithBootloader(bootloader, bootloaderAddr, noBootloader);
    var header := Header.CreateHeader(sha256, AppBlob(app).value, version);
    assert CombineSpec(sha256, bootloader, app, appAddr, hdrAddr, bootloaderAddr, version, noBootloader)
      == Combined(WithApplication(Overlay(boot.value, hdrAddr, header.value), app, appAddr));
  }

  /**
   * With the bootloader step on and a bootloader whose extension is neither
   * `bin` nor `hex`, `combine` stops before the header or the application is
   * written: the image is still empty.
   */
  lemma BadBootloaderFormatWritesNothing(sha256: seq<byte> -> Header.Digest, bootloader: InputFile, app: InputFile,
                                         appAddr: nat, hdrAddr: nat, bootloaderAddr: nat, version: int)
    requires FormatOf(bootloader.path) == Unknown
    ensures CombineSpec(sha256, bootloader, app, appAddr, hdrAddr, bootloaderAddr, version, false)
      == Aborted(BootloaderFormat, map[])
  {
  }

  /**
   * `combine` produces an image exactly when the bootloader step is off or the
   * bootloader is `.bin` or `.hex`, the application is `.bin` or `.hex`, and
   * the version and the application's length fit their 64-bit header fields.
   */
  lemma CombineSucceedsExactly(sha256: seq<byte> -> Header.Digest, bootloader: InputFile, app: InputFile,
                               appAddr: nat, hdrAddr: nat, bootloaderAddr: nat, version: int, noBootloader: bool)
    ensures CombineSpec(sha256, bootloader, app, appAddr, hdrAddr, bootloaderAddr, version, noBootloader).Combined?
      <==> Completes(bootloader, app, version, noBootloader)
  {
    var boot := WithBootloader(bootloader, bootloaderAddr, noBootloader);
    assert boot.Ok? <==> noBootloader || FormatOf(bootloader.path) != Unknown;
    var blob := AppBlob(app);
    assert blob.Some? <==> FormatOf(app.path) != Unknown;
    if boot.Ok? && blob.Some? {
      assert blob.value == if FormatOf(app.path) == Bin then app.raw else app.hexFlat;
      assert Header.CreateHeader(sha256, blob.value, version).Ok?
        <==> Header.Fits(version, 8) && Header.Fits(|blob.value|, 8);
    }
  }

  /** With a `.bin` application, every application address holds the application's byte. */
  lemma CombinedHoldsBinApplication(sha256: seq<byte> -> Header.Digest, bootloader: InputFile, app: InputFile,
                                    appAddr: nat, hdrAddr: nat, bootloaderAddr: nat, version: int, noBootloader: bool)
    requires Completes(bootloader, app, version, noBootloader)
    requires FormatOf(app.path) == Bin
    ensures CombineSpec(sha256, bootloader, app, appAddr, hdrAddr, bootloaderAddr, version, noBootloader).Combined?
    ensures BytesHeld(CombineSpec(sha256, bootloader, app, appAddr, hdrAddr, bootloaderAddr, version, noBootloader).image,
                      appAddr, app.raw)
  {
    CombinedParts(sha256, bootloader, app, appAddr, hdrAddr, bootloaderAddr, version, noBootloader);
  }

  /** With a `.hex` application, every address its records give holds the decoded byte. */
  lemma CombinedHoldsHexApplication(sha256: seq<byte> -> Header.Digest, bootloader: InputFile, app: InputFile,
                                    appAddr: nat, hdrAddr: nat, bootloaderAddr: nat, version: int, noBootloader: bool)
    requires Completes(bootloader, app, version, noBootloader)
    requires FormatOf(app.path) == Hex
    ensures CombineSpec(sha256, bootloader, app, appAddr, hdrAddr, bootloaderAddr, version, noBootloader).Combined?
    ensures CellsHeld(CombineSpec(sha256, bootloader, app, appAddr, hdrAddr, bootloaderAddr, version, noBootloader).image,
                      app.hexCells)
  {
    CombinedParts(sha256, bootloader, app, appAddr, hdrAddr, bootloaderAddr, version, noBootloader);
  }

  /**
   * Every header address the application step does not write holds the
   * header's byte.
   */
  lemma CombinedHoldsHeader(sha256: seq<byte> -> Header.Digest, bootloader: InputFile, app: InputFile,
                            appAddr: nat, hdrAddr: nat, bootloaderAddr: nat, version: int, noBootloader: bool)
    requires Completes(bootloader, app, version, noBootloader)
    ensures CombineSpec(sha256, bootloader, app, appAddr, hdrAddr, bootloaderAddr, version, noBootloader).Combined?
    ensures AppBlob(app).Some? && Header.CreateHeader(sha256, AppBlob(app).value, version).Ok?
    ensures HeaderHeld(CombineSpec(sha256, bootloader, app, appAddr, hdrAddr, bootloaderAddr, version, noBootloader).image,
                       hdrAddr, Header.CreateHeader(sha256, AppBlob(app).value, version).value, app, appAddr)
  {
    CombinedParts(sha256, bootloader, app, appAddr, hdrAddr, bootloaderAddr, version, noBootloader);
    var boot := WithBootloader(bootloader, bootloaderAddr, noBootloader).value;
    var header := Header.CreateHeader(sha256, AppBlob(app).value, version).value;
    var image := CombineSpec(sha256, bootloader, app, appAddr, hdrAddr, bootloaderAddr, version, noBootloader).image;
    assert image == WithApplication(Overlay(boot, hdrAddr, header), app, appAddr);
    HeaderLayer(boot, hdrAddr, header, app, appAddr);
  }

  /**
   * The image holds exactly the bootloader's, the header's and the
   * application's addresses, and a bootloader byte survives exactly at the
   * addresses neither the header nor the application wrote.
   */
  lemma CombinedHoldsBootloaderElsewhere(sha256: seq<byte> -> Header.Digest, bootloader: InputFile, app: InputFile,
                                         appAddr: nat, hdrAddr: nat, bootloaderAddr: nat, version: int, noBootloader: bool)
    requires Completes(bootloader, app, version, noBootloader)
    ensures CombineSpec(sha256, bootloader, app, appAddr, hdrAddr, bootloaderAddr, version, noBootloader).Combined?
    ensures WithBootloader(bootloader, bootloaderAddr, noBootloader).Ok?
    ensures var image := CombineSpec(sha256, bootloader, app, appAddr, hdrAddr, bootloaderAddr, version, noBootloader).image;
      var boot := WithBootloader(bootloader, bootloaderAddr, noBootloader).value;
      && (forall k :: k in image <==> k in boot || InSpan(k, hdrAddr, Header.HeaderSize) || AppWrites(app, appAddr, k))
      && forall k :: k in boot && !InSpan(k, hdrAddr, Header.HeaderSize) && !AppWrites(app, appAddr, k) ==>
           image[k] == boot[k]
  {
    CombinedParts(sha256, bootloader, app, appAddr, hdrAddr, bootloaderAddr, version, noBootloader);
    var boot := WithBootloader(bootloader, bootloaderAddr, noBootloader).value;
    var header := Header.CreateHeader(sha256, AppBlob(app).value, version).value;
    LayersDomain(boot, hdrAddr, header, app, appAddr);
    forall k | k in boot && !InSpan(k, hdrAddr, Header.HeaderSize) && !AppWrites(app, appAddr, k)
      ensures WithApplication(Overlay(boot, hdrAddr, header), app, appAddr)[k] == boot[k]
    {
      BootLayerAt(boot, hdrAddr, header, app, appAddr, k);
    }
  }

  /** The bootloader step writes the bootloader's bytes, or nothing when it is off. */
  lemma BootloaderStep(bootloader: InputFile, bootloaderAddr: nat, noBootloader: bool)
    requires WithBootloader(bootloader, bootloaderAddr, noBootloader).Ok?
    ensures var boot := WithBootloader(bootloader, bootloaderAddr, noBootloader).value;
      && (noBootloader ==> boot == map[])
      && (!noBootloader && FormatOf(bootloader.path) == Bin ==> boot == Placed(bootloaderAddr, bootloader.raw))
      && (!noBootloader && FormatOf(bootloader.path) == Hex ==> boot == bootloader.hexCells)
  {
    if !noBootloader && FormatOf(bootloader.path) == Bin {
      OverlayIsUnion(map[], bootloaderAddr, bootloader.raw);
      assert map[] + Placed(bootloaderAddr, bootloader.raw) == Placed(bootloaderAddr, bootloader.raw);
    }
    if !noBootloader && FormatOf(bootloader.path) == Hex {
      assert map[] + bootloader.hexCells == bootloader.hexCells;
    }
  }

  /** With `no_bootloader` set, the image holds the header and the application and nothing else. */
  lemma NoBootloaderWritesNoBootloaderByte(sha256: seq<byte> -> Header.Digest, bootloader: InputFile, app: InputFile,
                                           appAddr: nat, hdrAddr: nat, bootloaderAddr: nat, version: int)
    requires Completes(bootloader, app, version, true)
    ensures CombineSpec(sha256, bootloader, app, appAddr, hdrAddr, bootloaderAddr, version, true).Combined?
    ensures var image := CombineSpec(sha256, bootloader, app, appAddr, hdrAddr, bootloaderAddr, version, true).image;
      forall k :: k in image <==> InSpan(k, hdrAddr, Header.HeaderSize) || AppWrites(app, appAddr, k)
  {
    CombinedHoldsBootloaderElsewhere(sha256, bootloader, app, appAddr, hdrAddr, bootloaderAddr, version, true);
  }

  /**
   * `combine(bootloader_fn, app_fn, app_addr, hdr_addr, bootloader_addr,
   * output_fn, version, no_bootloader)` up to the final `tofile`: builds the
   * image and reports the failure, if any, that stopped it.
   */
  method Combine(sha256: seq<byte> -> Header.Digest, bootloader: InputFile, app: InputFile,
                 appAddr: nat, hdrAddr: nat, bootloaderAddr: nat, version: int, noBootloader: bool)
    returns (ih: MemoryImage, failure: Option<Failure>)
    ensures fresh(ih)
    ensures CombineSpec(sha256, bootloader, app, appAddr, hdrAddr, bootloaderAddr, version, noBootloader)
      == if failure.None? then Combined(ih.cells) else Aborted(failure.value, ih.cells)
  {
    ih := new MemoryImage();
    var bootloaderFormat := FormatOf(bootloader.path);
    if !noBootloader {
      if bootloaderFormat == Hex {
        ih.MergeHex(bootloader.hexCells);
      } else if bootloaderFormat == Bin {
        ih.Puts(bootloaderAddr, bootloader.raw);
      } else {
        return ih, Some(BootloaderFormat);
      }
    }
    assert WithBootloader(bootloader, bootloaderAddr, noBootloader) == Ok(ih.cells);
    var appFormat := FormatOf(app.path);
    var appBlob: seq<byte>;
    if appFormat == Bin {
      appBlob := app.raw;
    } else if appFormat == Hex {
      appBlob := app.hexFlat;
    } else {
      return ih, Some(AppBlobUnbound);
    }
    assert AppBlob(app) == Some(appBlob);
    var header := Header.CreateHeader(sha256, appBlob, version);
    if header.Err? {
      return ih, Some(HeaderPack(header.error));
    }
    ghost var afterBootloader := ih.cells;
    ih.Puts(hdrAddr, header.value);
    if appFormat == Bin {
      ih.Puts(appAddr, app.raw);
    } else {
      ih.MergeHex(app.hexCells);
    }
    assert ih.cells == WithApplication(Overlay(afterBootloader, hdrAddr, header.value), app, appAddr);
    failure := None;
  }
}
