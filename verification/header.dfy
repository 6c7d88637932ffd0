/**
 * The firmware metadata header of tools/combine_bootloader_with_app.py:
 * the record layout `">2I2Q64s16s2I"` (big-endian; two 32-bit unsigned,
 * two 64-bit unsigned, a 64-byte and a 16-byte string field, two 32-bit
 * unsigned), the encoder `create_header`, and a reader of the same layout
 * that checks the CRC as line 119 computes it. The reader stands for no code
 * in tools/combine_bootloader_with_app.py.
 */
module Header {
  import opened Wrappers
  import opened Bytes
  import Crc32

  const Magic: nat := 0x5A51_B3D4
  const HeaderVersion: nat := 2
  /** The hash field is sized for a SHA-512 digest ... */
  const HashFieldSize: nat := 64
  /** ... while the digest written into it is a SHA-256 digest. */
  const DigestSize: nat := 32
  const CampaignSize: nat := 16
  /** 4 + 4 + 8 + 8 + 64 + 16 + 4 + 4 bytes. */
  const HeaderSize: nat := 112
  /** Offset of the CRC field, the last four bytes. */
  const CrcOffset: nat := 108

  /** A SHA-256 digest. The hash function itself is a parameter of this model. */
  type Digest = s: seq<byte> | |s| == 32 witness Zeros(32)

  /** `struct.error`: an integer argument does not fit its field. */
  datatype PackError = ArgumentOutOfRange

  /** v fits an unsigned field of n bytes. */
  predicate Fits(v: int, n: nat)
  {
    0 <= v < Pow256(n)
  }

  /** `struct.pack(">2I2Q64s16s2I", ...)`. */
  function Pack(magic: int, headerVersion: int, firmwareVersion: int, firmwareSize: int,
                hash: seq<byte>, campaign: seq<byte>, signatureSize: int, crc: int)
    : (r: Result<seq<byte>, PackError>)
    ensures r.Ok? ==> |r.value| == HeaderSize
  {
    if Fits(magic, 4) && Fits(headerVersion, 4) && Fits(firmwareVersion, 8) && Fits(firmwareSize, 8)
       && Fits(signatureSize, 4) && Fits(crc, 4)
    then
      Ok(EncodeBE(magic, 4) + EncodeBE(headerVersion, 4)
         + EncodeBE(firmwareVersion, 8) + EncodeBE(firmwareSize, 8)
         + PadField(hash, HashFieldSize) + PadField(campaign, CampaignSize)
         + EncodeBE(signatureSize, 4) + EncodeBE(crc, 4))
    else
      Err(ArgumentOutOfRange)
  }

  /** Where each argument of Pack lands in the packed record. */
  lemma PackLayout(magic: int, headerVersion: int, firmwareVersion: int, firmwareSize: int,
                   hash: seq<byte>, campaign: seq<byte>, signatureSize: int, crc: int)
    requires Pack(magic, headerVersion, firmwareVersion, firmwareSize, hash, campaign, signatureSize, crc).Ok?
    ensures var r := Pack(magic, headerVersion, firmwareVersion, firmwareSize, hash, campaign, signatureSize, crc).value;
      && r[0..4] == EncodeBE(magic, 4)
      && r[4..8] == EncodeBE(headerVersion, 4)
      && r[8..16] == EncodeBE(firmwareVersion, 8)
      && r[16..24] == EncodeBE(firmwareSize, 8)
      && r[24..88] == PadField(hash, HashFieldSize)
      && r[88..104] == PadField(campaign, CampaignSize)
      && r[104..108] == EncodeBE(signatureSize, 4)
      && r[108..112] == EncodeBE(crc, 4)
  {
    PackIntegerFields(magic, headerVersion, firmwareVersion, firmwareSize, hash, campaign, signatureSize, crc);
    PackTrailingFields(magic, headerVersion, firmwareVersion, firmwareSize, hash, campaign, signatureSize, crc);
  }

  lemma PackIntegerFields(magic: int, headerVersion: int, firmwareVersion: int, firmwareSize: int,
                   hash: seq<byte>, campaign: seq<byte>, signatureSize: int, crc: int)
    requires Pack(magic, headerVersion, firmwareVersion, firmwareSize, hash, campaign, signatureSize, crc).Ok?
    ensures var r := Pack(magic, headerVersion, firmwareVersion, firmwareSize, hash, campaign, signatureSize, crc).value;
      && r[0..4] == EncodeBE(magic, 4)
      && r[4..8] == EncodeBE(headerVersion, 4)
      && r[8..16] == EncodeBE(firmwareVersion, 8)
      && r[16..24] == EncodeBE(firmwareSize, 8)
  {
    var a := EncodeBE(magic, 4);
    var b := EncodeBE(headerVersion, 4);
    var c := EncodeBE(firmwareVersion, 8);
    var d := EncodeBE(firmwareSize, 8);
    var e := PadField(hash, HashFieldSize);
    var f := PadField(campaign, CampaignSize);
    var g := EncodeBE(signatureSize, 4);
    var h := EncodeBE(crc, 4);
    var r := a + b + c + d + e + f + g + h;
    assert r[0..4] == a;
    assert r[4..8] == b;
    assert r[8..16] == c;
    assert r[16..24] == d;
  }

  lemma PackTrailingFields(magic: int, headerVersion: int, firmwareVersion: int, firmwareSize: int,
                   hash: seq<byte>, campaign: seq<byte>, signatureSize: int, crc: int)
    requires Pack(magic, headerVersion, firmwareVersion, firmwareSize, hash, campaign, signatureSize, crc).Ok?
    ensures var r := Pack(magic, headerVersion, firmwareVersion, firmwareSize, hash, campaign, signatureSize, crc).value;
      && r[24..88] == PadField(hash, HashFieldSize)
      && r[88..104] == PadField(campaign, CampaignSize)
      && r[104..108] == EncodeBE(signatureSize, 4)
      && r[108..112] == EncodeBE(crc, 4)
  {
    var a := EncodeBE(magic, 4);
    var b := EncodeBE(headerVersion, 4);
    var c := EncodeBE(firmwareVersion, 8);
    var d := EncodeBE(firmwareSize, 8);
    var e := PadField(hash, HashFieldSize);
    var f := PadField(campaign, CampaignSize);
    var g := EncodeBE(signatureSize, 4);
    var h := EncodeBE(crc, 4);
    var r := a + b + c + d + e + f + g + h;
    assert r[24..88] == e;
    assert r[88..104] == f;
    assert r[104..108] == g;
    assert r[108..112] == h;
  }

  /**
   * The header as first packed, with the CRC field set to 0: it packs exactly
   * when the version and the application's length fit their 64-bit fields,
   * and then it is 112 bytes whose last four are zero.
   */
  function Provisional(sha256: seq<byte> -> Digest, app: seq<byte>, firmwareVersion: int)
    : (r: Result<seq<byte>, PackError>)
    ensures r.Ok? <==> Fits(firmwareVersion, 8) && Fits(|app|, 8)
    ensures r.Ok? ==> |r.value| == HeaderSize && r.value[CrcOffset..] == [0, 0, 0, 0]
  {
    var r := Pack(Magic, HeaderVersion, firmwareVersion, |app|, sha256(app), [0], 0, 0);
    if r.Err? then r
    else
      PackTrailingFields(Magic, HeaderVersion, firmwareVersion, |app|, sha256(app), [0], 0, 0);
      ZeroBytes();
      r
  }

  /**
   * `create_header(app_blob, firmwareVersion)`: pack the header with a zero
   * CRC, take the CRC-32 of all but its last four bytes (masked to 32 bits),
   * and pack it again with that CRC. `struct.pack` raises when the version or
   * the length does not fit its 64-bit field; so does this function.
   */
  function CreateHeader(sha256: seq<byte> -> Digest, app: seq<byte>, firmwareVersion: int)
    : (r: Result<seq<byte>, PackError>)
    ensures r.Ok? <==> Fits(firmwareVersion, 8) && Fits(|app|, 8)
    ensures r.Ok? ==> |r.value| == HeaderSize
  {
    var draft := Provisional(sha256, app, firmwareVersion);
    if draft.Err? then draft
    else
      var crc := Low32(Crc32.Checksum(draft.value[..|draft.value| - 4]));
      Pack(Magic, HeaderVersion, firmwareVersion, |app|, sha256(app), [0], 0, crc)
  }

  /** The fields the reader below gives back. */
  datatype Metadata = Metadata(
    firmwareVersion: nat,
    firmwareSize: nat,
    hash: seq<byte>,
    campaign: seq<byte>,
    signatureSize: nat)

  /**
   * Reads a header of the same layout: None unless it is 112 bytes long, its
   * magic and header version are the expected ones and its CRC field holds the
   * CRC-32 of the bytes before it, as line 119 computes it. This reader stands
   * for no code in the script. The C comment at lines 63-64 describes a CRC over
   * the whole header with the CRC field zeroed; this reader does not check that.
   */
  function ParseHeader(h: seq<byte>): Option<Metadata>
  {
    if |h| == HeaderSize && DecodeBE(h[0..4]) == Magic && DecodeBE(h[4..8]) == HeaderVersion
       && DecodeBE(h[CrcOffset..]) == Crc32.Checksum(h[..CrcOffset])
    then
      Some(Metadata(DecodeBE(h[8..16]), DecodeBE(h[16..24]), h[24..88], h[88..104], DecodeBE(h[104..108])))
    else
      None
  }

  /** The CRC argument of Pack reaches only the last four bytes. */
  lemma PackCrcField(magic: int, headerVersion: int, firmwareVersion: int, firmwareSize: int,
                     hash: seq<byte>, campaign: seq<byte>, signatureSize: int, crc: int, crc': int)
    requires Pack(magic, headerVersion, firmwareVersion, firmwareSize, hash, campaign, signatureSize, crc).Ok?
    requires Fits(crc', 4)
    ensures var r := Pack(magic, headerVersion, firmwareVersion, firmwareSize, hash, campaign, signatureSize, crc);
      var r' := Pack(magic, headerVersion, firmwareVersion, firmwareSize, hash, campaign, signatureSize, crc');
      && r'.Ok?
      && r.value[..CrcOffset] == r'.value[..CrcOffset]
      && r.value[CrcOffset..] == EncodeBE(crc, 4)
      && r'.value[CrcOffset..] == EncodeBE(crc', 4)
  {
    var body := EncodeBE(magic, 4) + EncodeBE(headerVersion, 4)
         + EncodeBE(firmwareVersion, 8) + EncodeBE(firmwareSize, 8)
         + PadField(hash, HashFieldSize) + PadField(campaign, CampaignSize)
         + EncodeBE(signatureSize, 4);
    var r := Pack(magic, headerVersion, firmwareVersion, firmwareSize, hash, campaign, signatureSize, crc).value;
    var r' := Pack(magic, headerVersion, firmwareVersion, firmwareSize, hash, campaign, signatureSize, crc').value;
    assert r == body + EncodeBE(crc, 4);
    assert r' == body + EncodeBE(crc', 4);
  }

  /**
   * The final header is the provisional one with the CRC of the provisional
   * one's first 108 bytes in place of its zero CRC field.
   */
  lemma CreateFromProvisional(sha256: seq<byte> -> Digest, app: seq<byte>, firmwareVersion: int)
    requires CreateHeader(sha256, app, firmwareVersion).Ok?
    ensures Provisional(sha256, app, firmwareVersion).Ok?
    ensures var draft := Provisional(sha256, app, firmwareVersion).value;
      var h := CreateHeader(sha256, app, firmwareVersion).value;
      && draft[..CrcOffset] == h[..CrcOffset]
      && draft[CrcOffset..] == [0, 0, 0, 0]
      && h[CrcOffset..] == EncodeBE(Crc32.Checksum(draft[..CrcOffset]), 4)
  {
    CreateIsRepack(sha256, app, firmwareVersion);
    var draft := Provisional(sha256, app, firmwareVersion).value;
    var crc := Crc32.Checksum(draft[..CrcOffset]);
    PackCrcField(Magic, HeaderVersion, firmwareVersion, |app|, sha256(app), [0], 0, 0, crc);
    ZeroBytes();
  }

  /** The final header is Pack applied once more, with the CRC of the provisional header's first 108 bytes. */
  lemma CreateIsRepack(sha256: seq<byte> -> Digest, app: seq<byte>, firmwareVersion: int)
    requires CreateHeader(sha256, app, firmwareVersion).Ok?
    ensures Provisional(sha256, app, firmwareVersion).Ok?
    ensures CreateHeader(sha256, app, firmwareVersion)
      == Pack(Magic, HeaderVersion, firmwareVersion, |app|, sha256(app), [0], 0,
              Crc32.Checksum(Provisional(sha256, app, firmwareVersion).value[..CrcOffset]))
  {
    var draft := Provisional(sha256, app, firmwareVersion);
    assert draft.Ok? && |draft.value| == HeaderSize;
  }

  /** Bytes 0..7 are the same for every header: the magic, then header version 2. */
  lemma HeaderConstantFields(sha256: seq<byte> -> Digest, app: seq<byte>, firmwareVersion: int)
    requires CreateHeader(sha256, app, firmwareVersion).Ok?
    ensures var h := CreateHeader(sha256, app, firmwareVersion).value;
      h[0..4] == [0x5A, 0x51, 0xB3, 0xD4] && h[4..8] == [0x00, 0x00, 0x00, 0x02]
  {
    var crc := Crc32.Checksum(Provisional(sha256, app, firmwareVersion).value[..CrcOffset]);
    PackLayout(Magic, HeaderVersion, firmwareVersion, |app|, sha256(app), [0], 0, crc);
    MagicBytes();
    VersionBytes();
  }

  lemma MagicBytes()
    ensures EncodeBE(Magic, 4) == [0x5A, 0x51, 0xB3, 0xD4]
  {
    var s: seq<byte> := [0x5A, 0x51, 0xB3, 0xD4];
    assert DecodeBE(s[..1]) == 0x5A;
    assert s[..2][..1] == s[..1];
    assert DecodeBE(s[..2]) == 0x5A51;
    assert s[..3][..2] == s[..2];
    assert DecodeBE(s[..3]) == 0x5A51B3;
    assert s[..3] == s[..|s| - 1];
    assert DecodeBE(s) == Magic;
    EncodeDecode(s);
  }

  lemma VersionBytes()
    ensures EncodeBE(HeaderVersion, 4) == [0x00, 0x00, 0x00, 0x02]
  {
    ZeroBytes();
    ByteOfValue(0x02);
    assert EncodeBE(0, 3) == [0, 0, 0];
  }

  lemma ZeroBytes()
    ensures EncodeBE(0, 4) == [0, 0, 0, 0]
  {
    assert EncodeBE(0, 1) == [0];
    assert EncodeBE(0, 2) == [0, 0];
    assert EncodeBE(0, 3) == [0, 0, 0];
  }

  /**
   * Bytes 8..15 are the big-endian firmware version and bytes 16..23 the
   * big-endian length of the application; decoding them gives both back.
   */
  lemma HeaderVersionAndSize(sha256: seq<byte> -> Digest, app: seq<byte>, firmwareVersion: int)
    requires CreateHeader(sha256, app, firmwareVersion).Ok?
    ensures var h := CreateHeader(sha256, app, firmwareVersion).value;
      && h[8..16] == EncodeBE(firmwareVersion, 8) && DecodeBE(h[8..16]) == firmwareVersion
      && h[16..24] == EncodeBE(|app|, 8) && DecodeBE(h[16..24]) == |app|
  {
    var crc := Crc32.Checksum(Provisional(sha256, app, firmwareVersion).value[..CrcOffset]);
    PackLayout(Magic, HeaderVersion, firmwareVersion, |app|, sha256(app), [0], 0, crc);
  }

  /**
   * Bytes 24..55 are the SHA-256 digest of the application and bytes 56..107
   * are zero: the NUL padding of the 64-byte hash field, the 16-byte campaign
   * field packed from a single NUL, and a signature size of 0.
   */
  lemma HeaderHashAndZeros(sha256: seq<byte> -> Digest, app: seq<byte>, firmwareVersion: int)
    requires CreateHeader(sha256, app, firmwareVersion).Ok?
    ensures var h := CreateHeader(sha256, app, firmwareVersion).value;
      && h[24..56] == sha256(app)
      && forall k :: 56 <= k < CrcOffset ==> h[k] == 0
  {
    var h := CreateHeader(sha256, app, firmwareVersion).value;
    CreateIsRepack(sha256, app, firmwareVersion);
    var crc := Crc32.Checksum(Provisional(sha256, app, firmwareVersion).value[..CrcOffset]);
    PackLayout(Magic, HeaderVersion, firmwareVersion, |app|, sha256(app), [0], 0, crc);
    ZeroBytes();
    PaddedFields(sha256(app));
    ZeroTail(h, sha256(app));
  }

  /** A record whose hash, campaign and signature-size fields are as create_header packs them. */
  lemma ZeroTail(h: seq<byte>, d: Digest)
    requires |h| == HeaderSize
    requires h[24..88] == d + Zeros(DigestSize) && h[88..104] == Zeros(CampaignSize) && h[104..108] == [0, 0, 0, 0]
    ensures h[24..56] == d
    ensures forall k :: 56 <= k < CrcOffset ==> h[k] == 0
  {
    var hashField, campaignField, signatureField := h[24..88], h[88..104], h[104..108];
    forall k | 24 <= k < 56
      ensures h[k] == d[k - 24]
    {
      assert h[k] == hashField[k - 24];
    }
    forall k | 56 <= k < CrcOffset
      ensures h[k] == 0
    {
      if k < 88 {
        assert h[k] == hashField[k - 24];
      } else if k < 104 {
        assert h[k] == campaignField[k - 88];
      } else {
        assert h[k] == signatureField[k - 104];
      }
    }
  }

  /**
   * The CRC field holds the CRC-32 of the 108 bytes before it, so recomputing
   * the CRC over `header[:108]` reproduces the stored field.
   */
  lemma HeaderSelfChecksum(sha256: seq<byte> -> Digest, app: seq<byte>, firmwareVersion: int)
    requires CreateHeader(sha256, app, firmwareVersion).Ok?
    ensures var h := CreateHeader(sha256, app, firmwareVersion).value;
      && h[CrcOffset..] == EncodeBE(Crc32.Checksum(h[..CrcOffset]), 4)
      && DecodeBE(h[CrcOffset..]) == Crc32.Checksum(h[..CrcOffset])
  {
    var h := CreateHeader(sha256, app, firmwareVersion).value;
    CreateFromProvisional(sha256, app, firmwareVersion);
  }

  /** Decoding the integer fields of a packed record gives the arguments back. */
  lemma PackDecodes(magic: int, headerVersion: int, firmwareVersion: int, firmwareSize: int,
                    hash: seq<byte>, campaign: seq<byte>, signatureSize: int, crc: int)
    requires Pack(magic, headerVersion, firmwareVersion, firmwareSize, hash, campaign, signatureSize, crc).Ok?
    ensures var r := Pack(magic, headerVersion, firmwareVersion, firmwareSize, hash, campaign, signatureSize, crc).value;
      && DecodeBE(r[0..4]) == magic
      && DecodeBE(r[4..8]) == headerVersion
      && DecodeBE(r[8..16]) == firmwareVersion
      && DecodeBE(r[16..24]) == firmwareSize
      && r[24..88] == PadField(hash, HashFieldSize)
      && r[88..104] == PadField(campaign, CampaignSize)
      && DecodeBE(r[104..108]) == signatureSize
  {
    PackLayout(magic, headerVersion, firmwareVersion, firmwareSize, hash, campaign, signatureSize, crc);
  }

  /** Reading back a created header gives the fields it was created from. */
  lemma ParseCreated(sha256: seq<byte> -> Digest, app: seq<byte>, firmwareVersion: int)
    requires CreateHeader(sha256, app, firmwareVersion).Ok?
    ensures ParseHeader(CreateHeader(sha256, app, firmwareVersion).value)
      == Some(Metadata(firmwareVersion, |app|, sha256(app) + Zeros(DigestSize), Zeros(CampaignSize), 0))
  {
    var h := CreateHeader(sha256, app, firmwareVersion).value;
    CreateIsRepack(sha256, app, firmwareVersion);
    var crc := Crc32.Checksum(Provisional(sha256, app, firmwareVersion).value[..CrcOffset]);
    PackDecodes(Magic, HeaderVersion, firmwareVersion, |app|, sha256(app), [0], 0, crc);
    HeaderSelfChecksum(sha256, app, firmwareVersion);
    PaddedFields(sha256(app));
  }

  /** The hash field is the digest followed by 32 NUL bytes; the campaign field is 16 NUL bytes. */
  lemma PaddedFields(d: Digest)
    ensures PadField(d, HashFieldSize) == d + Zeros(DigestSize)
    ensures PadField([0], CampaignSize) == Zeros(CampaignSize)
  {
    assert PadField([0], CampaignSize) == [0] + Zeros(CampaignSize - 1);
  }

  /**
   * A header is sealed when it has the header's length and its CRC field holds
   * the CRC-32 of the bytes before it.
   */
  predicate Sealed(h: seq<byte>)
  {
    |h| == HeaderSize && h[CrcOffset..] == EncodeBE(Crc32.Checksum(h[..CrcOffset]), 4)
  }

  /** Every header the reader accepts is sealed. */
  lemma ParsedIsSealed(h: seq<byte>)
    requires ParseHeader(h).Some?
    ensures Sealed(h)
  {
    EncodeDecode(h[CrcOffset..]);
  }

  /** Two sealed headers never differ in exactly one byte. */
  lemma SealedDifferInMoreThanOne(h: seq<byte>, i: nat, y: byte)
    requires Sealed(h) && i < HeaderSize && h[i] != y
    ensures !Sealed(h[i := y])
  {
    var h' := h[i := y];
    if Sealed(h') {
      if i < CrcOffset {
        assert h'[CrcOffset..] == h[CrcOffset..];
        assert h'[..CrcOffset] == h[..CrcOffset][i := y];
        Crc32.DetectsSingleByteError(h[..CrcOffset], i, y);
      }
    }
  }

  /**
   * A sealed header with any one byte changed is rejected: a change in the
   * first 108 bytes changes their CRC-32, a change in the last four changes
   * the stored CRC.
   */
  lemma SealedRejectsChange(h: seq<byte>, i: nat, y: byte)
    requires Sealed(h) && i < HeaderSize && h[i] != y
    ensures ParseHeader(h[i := y]) == None
  {
    SealedDifferInMoreThanOne(h, i, y);
    if ParseHeader(h[i := y]).Some? {
      ParsedIsSealed(h[i := y]);
    }
  }

  /** A created header is sealed, so any one changed byte makes it rejected. */
  lemma CorruptionRejected(sha256: seq<byte> -> Digest, app: seq<byte>, firmwareVersion: int, i: nat, y: byte)
    requires CreateHeader(sha256, app, firmwareVersion).Ok?
    requires i < HeaderSize && CreateHeader(sha256, app, firmwareVersion).value[i] != y
    ensures ParseHeader(CreateHeader(sha256, app, firmwareVersion).value[i := y]) == None
  {
    HeaderSelfChecksum(sha256, app, firmwareVersion);
    SealedRejectsChange(CreateHeader(sha256, app, firmwareVersion).value, i, y);
  }
}
