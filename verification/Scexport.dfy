/** The `.scexport` container: a versioned binary frame around an encrypted JSON payload. */
module Scexport {
  import opened Common
  import Utf8

  const MAGIC: seq<byte> := [0x53, 0x43, 0x45, 0x58]
  const SALT_LEN := 16
  const NONCE_LEN := 12
  const TAG_LEN := 16
  const KEY_LEN := 32
  const PBKDF2_ITERATIONS := 600_000
  const LEGACY_HKDF_INFO := "StackConnect.Export.v1"
  const APP_SALT: seq<byte> := [
    0x4A, 0xC7, 0x1E, 0x93, 0xD2, 0x58, 0xBF, 0x06, 0x7D, 0xA4, 0x3B, 0xE1, 0x90, 0xF5, 0x2C, 0x68,
    0x15, 0x87, 0xDA, 0x4F, 0xC3, 0x72, 0xAE, 0x09, 0x5B, 0xE6, 0x31, 0x8C, 0xF0, 0x64, 0xA9, 0x2D
  ]

  datatype CryptoError =
    | InvalidFormat(what: string)
    | UnsupportedVersion(version: byte)
    | DecryptAuthFailure
    | InvalidJson(what: string)
    | MissingField(field: string)

  datatype ScexportPayload = ScexportPayload(
    id: Option<string>,
    name: string,
    providerType: string,
    createdAt: Option<string>,
    role: Option<string>,
    expirationDate: Option<string>,
    rules: Option<map<string, seq<string>>>,
    appsBundles: Option<seq<string>>,
    credentials: map<string, string>)

  /** The library functions the container is built from. */
  datatype Primitives = Primitives(
    sha256: seq<byte> -> seq<byte>,
    hkdf: (seq<byte>, seq<byte>, seq<byte>, nat) -> seq<byte>,
    pbkdf2: (seq<byte>, seq<byte>, nat, nat) -> seq<byte>,
    seal: (seq<byte>, seq<byte>, seq<byte>) -> Option<seq<byte>>,
    open: (seq<byte>, seq<byte>, seq<byte>) -> Option<seq<byte>>,
    toJson: ScexportPayload -> Result<string, string>,
    fromJson: string -> Result<ScexportPayload, string>)

  /** What the container relies on: opening inverts sealing under the same key and nonce, a sealed
      message carries a 16-byte tag, and reading JSON inverts writing it. */
  ghost predicate Lawful(p: Primitives) {
    (forall k, n, m :: p.seal(k, n, m).Some? ==>
       |p.seal(k, n, m).value| == |m| + TAG_LEN && p.open(k, n, p.seal(k, n, m).value) == Some(m)) &&
    (forall payload :: p.toJson(payload).Ok? ==> p.fromJson(p.toJson(payload).value) == Ok(payload))
  }

  // ---------------------------------------------------------------------------
  // Frames
  // ---------------------------------------------------------------------------

  datatype Frame =
    | V1(salt: seq<byte>, nonce: seq<byte>, body: seq<byte>)
    | V2(salt: seq<byte>, nonce: seq<byte>, body: seq<byte>)
    | V3(iterations: nat, salt: seq<byte>, nonce: seq<byte>, body: seq<byte>)

  predicate ValidFrame(f: Frame) {
    |f.salt| == SALT_LEN && |f.nonce| == NONCE_LEN && |f.body| >= TAG_LEN &&
    (f.V3? ==> f.iterations < 0x1_0000_0000)
  }

  function ToBigEndian(n: nat): (b: seq<byte>)
    requires n < 0x1_0000_0000
    ensures |b| == 4
  {
    [n / 0x100_0000, n / 0x1_0000 % 0x100, n / 0x100 % 0x100, n % 0x100]
  }

  function FromBigEndian(b: seq<byte>): (n: nat)
    requires |b| == 4
    ensures n < 0x1_0000_0000
  {
    b[0] as int * 0x100_0000 + b[1] as int * 0x1_0000 + b[2] as int * 0x100 + b[3]
  }

  lemma BigEndianRoundTrip(n: nat)
    requires n < 0x1_0000_0000
    ensures FromBigEndian(ToBigEndian(n)) == n
  {
    var high, mid := n / 0x1_0000, n / 0x100;
    assert mid == high * 0x100 + mid % 0x100;
    assert high == n / 0x100_0000 * 0x100 + high % 0x100;
  }

  lemma BigEndianInverse(b: seq<byte>)
    requires |b| == 4
    ensures ToBigEndian(FromBigEndian(b)) == b
  {
    var n := FromBigEndian(b);
    assert n / 0x100 == b[0] as int * 0x1_0000 + b[1] as int * 0x100 + b[2] && n % 0x100 == b[3];
    assert n / 0x1_0000 == b[0] as int * 0x100 + b[1] && n / 0x100 % 0x100 == b[2];
    assert n / 0x100_0000 == b[0] && n / 0x1_0000 % 0x100 == b[1];
  }

  function Version(f: Frame): byte {
    match f
    case V1(_, _, _) => 1
    case V2(_, _, _) => 2
    case V3(_, _, _, _) => 3
  }

  /** The bytes of a frame, field after field. */
  function Print(f: Frame): seq<byte>
    requires f.V3? ==> f.iterations < 0x1_0000_0000
  {
    MAGIC + [Version(f)] + (if f.V3? then ToBigEndian(f.iterations) else []) + f.salt + f.nonce + f.body
  }

  const TOO_SHORT := InvalidFormat("buffer shorter than header")
  const NO_MAGIC := InvalidFormat("missing SCEX magic")
  const NO_ITERATIONS := InvalidFormat("truncated v3 iterations field")
  const TRUNCATED := InvalidFormat("truncated salt/nonce/ciphertext")

  function SaltOffset(version: byte): nat {
    if version == 3 then 9 else 5
  }

  function ParseFrame(b: seq<byte>): Result<Frame, CryptoError> {
    if |b| < 5 then Err(TOO_SHORT)
    else if b[..4] != MAGIC then Err(NO_MAGIC)
    else
      var version, at := b[4], SaltOffset(b[4]);
      if |b| < at then Err(NO_ITERATIONS)
      else if |b| < at + 44 then Err(TRUNCATED)
      else
        var salt, nonce, body := b[at..at + 16], b[at + 16..at + 28], b[at + 28..];
        match version
        case 1 => Ok(V1(salt, nonce, body))
        case 2 => Ok(V2(salt, nonce, body))
        case 3 => Ok(V3(FromBigEndian(b[5..9]), salt, nonce, body))
        case _ => Err(UnsupportedVersion(version))
  }

  /** Where the fields of a printed frame stand. */
  lemma Layout(head: seq<byte>, salt: seq<byte>, nonce: seq<byte>, body: seq<byte>)
    requires |salt| == SALT_LEN && |nonce| == NONCE_LEN
    ensures var b, at := head + salt + nonce + body, |head|;
            |b| == at + 28 + |body| && b[..at] == head &&
            b[at..at + 16] == salt && b[at + 16..at + 28] == nonce && b[at + 28..] == body
  {}

  lemma HeadFields(f: Frame, head: seq<byte>)
    requires f.V3? ==> f.iterations < 0x1_0000_0000
    requires head == MAGIC + [Version(f)] + (if f.V3? then ToBigEndian(f.iterations) else [])
    ensures |head| == SaltOffset(Version(f)) && head[..4] == MAGIC && head[4] == Version(f)
    ensures f.V3? ==> head[5..9] == ToBigEndian(f.iterations)
  {
    hide ToBigEndian;
  }

  /** A frame's bytes parse to that frame. */
  lemma ParsePrinted(f: Frame)
    requires ValidFrame(f)
    ensures ParseFrame(Print(f)) == Ok(f)
  {
    var b := Print(f);
    var head := MAGIC + [Version(f)] + (if f.V3? then ToBigEndian(f.iterations) else []);
    HeadFields(f, head);
    Layout(head, f.salt, f.nonce, f.body);
    if f.V3? {
      BigEndianRoundTrip(f.iterations);
    }
    hide ToBigEndian, FromBigEndian, Print;
    assert b[..4] == head[..4] && b[4] == head[4];
    assert f.V3? ==> b[5..9] == head[5..9];
  }

  /** Accepted bytes are the bytes of the frame read from them. */
  lemma PrintParsed(b: seq<byte>)
    requires ParseFrame(b).Ok?
    ensures ValidFrame(ParseFrame(b).value) && Print(ParseFrame(b).value) == b
  {
    var f := ParseFrame(b).value;
    var at := SaltOffset(b[4]);
    assert b == b[..4] + [b[4]] + b[5..at] + b[at..at + 16] + b[at + 16..at + 28] + b[at + 28..];
    if f.V3? {
      BigEndianInverse(b[5..9]);
    } else {
      assert b[5..at] == [];
    }
  }

  /** The parser accepts exactly the printed valid frames, and tells which one. */
  lemma ParseIffPrinted(b: seq<byte>, f: Frame)
    ensures ParseFrame(b) == Ok(f) <==> ValidFrame(f) && b == Print(f)
  {
    if ParseFrame(b) == Ok(f) {
      PrintParsed(b);
    }
    if ValidFrame(f) && b == Print(f) {
      ParsePrinted(f);
    }
  }

  predicate HasMagic(b: seq<byte>) {
    |b| >= 5 && b[..4] == MAGIC
  }

  /** Corollary: what is not a printed frame is refused for one reason, told by length, magic and
      version; an unknown version is named only from 49 bytes on. */
  lemma OutcomeClasses(b: seq<byte>)
    ensures ParseFrame(b) == Err(TOO_SHORT) <==> |b| < 5
    ensures ParseFrame(b) == Err(NO_MAGIC) <==> |b| >= 5 && !HasMagic(b)
    ensures ParseFrame(b) == Err(NO_ITERATIONS) <==> HasMagic(b) && b[4] == 3 && |b| < 9
    ensures ParseFrame(b) == Err(TRUNCATED) <==>
            HasMagic(b) && (if b[4] == 3 then 9 <= |b| < 53 else |b| < 49)
    ensures forall v :: ParseFrame(b) == Err(UnsupportedVersion(v)) <==>
            HasMagic(b) && v == b[4] && v !in {1, 2, 3} && |b| >= 49
    ensures ParseFrame(b).Ok? <==>
            HasMagic(b) && b[4] in {1, 2, 3} && |b| >= (if b[4] == 3 then 53 else 49)
  {}

  /** The promised unsupported-version error does not come for a short file: version 9 with fewer
      than 44 bytes behind it is called truncated. */
  lemma ShortUnknownVersion(rest: seq<byte>)
    requires |rest| < 44
    ensures ParseFrame(MAGIC + [9] + rest) == Err(TRUNCATED)
  {
    var b := MAGIC + [9] + rest;
    assert b[..4] == MAGIC && b[4] == 9;
  }

  /** Where each field of a frame stands in its bytes: magic, version, the iteration count most
      significant byte first, salt, nonce, sealed payload. */
  lemma FrameLayout(f: Frame)
    requires ValidFrame(f)
    ensures var b, at := Print(f), if f.V3? then 9 else 5;
            |b| == at + 28 + |f.body| && b[0] == 'S' as int && b[1] == 'C' as int && b[2] == 'E' as int &&
            b[3] == 'X' as int && b[4] == (if f.V1? then 1 else if f.V2? then 2 else 3) &&
            (f.V3? ==> f.iterations == b[5] as int * 16_777_216 + b[6] as int * 65_536 + b[7] as int * 256 + b[8]) &&
            b[at..at + 16] == f.salt && b[at + 16..at + 28] == f.nonce && b[at + 28..] == f.body
  {
    var b := Print(f);
    var head := MAGIC + [Version(f)] + (if f.V3? then ToBigEndian(f.iterations) else []);
    HeadFields(f, head);
    Layout(head, f.salt, f.nonce, f.body);
    hide ToBigEndian, Print;
    assert forall i | 0 <= i < |head| :: b[i] == head[i];
    if f.V3? {
      MostSignificantFirst(f.iterations);
      assert forall i | 0 <= i < 4 :: head[5..9][i] == head[5 + i];
    }
  }

  lemma MostSignificantFirst(n: nat)
    requires n < 0x1_0000_0000
    ensures var b := ToBigEndian(n);
            n == b[0] as int * 16_777_216 + b[1] as int * 65_536 + b[2] as int * 256 + b[3]
  {
    BigEndianRoundTrip(n);
    hide ToBigEndian;
  }

  function Word(b: seq<byte>, i: nat): nat
    requires 4 * i + 4 <= |b|
  {
    FromBigEndian([b[4 * i], b[4 * i + 1], b[4 * i + 2], b[4 * i + 3]])
  }

  /** The salt that ships with the app, as eight words. */
  lemma AppSalt()
    ensures |APP_SALT| == 32
    ensures Word(APP_SALT, 0) == 0x4AC7_1E93 && Word(APP_SALT, 1) == 0xD258_BF06
    ensures Word(APP_SALT, 2) == 0x7DA4_3BE1 && Word(APP_SALT, 3) == 0x90F5_2C68
    ensures Word(APP_SALT, 4) == 0x1587_DA4F && Word(APP_SALT, 5) == 0xC372_AE09
    ensures Word(APP_SALT, 6) == 0x5BE6_318C && Word(APP_SALT, 7) == 0xF064_A92D
  {}

  // ---------------------------------------------------------------------------
  // Keys and payloads
  // ---------------------------------------------------------------------------

  function DeriveKeyV1(p: Primitives, password: string, salt: seq<byte>): seq<byte> {
    p.hkdf(p.sha256(APP_SALT + Utf8.Encode(password)), salt, Utf8.Encode(LEGACY_HKDF_INFO), KEY_LEN)
  }

  function DeriveKeyPbkdf2(p: Primitives, password: string, salt: seq<byte>, iterations: nat): seq<byte> {
    p.pbkdf2(Utf8.Encode(password), APP_SALT + salt, iterations, KEY_LEN)
  }

  function KeyOf(p: Primitives, password: string, f: Frame): seq<byte> {
    match f
    case V1(salt, _, _) => DeriveKeyV1(p, password, salt)
    case V2(salt, _, _) => DeriveKeyPbkdf2(p, password, salt, PBKDF2_ITERATIONS)
    case V3(iterations, salt, _, _) => DeriveKeyPbkdf2(p, password, salt, iterations)
  }

  function Validate(payload: ScexportPayload): Option<CryptoError> {
    if payload.name == "" then Some(MissingField("name"))
    else if payload.providerType == "" then Some(MissingField("providerType"))
    else if payload.credentials == map[] then Some(MissingField("credentials"))
    else None
  }

  /** The fields the iOS importer requires are there. */
  predicate Complete(payload: ScexportPayload) {
    payload.name != "" && payload.providerType != "" && payload.credentials != map[]
  }

  function ReadPayload(p: Primitives, plaintext: seq<byte>): (r: Result<ScexportPayload, CryptoError>)
    ensures r.Ok? ==> Complete(r.value)
  {
    match Utf8.Decode(plaintext)
    case None => Err(InvalidJson("not valid UTF-8"))
    case Some(json) =>
      match p.fromJson(json)
      case Err(e) => Err(InvalidJson(e))
      case Ok(payload) =>
        if Validate(payload).Some? then Err(Validate(payload).value) else Ok(payload)
  }

  function OpenFrame(p: Primitives, password: string, f: Frame): (r: Result<ScexportPayload, CryptoError>)
    ensures r.Ok? ==> Complete(r.value)
  {
    match p.open(KeyOf(p, password, f), f.nonce, f.body)
    case None => Err(DecryptAuthFailure)
    case Some(plaintext) => ReadPayload(p, plaintext)
  }

  function Decrypted(p: Primitives, bytes: seq<byte>, password: string): (r: Result<ScexportPayload, CryptoError>)
    ensures r.Ok? ==> Complete(r.value)
  {
    match ParseFrame(bytes)
    case Err(e) => Err(e)
    case Ok(f) => OpenFrame(p, password, f)
  }

  /** The cursor moves over the header field by field; no slice leaves the buffer. */
  method Decrypt(p: Primitives, bytes: seq<byte>, password: string)
    returns (r: Result<ScexportPayload, CryptoError>)
    ensures r == Decrypted(p, bytes, password)
    ensures r.Ok? ==> Complete(r.value)
  {
    hide Utf8.Encode, Utf8.Decode, FromBigEndian, DeriveKeyV1, DeriveKeyPbkdf2, Validate;
    if |bytes| < 5 {
      return Err(TOO_SHORT);
    }
    var offset := 0;
    if bytes[offset..offset + 4] != MAGIC {
      return Err(NO_MAGIC);
    }
    offset := offset + 4;
    var version := bytes[offset];
    offset := offset + 1;
    var iterations := PBKDF2_ITERATIONS;
    if version == 3 {
      if |bytes| < offset + 4 {
        return Err(NO_ITERATIONS);
      }
      iterations := FromBigEndian([bytes[offset], bytes[offset + 1], bytes[offset + 2], bytes[offset + 3]]);
      assert bytes[5..9] == [bytes[5], bytes[6], bytes[7], bytes[8]];
      offset := offset + 4;
    }
    if |bytes| < offset + SALT_LEN + NONCE_LEN + TAG_LEN {
      return Err(TRUNCATED);
    }
    var salt := bytes[offset..offset + SALT_LEN];
    offset := offset + SALT_LEN;
    var nonce := bytes[offset..offset + NONCE_LEN];
    offset := offset + NONCE_LEN;
    var body := bytes[offset..];
    var key;
    match version {
      case 1 => key := DeriveKeyV1(p, password, salt);
      case 2 => key := DeriveKeyPbkdf2(p, password, salt, PBKDF2_ITERATIONS);
      case 3 => key := DeriveKeyPbkdf2(p, password, salt, iterations);
      case _ => return Err(UnsupportedVersion(version));
    }
    assert ParseFrame(bytes).Ok? && KeyOf(p, password, ParseFrame(bytes).value) == key;
    r := OpenSealed(p, key, nonce, body);
  }

  /** The part of `decrypt` after the header: authenticate, decode, parse, validate. */
  method OpenSealed(p: Primitives, key: seq<byte>, nonce: seq<byte>, body: seq<byte>)
    returns (r: Result<ScexportPayload, CryptoError>)
    ensures r == if p.open(key, nonce, body).None? then Err(DecryptAuthFailure)
                 else ReadPayload(p, p.open(key, nonce, body).value)
  {
    var plaintext := p.open(key, nonce, body);
    if plaintext.None? {
      return Err(DecryptAuthFailure);
    }
    var json := Utf8.Decode(plaintext.value);
    if json.None? {
      return Err(InvalidJson("not valid UTF-8"));
    }
    match p.fromJson(json.value) {
      case Err(e) => return Err(InvalidJson(e));
      case Ok(payload) =>
        if Validate(payload).Some? {
          return Err(Validate(payload).value);
        }
        return Ok(payload);
    }
  }

  /** The v3 frame that holds a payload, or why there is none. */
  function SealedFrame(p: Primitives, payload: ScexportPayload, password: string, salt: seq<byte>, nonce: seq<byte>)
    : (r: Result<Frame, CryptoError>)
    ensures r.Ok? ==> r.value.V3? && r.value.iterations == PBKDF2_ITERATIONS
  {
    if Validate(payload).Some? then Err(Validate(payload).value)
    else
      match p.toJson(payload)
      case Err(e) => Err(InvalidJson(e))
      case Ok(json) =>
        match p.seal(DeriveKeyPbkdf2(p, password, salt, PBKDF2_ITERATIONS), nonce, Utf8.Encode(json))
        case None => Err(InvalidJson("encryption failed"))
        case Some(body) => Ok(V3(PBKDF2_ITERATIONS, salt, nonce, body))
  }

  function Encrypted(p: Primitives, payload: ScexportPayload, password: string, salt: seq<byte>, nonce: seq<byte>)
    : Result<seq<byte>, CryptoError>
  {
    match SealedFrame(p, payload, password, salt, nonce)
    case Err(e) => Err(e)
    case Ok(f) => Ok(Print(f))
  }

  /** Appends the header fields and the sealed payload; `salt` and `nonce` are the drawn bytes. */
  method Encrypt(p: Primitives, payload: ScexportPayload, password: string, salt: seq<byte>, nonce: seq<byte>)
    returns (r: Result<seq<byte>, CryptoError>)
    ensures r == Encrypted(p, payload, password, salt, nonce)
  {
    if Validate(payload).Some? {
      return Err(Validate(payload).value);
    }
    var json := p.toJson(payload);
    if json.Err? {
      return Err(InvalidJson(json.error));
    }
    var iterations := PBKDF2_ITERATIONS;
    var key := DeriveKeyPbkdf2(p, password, salt, iterations);
    var body := p.seal(key, nonce, Utf8.Encode(json.value));
    if body.None? {
      return Err(InvalidJson("encryption failed"));
    }
    var out: seq<byte> := [];
    out := out + MAGIC;
    out := out + [3];
    out := out + ToBigEndian(iterations);
    out := out + salt;
    out := out + nonce;
    out := out + body.value;
    assert out == Print(V3(iterations, salt, nonce, body.value));
    return Ok(out);
  }

  /** A payload sealed into any version's frame under that version's key is read back from the
      frame's bytes; for v3, whatever iteration count the header carries. */
  lemma DecryptInvertsSealing(p: Primitives, payload: ScexportPayload, password: string, f: Frame)
    requires Lawful(p) && Validate(payload) == None && p.toJson(payload).Ok? && ValidFrame(f)
    requires p.seal(KeyOf(p, password, f), f.nonce, Utf8.Encode(p.toJson(payload).value)) == Some(f.body)
    ensures Decrypted(p, Print(f), password) == Ok(payload)
  {
    var json := p.toJson(payload).value;
    hide KeyOf, Print, ParseFrame, Utf8.Encode, Utf8.Decode;
    ParsePrinted(f);
    Utf8.DecodeInvertsEncode(json);
    assert p.open(KeyOf(p, password, f), f.nonce, f.body) == Some(Utf8.Encode(json));
  }

  // ---------------------------------------------------------------------------
  // Files of other builds, in terms of the primitives
  // ---------------------------------------------------------------------------

  lemma Keys(p: Primitives, password: string, n: nat, salt: seq<byte>, nonce: seq<byte>, body: seq<byte>)
    ensures KeyOf(p, password, V1(salt, nonce, body)) ==
            p.hkdf(p.sha256(APP_SALT + Utf8.Encode(password)), salt, Utf8.Encode("StackConnect.Export.v1"), 32)
    ensures KeyOf(p, password, V2(salt, nonce, body)) ==
            p.pbkdf2(Utf8.Encode(password), APP_SALT + salt, 600_000, 32)
    ensures KeyOf(p, password, V3(n, salt, nonce, body)) == p.pbkdf2(Utf8.Encode(password), APP_SALT + salt, n, 32)
  {
    hide Utf8.Encode;
  }

  lemma Headers(n: nat, salt: seq<byte>, nonce: seq<byte>, body: seq<byte>)
    requires n < 0x1_0000_0000
    ensures Print(V1(salt, nonce, body)) == [0x53, 0x43, 0x45, 0x58, 1] + salt + nonce + body
    ensures Print(V2(salt, nonce, body)) == [0x53, 0x43, 0x45, 0x58, 2] + salt + nonce + body
    ensures Print(V3(n, salt, nonce, body)) == [0x53, 0x43, 0x45, 0x58, 3] + ToBigEndian(n) + salt + nonce + body
  {
    hide ToBigEndian;
    assert [0x53, 0x43, 0x45, 0x58, 1] + [] == [0x53, 0x43, 0x45, 0x58, 1];
    assert [0x53, 0x43, 0x45, 0x58, 2] + [] == [0x53, 0x43, 0x45, 0x58, 2];
  }

  /** A v1 file: sealed under HKDF of the SHA-256 of app salt and password. */
  lemma V1FileOpens(p: Primitives, payload: ScexportPayload, password: string,
                    salt: seq<byte>, nonce: seq<byte>, body: seq<byte>)
    requires Lawful(p) && |salt| == 16 && |nonce| == 12 && Complete(payload) && p.toJson(payload).Ok?
    requires p.seal(p.hkdf(p.sha256(APP_SALT + Utf8.Encode(password)), salt,
                           Utf8.Encode("StackConnect.Export.v1"), 32),
                    nonce, Utf8.Encode(p.toJson(payload).value)) == Some(body)
    ensures Decrypted(p, [0x53, 0x43, 0x45, 0x58, 1] + salt + nonce + body, password) == Ok(payload)
  {
    hide KeyOf, Print, Utf8.Encode, Decrypted;
    Keys(p, password, 0, salt, nonce, body);
    Headers(0, salt, nonce, body);
    DecryptInvertsSealing(p, payload, password, V1(salt, nonce, body));
  }

  /** A v2 file: sealed under PBKDF2 of the password, salted with app salt and file salt, with
      600000 rounds that the file does not mention. */
  lemma V2FileOpens(p: Primitives, payload: ScexportPayload, password: string,
                    salt: seq<byte>, nonce: seq<byte>, body: seq<byte>)
    requires Lawful(p) && |salt| == 16 && |nonce| == 12 && Complete(payload) && p.toJson(payload).Ok?
    requires p.seal(p.pbkdf2(Utf8.Encode(password), APP_SALT + salt, 600_000, 32), nonce,
                    Utf8.Encode(p.toJson(payload).value)) == Some(body)
    ensures Decrypted(p, [0x53, 0x43, 0x45, 0x58, 2] + salt + nonce + body, password) == Ok(payload)
  {
    hide KeyOf, Print, Utf8.Encode, Decrypted;
    Keys(p, password, 0, salt, nonce, body);
    Headers(0, salt, nonce, body);
    DecryptInvertsSealing(p, payload, password, V2(salt, nonce, body));
  }

  /** A v3 file: as v2, with the number of rounds that its own header carries. */
  lemma V3FileOpens(p: Primitives, payload: ScexportPayload, password: string, n: nat,
                    salt: seq<byte>, nonce: seq<byte>, body: seq<byte>)
    requires Lawful(p) && |salt| == 16 && |nonce| == 12 && Complete(payload) && p.toJson(payload).Ok?
    requires n < 0x1_0000_0000
    requires p.seal(p.pbkdf2(Utf8.Encode(password), APP_SALT + salt, n, 32), nonce,
                    Utf8.Encode(p.toJson(payload).value)) == Some(body)
    ensures Decrypted(p, [0x53, 0x43, 0x45, 0x58, 3] + ToBigEndian(n) + salt + nonce + body, password) == Ok(payload)
  {
    hide KeyOf, Print, Utf8.Encode, Decrypted, ToBigEndian;
    Keys(p, password, n, salt, nonce, body);
    Headers(n, salt, nonce, body);
    DecryptInvertsSealing(p, payload, password, V3(n, salt, nonce, body));
  }

  /** What `decrypt` makes of a frame that opens: the first required field that is missing is named,
      and nothing else is refused but text that is not UTF-8 and JSON that does not parse. */
  lemma OpenedOutcome(p: Primitives, bytes: seq<byte>, password: string, f: Frame, plaintext: seq<byte>)
    requires ParseFrame(bytes) == Ok(f) && p.open(KeyOf(p, password, f), f.nonce, f.body) == Some(plaintext)
    ensures var r := Decrypted(p, bytes, password);
            (!Utf8.WellFormed(plaintext) ==> r == Err(InvalidJson("not valid UTF-8"))) &&
            forall json | plaintext == Utf8.Encode(json) ::
              match p.fromJson(json)
              case Err(e) => r == Err(InvalidJson(e))
              case Ok(payload) =>
                r == if payload.name == "" then Err(MissingField("name"))
                     else if payload.providerType == "" then Err(MissingField("providerType"))
                     else if payload.credentials == map[] then Err(MissingField("credentials"))
                     else Ok(payload)
  {
    hide ParseFrame, KeyOf, Utf8.Encode, Utf8.DecodeLossy;
    forall json | plaintext == Utf8.Encode(json) ensures Utf8.Decode(plaintext) == Some(json) {
      Utf8.DecodeInvertsEncode(json);
    }
  }

  /** What `encrypt` gives: the first required field that is missing, the failure of a primitive, or
      the bytes of a v3 header that says 600000, salt and nonce, and what the cipher makes of the
      payload's JSON under the PBKDF2 key of the password. */
  lemma EncryptedFile(p: Primitives, payload: ScexportPayload, password: string, salt: seq<byte>, nonce: seq<byte>)
    ensures var json := p.toJson(payload);
            Encrypted(p, payload, password, salt, nonce) ==
            if payload.name == "" then Err(MissingField("name"))
            else if payload.providerType == "" then Err(MissingField("providerType"))
            else if payload.credentials == map[] then Err(MissingField("credentials"))
            else if json.Err? then Err(InvalidJson(json.error))
            else
              var key := p.pbkdf2(Utf8.Encode(password), APP_SALT + salt, 600_000, 32);
              var body := p.seal(key, nonce, Utf8.Encode(json.value));
              if body.None? then Err(InvalidJson("encryption failed"))
              else Ok([0x53, 0x43, 0x45, 0x58, 3, 0x00, 0x09, 0x27, 0xC0] + salt + nonce + body.value)
  {
    hide Utf8.Encode, Print;
    var r := SealedFrame(p, payload, password, salt, nonce);
    if r.Ok? {
      WrittenHeader(salt, nonce, r.value.body);
    }
  }

  lemma WrittenHeader(salt: seq<byte>, nonce: seq<byte>, body: seq<byte>)
    ensures Print(V3(600_000, salt, nonce, body)) ==
            [0x53, 0x43, 0x45, 0x58, 3, 0x00, 0x09, 0x27, 0xC0] + salt + nonce + body
  {
    assert ToBigEndian(600_000) == [0x00, 0x09, 0x27, 0xC0];
    hide ToBigEndian, Print;
    Headers(600_000, salt, nonce, body);
    assert [0x53, 0x43, 0x45, 0x58, 3] + [0x00, 0x09, 0x27, 0xC0] ==
           [0x53, 0x43, 0x45, 0x58, 3, 0x00, 0x09, 0x27, 0xC0];
  }

  /** What another password makes of an encrypted file: with the same PBKDF2 key the payload, and an
      authentication failure exactly when the cipher refuses the sealed bytes under its key. */
  lemma OtherPassword(p: Primitives, payload: ScexportPayload, password: string, password': string,
                      salt: seq<byte>, nonce: seq<byte>)
    requires Lawful(p) && |salt| == 16 && |nonce| == 12
    requires Encrypted(p, payload, password, salt, nonce).Ok?
    ensures var file := Encrypted(p, payload, password, salt, nonce).value;
            var key := p.pbkdf2(Utf8.Encode(password), APP_SALT + salt, 600_000, 32);
            var key' := p.pbkdf2(Utf8.Encode(password'), APP_SALT + salt, 600_000, 32);
            |file| >= 37 && (key' == key ==> Decrypted(p, file, password') == Ok(payload)) &&
            (Decrypted(p, file, password') == Err(DecryptAuthFailure) <==> p.open(key', nonce, file[37..]) == None)
  {
    var f := SealedFrame(p, payload, password, salt, nonce).value;
    DecryptInvertsEncrypt(p, payload, password, salt, nonce);
    assert Encrypted(p, payload, password, salt, nonce) == Ok(Print(f));
    SealedBody(p, payload, password, salt, nonce);
    FrameLayout(f);
    hide Utf8.Encode, Encrypted, Decrypted, SealedFrame, KeyOf, OpenFrame, Lawful, Print;
    Keys(p, password, 600_000, salt, nonce, f.body);
    Keys(p, password', 600_000, salt, nonce, f.body);
    OpensAs(p, password, f);
    OpensAs(p, password', f);
    SameKeyOpensAlike(p, password, password', f);
    OpenAuth(p, password', f);
  }

  lemma SealedBody(p: Primitives, payload: ScexportPayload, password: string, salt: seq<byte>, nonce: seq<byte>)
    requires Lawful(p) && |salt| == 16 && |nonce| == 12 && SealedFrame(p, payload, password, salt, nonce).Ok?
    ensures var f := SealedFrame(p, payload, password, salt, nonce).value;
            ValidFrame(f) && f == V3(600_000, salt, nonce, f.body) && p.toJson(payload).Ok? &&
            p.seal(KeyOf(p, password, f), f.nonce, Utf8.Encode(p.toJson(payload).value)) == Some(f.body)
  {
    hide Utf8.Encode;
  }

  lemma OpensAs(p: Primitives, password: string, f: Frame)
    requires ValidFrame(f)
    ensures Decrypted(p, Print(f), password) == OpenFrame(p, password, f)
  {
    ParsePrinted(f);
    hide ParseFrame, Print, OpenFrame;
  }

  lemma SameKeyOpensAlike(p: Primitives, password: string, password': string, f: Frame)
    ensures KeyOf(p, password, f) == KeyOf(p, password', f) ==> OpenFrame(p, password, f) == OpenFrame(p, password', f)
  {
    hide KeyOf, Utf8.Decode;
  }

  /** The ideal cipher: a sealed message opens under no other key. */
  ghost predicate KeyBound(p: Primitives) {
    forall k, k', n, m | p.seal(k, n, m).Some? && k != k' :: p.open(k', n, p.seal(k, n, m).value) == None
  }

  /** Different passwords derive different keys. */
  ghost predicate SeparatesPasswords(p: Primitives) {
    forall a, b, salt | a != b :: p.pbkdf2(a, salt, 600_000, 32) != p.pbkdf2(b, salt, 600_000, 32)
  }

  /** With an ideal cipher and key derivation, only the password of the export opens the file. */
  lemma OnlyItsPassword(p: Primitives, payload: ScexportPayload, password: string, password': string,
                        salt: seq<byte>, nonce: seq<byte>)
    requires Lawful(p) && KeyBound(p) && SeparatesPasswords(p) && |salt| == 16 && |nonce| == 12
    requires Encrypted(p, payload, password, salt, nonce).Ok? && password != password'
    ensures Decrypted(p, Encrypted(p, payload, password, salt, nonce).value, password') == Err(DecryptAuthFailure)
  {
    EncodeInjective(password, password');
    assert p.pbkdf2(Utf8.Encode(password), APP_SALT + salt, 600_000, 32) !=
           p.pbkdf2(Utf8.Encode(password'), APP_SALT + salt, 600_000, 32);
    hide *;
    RefusesOtherKeys(p, payload, password, salt, nonce, p.pbkdf2(Utf8.Encode(password'), APP_SALT + salt, 600_000, 32));
    OtherPassword(p, payload, password, password', salt, nonce);
  }

  lemma EncodeInjective(a: string, b: string)
    requires a != b
    ensures Utf8.Encode(a) != Utf8.Encode(b)
  {
    Utf8.DecodeInvertsEncode(a);
    Utf8.DecodeInvertsEncode(b);
    hide Utf8.Encode, Utf8.Decode;
  }

  lemma RefusesOtherKeys(p: Primitives, payload: ScexportPayload, password: string,
                         salt: seq<byte>, nonce: seq<byte>, key': seq<byte>)
    requires KeyBound(p) && |salt| == 16 && |nonce| == 12 && Encrypted(p, payload, password, salt, nonce).Ok?
    requires key' != p.pbkdf2(Utf8.Encode(password), APP_SALT + salt, 600_000, 32)
    ensures var file := Encrypted(p, payload, password, salt, nonce).value;
            |file| >= 37 && p.open(key', nonce, file[37..]) == None
  {
    EncryptedFile(p, payload, password, salt, nonce);
    hide Utf8.Encode, Encrypted;
    var file := Encrypted(p, payload, password, salt, nonce).value;
    var body := p.seal(p.pbkdf2(Utf8.Encode(password), APP_SALT + salt, 600_000, 32), nonce,
                       Utf8.Encode(p.toJson(payload).value)).value;
    assert file[37..] == body;
  }

  predicate Sealable(p: Primitives, payload: ScexportPayload, password: string, salt: seq<byte>, nonce: seq<byte>) {
    p.toJson(payload).Ok? &&
    var key := DeriveKeyPbkdf2(p, password, salt, PBKDF2_ITERATIONS);
    p.seal(key, nonce, Utf8.Encode(p.toJson(payload).value)).Some?
  }

  /** When `encrypt` yields a file at all; it never reports an authentication failure. */
  lemma EncryptOutcome(p: Primitives, payload: ScexportPayload, password: string, salt: seq<byte>, nonce: seq<byte>)
    ensures var r := Encrypted(p, payload, password, salt, nonce);
            (r.Err? ==> !r.error.DecryptAuthFailure?) &&
            (r.Ok? <==>
             payload.name != "" && payload.providerType != "" && payload.credentials != map[] &&
             Sealable(p, payload, password, salt, nonce))
  {}

  /** `decrypt` undoes `encrypt` for every payload, password, salt and nonce. */
  lemma DecryptInvertsEncrypt(p: Primitives, payload: ScexportPayload, password: string,
                              salt: seq<byte>, nonce: seq<byte>)
    requires Lawful(p) && |salt| == SALT_LEN && |nonce| == NONCE_LEN
    requires Encrypted(p, payload, password, salt, nonce).Ok?
    ensures Decrypted(p, Encrypted(p, payload, password, salt, nonce).value, password) == Ok(payload)
  {
    DecryptInvertsSealing(p, payload, password, SealedFrame(p, payload, password, salt, nonce).value);
  }

  /** A v2 file and the v3 file with the same fields and 600000 in the header decrypt alike, for
      every password: the same payload or the same failure, truncation included. */
  lemma V2IsV3WithDefaultIterations(p: Primitives, password: string, salt: seq<byte>, nonce: seq<byte>, body: seq<byte>)
    requires |salt| == SALT_LEN && |nonce| == NONCE_LEN
    ensures Decrypted(p, Print(V2(salt, nonce, body)), password) ==
            Decrypted(p, Print(V3(PBKDF2_ITERATIONS, salt, nonce, body)), password)
  {
    var f, g := V2(salt, nonce, body), V3(PBKDF2_ITERATIONS, salt, nonce, body);
    if |body| >= TAG_LEN {
      ParsePrinted(f);
      ParsePrinted(g);
      hide Print, ParseFrame;
    } else {
      TruncatedFrame(f);
      TruncatedFrame(g);
      hide Print, ParseFrame;
    }
  }

  lemma TruncatedFrame(f: Frame)
    requires |f.salt| == SALT_LEN && |f.nonce| == NONCE_LEN && |f.body| < TAG_LEN
    requires f.V3? ==> f.iterations < 0x1_0000_0000
    ensures ParseFrame(Print(f)) == Err(TRUNCATED)
  {}

  /** `bytes` are a valid frame that its authenticated cipher refuses under this password. */
  ghost predicate FailsToOpen(p: Primitives, bytes: seq<byte>, password: string, f: Frame) {
    ValidFrame(f) && bytes == Print(f) && p.open(KeyOf(p, password, f), f.nonce, f.body).None?
  }

  lemma FailsIffParsed(p: Primitives, bytes: seq<byte>, password: string, f: Frame)
    ensures FailsToOpen(p, bytes, password, f) <==>
            ParseFrame(bytes) == Ok(f) && p.open(KeyOf(p, password, f), f.nonce, f.body).None?
  {
    hide ParseFrame, KeyOf;
    ParseIffPrinted(bytes, f);
  }

  lemma OpenAuth(p: Primitives, password: string, f: Frame)
    ensures OpenFrame(p, password, f) == Err(DecryptAuthFailure) <==>
            p.open(KeyOf(p, password, f), f.nonce, f.body).None?
  {
    hide KeyOf, Utf8.Decode;
  }

  lemma ParseNotAuth(b: seq<byte>)
    ensures ParseFrame(b) != Err(DecryptAuthFailure)
  {}

  /** `decrypt` reports an authentication failure exactly for a valid frame that does not open. */
  lemma AuthFailureIff(p: Primitives, bytes: seq<byte>, password: string)
    ensures Decrypted(p, bytes, password) == Err(DecryptAuthFailure) <==>
            exists f :: FailsToOpen(p, bytes, password, f)
  {
    hide ParseFrame, KeyOf, FailsToOpen, OpenFrame;
    var parsed := ParseFrame(bytes);
    ParseNotAuth(bytes);
    if parsed.Ok? {
      OpenAuth(p, password, parsed.value);
      FailsIffParsed(p, bytes, password, parsed.value);
    }
    if f :| FailsToOpen(p, bytes, password, f) {
      FailsIffParsed(p, bytes, password, f);
    }
  }
}
