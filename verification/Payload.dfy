/**
 The encrypt-then-MAC payload envelope.  Key derivation, MAC, block cipher and base64 are library code
 with only their laws kept; chaining, padding and the envelope's layout are modelled byte by byte.
 Padding follows section 6.3 of RFC 5652, chaining section 6.2 of NIST SP 800-38A.
 */
module Payload {
  import opened Wrappers

  type Bytes = seq<bv8>

  const BLOCK := 16
  const SALT := 16
  const MAC := 32
  const ITERATIONS := 100000
  const LEGACY_SALT := 8
  const LEGACY_ITERATIONS := 10000
  const MAGIC: Bytes := [0x44, 0x46, 0x50, 0x31]
  const LEGACY_MAGIC: Bytes := [0x53, 0x61, 0x6C, 0x74, 0x65, 0x64, 0x5F, 0x5F]

  /** The library primitives. */
  datatype Library = Library(
    kdf: (Bytes, Bytes, nat, nat) -> Bytes,
    mac: (Bytes, Bytes) -> Bytes,
    encrypt: (Bytes, Bytes) -> Bytes,
    decrypt: (Bytes, Bytes) -> Bytes,
    toText: Bytes -> string,
    fromText: string -> Option<Bytes>)

  /** Output lengths, the cipher a keyed permutation of blocks, and text encoding reversible. */
  ghost predicate Lawful(lib: Library) {
    && (forall p, s, i, n :: |lib.kdf(p, s, i, n)| == n)
    && (forall k, m :: |lib.mac(k, m)| == MAC)
    && (forall k, b :: |b| == BLOCK ==> |lib.encrypt(k, b)| == BLOCK && lib.decrypt(k, lib.encrypt(k, b)) == b)
    && (forall k, b :: |b| == BLOCK ==> |lib.decrypt(k, b)| == BLOCK && lib.encrypt(k, lib.decrypt(k, b)) == b)
    && (forall b :: lib.fromText(lib.toText(b)) == Some(b))
  }

  // ---------------------------------------------------------------- chaining

  function Xor(a: Bytes, b: Bytes): (r: Bytes)
    requires |a| == |b|
    ensures |r| == |a| && forall i :: 0 <= i < |a| ==> r[i] == a[i] ^ b[i]
  {
    seq(|a|, i requires 0 <= i < |a| => a[i] ^ b[i])
  }

  lemma XorTwice(a: Bytes, b: Bytes)
    requires |a| == |b|
    ensures Xor(Xor(a, b), b) == a
  {}

  predicate Blocks(b: Bytes) { |b| % BLOCK == 0 }

  ghost function CbcEncrypt(lib: Library, key: Bytes, iv: Bytes, plain: Bytes): (r: Bytes)
    requires Lawful(lib) && |iv| == BLOCK && Blocks(plain)
    ensures |r| == |plain|
    decreases |plain|
  {
    if plain == [] then []
    else
      var c := lib.encrypt(key, Xor(plain[..BLOCK], iv));
      c + CbcEncrypt(lib, key, c, plain[BLOCK..])
  }

  ghost function CbcDecrypt(lib: Library, key: Bytes, iv: Bytes, text: Bytes): (r: Bytes)
    requires Lawful(lib) && |iv| == BLOCK && Blocks(text)
    ensures |r| == |text|
    decreases |text|
  {
    if text == [] then []
    else Xor(lib.decrypt(key, text[..BLOCK]), iv) + CbcDecrypt(lib, key, text[..BLOCK], text[BLOCK..])
  }

  /** Decryption undoes encryption over any number of blocks. */
  lemma {:induction false} CbcRoundTrip(lib: Library, key: Bytes, iv: Bytes, plain: Bytes)
    requires Lawful(lib) && |iv| == BLOCK && Blocks(plain)
    ensures CbcDecrypt(lib, key, iv, CbcEncrypt(lib, key, iv, plain)) == plain
    decreases |plain|
  {
    if plain != [] {
      var c := lib.encrypt(key, Xor(plain[..BLOCK], iv));
      var rest := CbcEncrypt(lib, key, c, plain[BLOCK..]);
      assert (c + rest)[..BLOCK] == c && (c + rest)[BLOCK..] == rest;
      CbcRoundTrip(lib, key, c, plain[BLOCK..]);
      XorTwice(plain[..BLOCK], iv);
    }
  }

  /** And the other way round: every ciphertext is the encryption of what it decrypts to. */
  lemma {:induction false} CbcOnto(lib: Library, key: Bytes, iv: Bytes, text: Bytes)
    requires Lawful(lib) && |iv| == BLOCK && Blocks(text)
    ensures CbcEncrypt(lib, key, iv, CbcDecrypt(lib, key, iv, text)) == text
    decreases |text|
  {
    if text != [] {
      var head := Xor(lib.decrypt(key, text[..BLOCK]), iv);
      var rest := CbcDecrypt(lib, key, text[..BLOCK], text[BLOCK..]);
      assert (head + rest)[..BLOCK] == head && (head + rest)[BLOCK..] == rest;
      CbcOnto(lib, key, text[..BLOCK], text[BLOCK..]);
      XorTwice(lib.decrypt(key, text[..BLOCK]), iv);
    }
  }

  /** Block `j` of a text. */
  function Block(b: Bytes, j: nat): (r: Bytes)
    requires (j + 1) * 16 <= |b|
    ensures |r| == 16
  {
    b[j * 16..j * 16 + 16]
  }

  lemma BlockOfTail(b: Bytes, j: nat)
    requires Blocks(b) && j > 0 && (j + 1) * 16 <= |b|
    ensures Block(b, j) == Block(b[16..], j - 1)
  {}

  /** Chaining, block by block: each ciphertext block encrypts its plaintext block combined with the ciphertext block
      before it, the first one with the initialization vector. */
  lemma {:induction false} CbcChains(lib: Library, key: Bytes, iv: Bytes, plain: Bytes, j: nat, input: Bytes)
    requires Lawful(lib) && |iv| == 16 && Blocks(plain) && (j + 1) * 16 <= |plain|
    requires |input| == 16
    requires
      var text := CbcEncrypt(lib, key, iv, plain);
      forall i :: 0 <= i < 16 ==> input[i] == Block(plain, j)[i] ^ (if j == 0 then iv[i] else Block(text, j - 1)[i])
    ensures Block(CbcEncrypt(lib, key, iv, plain), j) == lib.encrypt(key, input)
    decreases j
  {
    var text := CbcEncrypt(lib, key, iv, plain);
    var first := lib.encrypt(key, Xor(plain[..16], iv));
    var rest := CbcEncrypt(lib, key, first, plain[16..]);
    assert text[..16] == first && text[16..] == rest;
    if j == 0 {
      assert Block(plain, 0) == plain[..16] && Block(text, 0) == text[..16];
      assert input == Xor(plain[..16], iv);
    } else {
      BlockOfTail(plain, j);
      BlockOfTail(text, j);
      if j > 1 { BlockOfTail(text, j - 1); } else { assert Block(text, 0) == first; }
      CbcChains(lib, key, first, plain[16..], j - 1, input);
    }
  }

  // ---------------------------------------------------------------- padding

  function PadLength(plain: Bytes): (n: nat)
    ensures 1 <= n <= BLOCK && (|plain| + n) % BLOCK == 0
  {
    BLOCK - |plain| % BLOCK
  }

  /** A byte as the count it stands for, and back. */
  function Count(b: bv8): nat { b as int }

  function Mark(n: nat): bv8
    requires n <= BLOCK
  {
    n as bv8
  }

  lemma MarkCount(n: nat)
    requires n <= BLOCK
    ensures Count(Mark(n)) == n
  {}

  lemma CountMark(b: bv8)
    requires Count(b) <= BLOCK
    ensures Mark(Count(b)) == b
  {}

  function Padding(n: nat): (r: Bytes)
    requires n <= BLOCK
    ensures |r| == n && forall i :: 0 <= i < n ==> r[i] == Mark(n)
  {
    seq(n, _ => Mark(n))
  }

  function Pad(plain: Bytes): (r: Bytes)
    ensures Blocks(r) && |r| > |plain|
  {
    plain + Padding(PadLength(plain))
  }

  /** A padded text ends in its padding length. */
  lemma PadEnds(plain: Bytes)
    ensures var r := Pad(plain); Count(r[|r| - 1]) == PadLength(plain) && plain == r[..|r| - PadLength(plain)]
  {
    MarkCount(PadLength(plain));
    hide Count, Mark;
  }

  /** Padding is stripped in exactly one way. */
  lemma PadInjective(a: Bytes, b: Bytes)
    requires Pad(a) == Pad(b)
    ensures a == b
  {
    PadEnds(a);
    PadEnds(b);
  }

  // ---------------------------------------------------------------- the envelope

  ghost function Key(lib: Library, pass: Bytes, salt: Bytes): Bytes
    requires Lawful(lib)
  {
    lib.kdf(pass, salt, ITERATIONS, 80)
  }

  ghost function Signed(lib: Library, pass: Bytes, salt: Bytes, plain: Bytes): Bytes
    requires Lawful(lib)
  {
    var d := Key(lib, pass, salt);
    MAGIC + salt + CbcEncrypt(lib, d[..32], d[32..48], Pad(plain))
  }

  ghost function Envelope(lib: Library, pass: Bytes, salt: Bytes, plain: Bytes): Bytes
    requires Lawful(lib)
  {
    Signed(lib, pass, salt, plain) + lib.mac(Key(lib, pass, salt)[48..], Signed(lib, pass, salt, plain))
  }

  ghost predicate LegacyOpens(lib: Library, pass: Bytes, raw: Bytes, plain: Bytes)
    requires Lawful(lib)
  {
    && LEGACY_MAGIC <= raw && |raw| >= 16 && |raw| > 16 && |raw| % BLOCK == 0
    && var d := lib.kdf(pass, raw[8..16], LEGACY_ITERATIONS, 48);
       CbcDecrypt(lib, d[..32], d[32..48], raw[16..]) == Pad(plain)
  }

  /** The payload is what encryption emits for this text and some salt. */
  ghost predicate Emitted(lib: Library, pass: Bytes, raw: Bytes, plain: Bytes)
    requires Lawful(lib)
  {
    exists salt :: |salt| == SALT && raw == Envelope(lib, pass, salt, plain)
  }

  /** What a payload opens to. */
  ghost predicate Opens(lib: Library, pass: Bytes, raw: Bytes, plain: Bytes)
    requires Lawful(lib)
  {
    pass != [] && (LegacyOpens(lib, pass, raw, plain) || Emitted(lib, pass, raw, plain))
  }

  /** The library's CBC mode, one block at a time into a buffer. */
  method CryptBlocks(lib: Library, key: Bytes, iv: Bytes, input: Bytes, encrypting: bool) returns (output: Bytes)
    requires Lawful(lib) && |iv| == BLOCK && Blocks(input)
    ensures output == if encrypting then CbcEncrypt(lib, key, iv, input) else CbcDecrypt(lib, key, iv, input)
  {
    output := [];
    var previous, rest := iv, input;
    while rest != []
      invariant |previous| == BLOCK && Blocks(rest)
      invariant encrypting ==> CbcEncrypt(lib, key, iv, input) == output + CbcEncrypt(lib, key, previous, rest)
      invariant !encrypting ==> CbcDecrypt(lib, key, iv, input) == output + CbcDecrypt(lib, key, previous, rest)
      decreases |rest|
    {
      var block := rest[..BLOCK];
      if encrypting {
        previous := lib.encrypt(key, Xor(block, previous));
        output := output + previous;
      } else {
        output := output + Xor(lib.decrypt(key, block), previous);
        previous := block;
      }
      rest := rest[BLOCK..];
    }
  }

  /** EncryptPayload, with the salt drawn by the caller. */
  method EncryptPayload(lib: Library, pass: Bytes, salt: Bytes, plain: Bytes) returns (encoded: Option<string>)
    requires Lawful(lib) && |salt| == SALT
    ensures encoded == if pass == [] then None else Some(lib.toText(Envelope(lib, pass, salt, plain)))
    ensures pass != [] ==>
      var d := lib.kdf(pass, salt, 100_000, 80);
      var signed := [0x44, 0x46, 0x50, 0x31] + salt + CbcEncrypt(lib, d[..32], d[32..48], Pad(plain));
      encoded == Some(lib.toText(signed + lib.mac(d[48..], signed)))
  {
    if pass == [] { return None; }
    var derived := lib.kdf(pass, salt, ITERATIONS, 80);
    var padLength := BLOCK - |plain| % BLOCK;
    var padded := plain + seq(padLength, _ => Mark(padLength));
    assert padded == Pad(plain);
    var text := CryptBlocks(lib, derived[..32], derived[32..48], padded, true);
    var signed := MAGIC + salt + text;
    return Some(lib.toText(signed + lib.mac(derived[48..], signed)));
  }

  /** The last `n` bytes are `n` bytes counting `n`. */
  predicate EndsPadded(text: Bytes, n: nat) {
    1 <= n <= BLOCK && n <= |text| && forall k :: |text| - n <= k < |text| ==> Count(text[k]) == n
  }

  lemma PadIsPadded(p: Bytes)
    ensures EndsPadded(Pad(p), PadLength(p))
  {
    MarkCount(PadLength(p));
    hide Count, Mark;
  }

  lemma PaddedIsPad(text: Bytes, n: nat)
    requires Blocks(text) && EndsPadded(text, n)
    ensures text == Pad(text[..|text| - n])
  {
    hide Count, Mark;
    var p := text[..|text| - n];
    assert PadLength(p) == n;
    forall k | |text| - n <= k < |text| ensures text[k] == Mark(n) { CountMark(text[k]); }
    assert text == p + Padding(n);
  }

  /** A text is padded exactly when its last byte counts that many equal bytes. */
  lemma PaddedIff(text: Bytes, p: Bytes)
    requires text != [] && Blocks(text)
    ensures text == Pad(p) <==> var n := Count(text[|text| - 1]); EndsPadded(text, n) && p == text[..|text| - n]
  {
    hide Pad, EndsPadded, Count, PadLength;
    PadEnds(p);
    PadIsPadded(p);
    var n := Count(text[|text| - 1]);
    if EndsPadded(text, n) { PaddedIsPad(text, n); }
  }

  /** The padding check of decryptPayloadCBC. */
  method StripPadding(plain: Bytes) returns (r: Option<Bytes>)
    requires plain != [] && Blocks(plain)
    ensures forall p :: r == Some(p) <==> plain == Pad(p)
  {
    hide Pad, Count;
    forall p { PaddedIff(plain, p); }
    var padding := Count(plain[|plain| - 1]);
    if padding == 0 || padding > BLOCK || padding > |plain| { return None; }
    var start := |plain| - padding;
    var i := start;
    while i < |plain|
      invariant start <= i <= |plain| && forall k :: start <= k < i ==> Count(plain[k]) == padding
    {
      if Count(plain[i]) != padding { return None; }
      i := i + 1;
    }
    return Some(plain[..start]);
  }

  /** decryptPayloadCBC: answers exactly the text whose padding is the decryption. */
  method DecryptCbc(lib: Library, key: Bytes, iv: Bytes, text: Bytes) returns (r: Option<Bytes>)
    requires Lawful(lib) && |iv| == BLOCK
    ensures forall p :: r == Some(p) <==> |text| > 0 && Blocks(text) && CbcDecrypt(lib, key, iv, text) == Pad(p)
  {
    hide Pad, CbcDecrypt;
    if |text| == 0 || |text| % BLOCK != 0 { return None; }
    var plain := CryptBlocks(lib, key, iv, text, false);
    r := StripPadding(plain);
  }

  lemma EnvelopeParts(lib: Library, pass: Bytes, salt: Bytes, plain: Bytes)
    requires Lawful(lib) && |salt| == SALT
    ensures var raw := Envelope(lib, pass, salt, plain); var end := |raw| - MAC; var d := Key(lib, pass, salt);
      && end > 20 && Blocks(raw[20..end]) && MAGIC <= raw && raw[4..20] == salt
      && raw[20..end] == CbcEncrypt(lib, d[..32], d[32..48], Pad(plain))
      && raw[..end] == Signed(lib, pass, salt, plain) && raw[end..] == lib.mac(d[48..], raw[..end])
  {
    var d := Key(lib, pass, salt);
    var raw := Envelope(lib, pass, salt, plain);
    var text := CbcEncrypt(lib, d[..32], d[32..48], Pad(plain));
    var signed := Signed(lib, pass, salt, plain);
    assert raw[..|raw| - MAC] == signed && raw[|raw| - MAC..] == lib.mac(d[48..], signed);
    assert raw[20..|raw| - MAC] == signed[20..] == text && raw[4..20] == signed[4..20] == salt && raw[..4] == MAGIC;
  }

  /** An envelope with a right tag is the one emitted for its salt and content. */
  lemma Reopen(lib: Library, pass: Bytes, raw: Bytes, plain: Bytes)
    requires Lawful(lib) && MAGIC <= raw && |raw| > 52 && Blocks(raw[20..|raw| - MAC])
    requires raw[|raw| - MAC..] == lib.mac(Key(lib, pass, raw[4..20])[48..], raw[..|raw| - MAC])
    ensures var d := Key(lib, pass, raw[4..20]);
      CbcDecrypt(lib, d[..32], d[32..48], raw[20..|raw| - MAC]) == Pad(plain) <==> raw == Envelope(lib, pass, raw[4..20], plain)
  {
    var end := |raw| - MAC;
    var salt, text := raw[4..20], raw[20..end];
    var d := Key(lib, pass, salt);
    if CbcDecrypt(lib, d[..32], d[32..48], text) == Pad(plain) {
      CbcOnto(lib, d[..32], d[32..48], text);
      assert raw[..end] == MAGIC + salt + text;
      assert raw == raw[..end] + raw[end..];
    }
    if raw == Envelope(lib, pass, salt, plain) {
      EnvelopeParts(lib, pass, salt, plain);
      CbcRoundTrip(lib, d[..32], d[32..48], Pad(plain));
    }
  }

  /** The layout and the tag are right. */
  ghost predicate Sealed(lib: Library, pass: Bytes, raw: Bytes)
    requires Lawful(lib)
  {
    && MAGIC <= raw
    && |raw| > |MAGIC| + SALT + MAC
    && Blocks(raw[20..|raw| - MAC])
    && raw[|raw| - MAC..] == lib.mac(Key(lib, pass, raw[4..20])[48..], raw[..|raw| - MAC])
  }

  lemma EmittedIsSealed(lib: Library, pass: Bytes, raw: Bytes, plain: Bytes)
    requires Lawful(lib) && Emitted(lib, pass, raw, plain)
    ensures Sealed(lib, pass, raw) && raw == Envelope(lib, pass, raw[4..20], plain)
  {
    hide Envelope, Signed, Key;
    var salt :| |salt| == SALT && raw == Envelope(lib, pass, salt, plain);
    EnvelopeParts(lib, pass, salt, plain);
  }

  lemma SealedOpens(lib: Library, pass: Bytes, raw: Bytes)
    requires Lawful(lib) && Sealed(lib, pass, raw)
    ensures
      var d := Key(lib, pass, raw[4..20]);
      forall p :: Emitted(lib, pass, raw, p) <==> CbcDecrypt(lib, d[..32], d[32..48], raw[20..|raw| - MAC]) == Pad(p)
  {
    hide Envelope, Pad, CbcDecrypt;
    forall p
      ensures
        var d := Key(lib, pass, raw[4..20]);
        Emitted(lib, pass, raw, p) <==> CbcDecrypt(lib, d[..32], d[32..48], raw[20..|raw| - MAC]) == Pad(p)
    {
      Reopen(lib, pass, raw, p);
      if Emitted(lib, pass, raw, p) { EmittedIsSealed(lib, pass, raw, p); }
    }
  }

  lemma UnsealedNeverEmitted(lib: Library, pass: Bytes, raw: Bytes)
    requires Lawful(lib)
    ensures !Sealed(lib, pass, raw) ==> forall p :: !Emitted(lib, pass, raw, p)
  {
    hide Emitted, Sealed;
    forall p
      ensures Emitted(lib, pass, raw, p) ==> Sealed(lib, pass, raw)
    {
      if Emitted(lib, pass, raw, p) { EmittedIsSealed(lib, pass, raw, p); }
    }
  }

  /** DecryptPayload: accepts exactly the envelopes that EncryptPayload emits for some salt, and the legacy
      payloads with well-formed padding; nothing authenticated ever falls back to the legacy path. */
  method DecryptPayload(lib: Library, pass: Bytes, encoded: string) returns (r: Option<Bytes>)
    requires Lawful(lib)
    ensures forall p :: r == Some(p) <==> lib.fromText(encoded).Some? && Opens(lib, pass, lib.fromText(encoded).value, p)
  {
    hide Emitted, LegacyOpens, Sealed;
    if pass == [] { return None; }
    var decoded := lib.fromText(encoded);
    if decoded.None? { return None; }
    var raw := decoded.value;
    NotLegacy(lib, pass, raw);
    NotEmitted(lib, pass, raw);
    if |raw| >= |MAGIC| && raw[..|MAGIC|] == MAGIC {
      assert raw[0] == 0x44;
      r := OpenEnvelope(lib, pass, raw);
    } else if |raw| >= |LEGACY_MAGIC| + LEGACY_SALT && raw[..|LEGACY_MAGIC|] == LEGACY_MAGIC {
      r := OpenLegacy(lib, pass, raw);
    } else {
      return None;
    }
  }

  lemma NotLegacy(lib: Library, pass: Bytes, raw: Bytes)
    requires Lawful(lib)
    ensures !(LEGACY_MAGIC <= raw && |raw| >= 16) ==> forall p :: !LegacyOpens(lib, pass, raw, p)
  {
    hide CbcDecrypt, Pad;
  }

  lemma NotEmitted(lib: Library, pass: Bytes, raw: Bytes)
    requires Lawful(lib)
    ensures !(MAGIC <= raw) ==> forall p :: !Emitted(lib, pass, raw, p)
  {
    hide Emitted;
    UnsealedNeverEmitted(lib, pass, raw);
  }

  method OpenLegacy(lib: Library, pass: Bytes, raw: Bytes) returns (r: Option<Bytes>)
    requires Lawful(lib) && LEGACY_MAGIC <= raw && |raw| >= 16
    ensures forall p :: r == Some(p) <==> LegacyOpens(lib, pass, raw, p)
  {
    hide CbcDecrypt, Pad;
    var derived := lib.kdf(pass, raw[8..16], LEGACY_ITERATIONS, 48);
    r := DecryptCbc(lib, derived[..32], derived[32..48], raw[16..]);
  }

  method OpenEnvelope(lib: Library, pass: Bytes, raw: Bytes) returns (r: Option<Bytes>)
    requires Lawful(lib) && MAGIC <= raw
    ensures forall p :: r == Some(p) <==> Emitted(lib, pass, raw, p)
  {
    hide Emitted, CbcDecrypt, Pad;
    UnsealedNeverEmitted(lib, pass, raw);
    if |raw| <= |MAGIC| + SALT + MAC { return None; }
    var end := |raw| - MAC;
    var text := raw[20..end];
    if |text| == 0 || |text| % BLOCK != 0 { return None; }
    var salt := raw[4..20];
    var derived := lib.kdf(pass, salt, ITERATIONS, 80);
    if lib.mac(derived[48..], raw[..end]) != raw[end..] { return None; }
    SealedOpens(lib, pass, raw);
    r := DecryptCbc(lib, derived[..32], derived[32..48], text);
  }

  /** Decrypting an encrypted payload gives back the plaintext, and only it. */
  lemma RoundTrip(lib: Library, pass: Bytes, salt: Bytes, plain: Bytes, other: Bytes)
    requires Lawful(lib) && pass != [] && |salt| == SALT
    ensures Opens(lib, pass, Envelope(lib, pass, salt, plain), other) <==> other == plain
  {
    EnvelopeParts(lib, pass, salt, plain);
    var raw := Envelope(lib, pass, salt, plain);
    assert raw[0] == 0x44;
    NotLegacy(lib, pass, raw);
    if salt' :| |salt'| == SALT && raw == Envelope(lib, pass, salt', other) {
      EnvelopeParts(lib, pass, salt', other);
      var d := Key(lib, pass, salt);
      CbcRoundTrip(lib, d[..32], d[32..48], Pad(plain));
      CbcRoundTrip(lib, d[..32], d[32..48], Pad(other));
      PadInjective(plain, other);
    }
  }
}
