/** Decoding of trusted Ed25519 public keys and of detached signatures (trust.py). */
module Signatures {
  import opened Options
  import opened Text
  import opened Base64

  const KEY_BYTES := 32
  const SIGNATURE_BYTES := 64

  // -- Public keys --------------------------------------------------------------------------

  function Cleaned(publicKey: string): string {
    Without(Without(Strip(publicKey), '\n'), ' ')
  }

  /** `_decode_public_key`; `None` stands for the `ValueError`. */
  function DecodePublicKey(publicKey: string): Option<seq<byte>> {
    var raw := Decode(Cleaned(publicKey), true);
    if raw.Some? && |raw.value| == KEY_BYTES then raw else None
  }

  lemma EncodedIsDense(b: seq<byte>, i: nat)
    requires i < |Encode(b)|
    ensures Encode(b)[i] == '=' || IsData(Encode(b)[i])
    ensures !IsSpace(Encode(b)[i])
  {
    EncodeAscii(b);
    assert i >= |EncodeData(b)| ==> Encode(b)[i] == '=';
  }

  lemma CleanedEnd(p: string)
    requires Blank(p)
    ensures Blank(Without(Without(p, '\n'), ' '))
  {
    WithoutKeepsBlank(p, '\n');
    WithoutKeepsBlank(Without(p, '\n'), ' ');
  }

  /**
    A 32-byte key is recovered from its encoding wherever spaces and newlines were inserted in it,
    and whatever whitespace surrounds it.
   */
  lemma KeyRecovered(key: seq<byte>, a: string, u: string, b: string)
    requires |key| == KEY_BYTES && Blank(a) && Blank(b)
    requires Without(Without(u, '\n'), ' ') == Encode(key)
    ensures DecodePublicKey(a + u + b) == Some(key)
  {
    TrimIgnoresEnds(IsSpace, a, u, b);
    var p, q := TrimSplits(IsSpace, u);
    var core := Strip(u);
    CleanedEnd(p);
    CleanedEnd(q);
    WithoutAppend(p + core, q, '\n');
    WithoutAppend(p, core, '\n');
    WithoutAppend(Without(p, '\n') + Without(core, '\n'), Without(q, '\n'), ' ');
    WithoutAppend(Without(p, '\n'), Without(core, '\n'), ' ');
    var p', c', q' := Without(Without(p, '\n'), ' '), Cleaned(u), Without(Without(q, '\n'), ' ');
    assert Encode(key) == p' + c' + q';
    if p' == "" {
    } else {
      EncodedIsDense(key, 0);
    }
    if q' == "" {
    } else {
      EncodedIsDense(key, |Encode(key)| - 1);
    }
    assert c' == Encode(key);
    DecodeEncode(key, true);
  }

  predicate KeyShaped(c: string) {
    |c| == 44 && c[43] == '=' && forall i :: 0 <= i < 43 ==> IsData(c[i])
  }

  lemma {:induction false} DataLengthCounts(t: string, n: nat)
    requires n <= |t| && (forall i :: 0 <= i < n ==> IsData(t[i])) && (n < |t| ==> !IsData(t[n]))
    ensures AfterData(t) == t[n..]
  {
    if n > 0 {
      DataLengthCounts(t[1..], n - 1);
    }
  }

  lemma {:induction false} AfterDataSplits(t: string)
    ensures var n := DataLength(t);
            t[n..] == AfterData(t) && forall i :: 0 <= i < n ==> IsData(t[i])
  {
    if t != "" && IsData(t[0]) {
      AfterDataSplits(t[1..]);
      forall i | 0 <= i < DataLength(t) ensures IsData(t[i]) {
        if i > 0 {
          assert t[i] == t[1..][i - 1];
        }
      }
    }
  }

  lemma ShapedIsWellFormed(c: string)
    requires KeyShaped(c)
    ensures WellFormed(c) && DataLength(c) == 43
  {
    assert CharSextet('=') == None;
    DataLengthCounts(c, 43);
    assert c[43..] == "=" && "="[1..] == "";
  }

  lemma WellFormedIsShaped(c: string)
    requires WellFormed(c) && DataLength(c) == 43
    ensures KeyShaped(c)
  {
    AfterDataSplits(c);
    assert PaddingFits(3, |c| - 43);
    assert c[43] == AfterData(c)[0] == '=';
  }

  /** A key text is accepted exactly when 43 alphabet characters and one `=` remain of it. */
  lemma KeyAccepted(publicKey: string)
    ensures DecodePublicKey(publicKey).Some? <==> KeyShaped(Cleaned(publicKey))
  {
    var c := Cleaned(publicKey);
    StrictAccepts(c);
    if KeyShaped(c) {
      ShapedIsWellFormed(c);
    }
    if WellFormed(c) && DataLength(c) == 43 {
      WellFormedIsShaped(c);
    }
  }

  // -- Signatures ---------------------------------------------------------------------------

  function Padding(n: nat): nat {
    -(n as int) % 4
  }

  /** The text with the padding that `decode_signature` appends. */
  function Padded(text: string): string {
    text + Repeat('=', Padding(|text|))
  }

  /** `urlsafe_b64decode`, and the standard alphabet when that raises. */
  function DecodeEither(padded: string): Option<seq<byte>> {
    var url := Decode(FromUrl(padded), false);
    if url.Some? then url else Decode(padded, false)
  }

  /**
    `decode_signature`, where `text` is what UTF-8 decoding (invalid bytes ignored) makes of the
    bytes; `None` stands for the `ValueError`.
   */
  function DecodeSignature(raw: seq<byte>, text: string): Option<seq<byte>> {
    if |raw| == SIGNATURE_BYTES then Some(raw)
    else if Strip(text) == "" then None
    else
      var r := DecodeEither(Padded(Strip(text)));
      if r.Some? && |r.value| == SIGNATURE_BYTES then r else None
  }

  /** The text of a signature: in the standard alphabet, the URL-safe one, or a mixture of the two; padded or not. */
  predicate Spells(u: string, sig: seq<byte>) {
    Mixes(u, Encode(sig), UrlEncode(sig)) || Mixes(u, EncodeData(sig), UrlEncodeData(sig))
  }

  lemma SpelledIsTrimmed(u: string, sig: seq<byte>)
    requires Spells(u, sig)
    ensures Trimmed(u)
  {
    MixedEncoding(u, sig);
    if u == "" {
    } else {
      EncodedIsDense(sig, 0);
      EncodedIsDense(sig, |u| - 1);
      assert Encode(sig)[0] == FromUrl(u)[0] && Encode(sig)[|u| - 1] == FromUrl(u)[|u| - 1];
    }
  }

  lemma FromUrlAppendPads(t: string, n: nat)
    ensures FromUrl(t + Repeat('=', n)) == FromUrl(t) + Repeat('=', n)
  {
  }

  /** Appending the missing padding completes either spelling of an encoding. */
  lemma PaddedSpelling(sig: seq<byte>, u: string)
    requires |sig| == SIGNATURE_BYTES && Spells(u, sig)
    ensures FromUrl(Padded(u)) == Encode(sig)
  {
    EncodeLength(sig);
    MixedEncoding(u, sig);
    FromUrlAppendPads(u, Padding(|u|));
    if Mixes(u, Encode(sig), UrlEncode(sig)) {
      assert |u| == 88 && Padding(88) == 0;
      assert Repeat('=', 0) == "";
    } else {
      assert |u| == 86 && Padding(86) == 2;
    }
  }

  /**
    A 64-byte signature is recovered from its raw bytes and from its text: in either alphabet or a
    mixture of them, padded or not, with any whitespace around it. (UTF-8 never yields more characters than bytes.)
   */
  lemma SignatureRecovered(sig: seq<byte>, raw: seq<byte>, a: string, u: string, b: string)
    requires |sig| == SIGNATURE_BYTES && Blank(a) && Blank(b) && |a + u + b| <= |raw| && Spells(u, sig)
    ensures DecodeSignature(raw, a + u + b) == Some(sig)
    ensures forall text :: DecodeSignature(sig, text) == Some(sig)
  {
    EncodeLength(sig);
    TrimIgnoresEnds(IsSpace, a, u, b);
    MixedEncoding(u, sig);
    SpelledIsTrimmed(u, sig);
    TrimmedIsFixed(u);
    PaddedSpelling(sig, u);
    DecodeEncode(sig, false);
  }

  /** A character outside ASCII makes a signature text unreadable, wherever it stands but at its trimmed ends. */
  lemma NonAsciiRefused(raw: seq<byte>, text: string, i: nat)
    requires |raw| != SIGNATURE_BYTES && i < |Strip(text)| && Strip(text)[i] as int >= 128
    ensures DecodeSignature(raw, text) == None
  {
    var padded := Padded(Strip(text));
    assert padded[i] as int >= 128 && FromUrl(padded)[i] as int >= 128;
  }

  /** The padded, translated text as the lenient decoder sees it. */
  lemma RelevantPadded(text: string)
    ensures Relevant(FromUrl(Padded(text))) == Relevant(FromUrl(text)) + Repeat('=', Padding(|text|))
  {
    FromUrlAppendPads(text, Padding(|text|));
    RelevantAppend(FromUrl(text), Repeat('=', Padding(|text|)));
    RelevantFixed(Repeat('=', Padding(|text|)));
  }

  lemma FromUrlAscii(t: string)
    requires Ascii(t)
    ensures Ascii(FromUrl(t))
  {
    forall i | 0 <= i < |t| ensures FromUrl(t)[i] as int < 128 {
      assert t[i] as int < 128;
    }
  }

  /** What the URL-safe attempt scans: the data characters and the appended padding. */
  lemma FirstAttemptScans(core: string, data: string)
    requires Ascii(core) && Relevant(FromUrl(core)) == data
    ensures Decode(FromUrl(Padded(core)), false) == Scan(data + Repeat('=', Padding(|core|)), false, 0, 0, 0, false)
  {
    RelevantPadded(core);
    FromUrlAscii(Padded(core));
    ScanIgnoresJunk(FromUrl(Padded(core)), 0, 0, 0, false);
  }

  /** Foreign characters inside a padded signature text, such as the newlines of wrapped output, are harmless. */
  lemma PaddedSignatureMayBeWrapped(sig: seq<byte>, raw: seq<byte>, text: string)
    requires |sig| == SIGNATURE_BYTES && |raw| != SIGNATURE_BYTES && Ascii(Strip(text))
    requires Mixes(Unwrapped(Strip(text)), Encode(sig), UrlEncode(sig))
    ensures DecodeSignature(raw, text) == Some(sig)
  {
    var core := Strip(text);
    UnwrappedTranslates(core);
    MixedEncoding(Unwrapped(core), sig);
    EncodeLength(sig);
    FirstAttemptScans(core, Encode(sig));
    ScanEncoded(sig, false, Repeat('=', Padding(|core|)));
  }

  /** The URL-safe attempt succeeds only when two padding characters are appended. */
  lemma UnpaddedFirstAttempt(sig: seq<byte>, core: string)
    requires |sig| == SIGNATURE_BYTES && Ascii(core) && Relevant(FromUrl(core)) == EncodeData(sig)
    ensures Decode(FromUrl(Padded(core)), false) == if Padding(|core|) >= 2 then Some(sig) else None
  {
    FirstAttemptScans(core, EncodeData(sig));
    var p := Padding(|core|);
    if p >= 2 {
      assert EncodeData(sig) + Repeat('=', p) == Encode(sig) + Repeat('=', p - 2);
      ScanEncoded(sig, false, Repeat('=', p - 2));
    } else {
      assert Repeat('=', p) == "" || Repeat('=', p) == "=";
      ScanUnpadded(sig, Repeat('=', p));
    }
  }

  lemma {:induction false} CountPads(n: nat)
    ensures CountData(Repeat('=', n)) == 0
  {
    if n > 0 {
      assert Repeat('=', n)[1..] == Repeat('=', n - 1);
      CountPads(n - 1);
    }
  }

  lemma UnpaddedCount(sig: seq<byte>, text: string)
    requires |sig| == SIGNATURE_BYTES && Relevant(FromUrl(text)) == EncodeData(sig)
    ensures CountData(FromUrl(Padded(text))) == 86
  {
    EncodeAscii(sig);
    EncodeLength(sig);
    var p := Repeat('=', Padding(|text|));
    FromUrlAppendPads(text, Padding(|text|));
    CountAppend(FromUrl(text), p);
    CountRelevant(FromUrl(text));
    CountAllData(EncodeData(sig));
    CountPads(Padding(|text|));
  }

  /** When the first attempt raises, the second one cannot yield 64 bytes either. */
  lemma UnpaddedSecondAttempt(sig: seq<byte>, core: string)
    requires |sig| == SIGNATURE_BYTES && Relevant(FromUrl(core)) == EncodeData(sig)
    requires Decode(FromUrl(Padded(core)), false) == None
    ensures var r := Decode(Padded(core), false);
            r.Some? ==> |r.value| < SIGNATURE_BYTES
  {
    UnpaddedCount(sig, core);
    CountFromUrl(Padded(core));
    ScanLength(Padded(core), 0, 0, 0, false);
    BytesOfClosed(CountData(Padded(core)));
  }

  lemma PaddingAfter86(n: nat)
    ensures Padding(n) >= 2 <==> (n - 86) % 4 == 0 || (n - 86) % 4 == 3
  {
  }

  /**
    Without its padding, a signature text survives `k` foreign characters inside it exactly when
    `k` leaves a remainder of 0 or 3 modulo 4: the appended padding is counted on the unfiltered
    length. A single line break therefore makes an unpadded signature unreadable.
   */
  lemma UnpaddedSignatureWrapped(sig: seq<byte>, raw: seq<byte>, text: string)
    requires |sig| == SIGNATURE_BYTES && |raw| != SIGNATURE_BYTES && Ascii(Strip(text))
    requires Mixes(Unwrapped(Strip(text)), EncodeData(sig), UrlEncodeData(sig))
    ensures var k := |Strip(text)| - 86;
            DecodeSignature(raw, text) == if k % 4 == 0 || k % 4 == 3 then Some(sig) else None
  {
    var core := Strip(text);
    UnwrappedTranslates(core);
    MixedEncoding(Unwrapped(core), sig);
    UnpaddedFirstAttempt(sig, core);
    if Padding(|core|) < 2 {
      UnpaddedSecondAttempt(sig, core);
    }
    EncodeLength(sig);
    PaddingAfter86(|core|);
  }

  lemma PaddingIsRelevant(p: string)
    ensures Relevant(FromUrl(p + "==")) == Relevant(FromUrl(p)) + "=="
  {
    FromUrlAppend(p, "==");
    assert FromUrl("==") == "==";
    RelevantAppend(FromUrl(p), "==");
    RelevantFixed("==");
  }

  lemma PaddedFirstScans(p: string)
    requires Ascii(p)
    ensures var k := Padding(|p + "=="|);
            Decode(FromUrl(Padded(p + "==")), false) ==
            Scan(Relevant(FromUrl(p)) + Repeat('=', k + 2), false, 0, 0, 0, false)
  {
    var d, k := Relevant(FromUrl(p)), Padding(|p + "=="|);
    PaddingIsRelevant(p);
    assert Ascii(p + "==");
    FirstAttemptScans(p + "==", d + "==");
    assert d + "==" + Repeat('=', k) == d + Repeat('=', k + 2);
  }

  /** What the URL-safe attempt makes of a text that ends in its padding. */
  lemma PaddedFirstAttempt(p: string, n: nat)
    requires Ascii(p) && '=' !in p && |Relevant(p)| == n
    ensures var url, m := Decode(FromUrl(Padded(p + "==")), false), n + CountUrl(p);
            && (url.None? <==> m % 4 == 1)
            && (url.Some? ==> |url.value| == BytesOf(0, m))
  {
    PaddedFirstScans(p);
    UrlReadingGrows(p);
    ScanDataPads(Relevant(FromUrl(p)), Padding(|p + "=="|) + 2, 0, 0);
  }

  /** The standard attempt reads it whatever other characters there are. */
  lemma PaddedSecondAttempt(sig: seq<byte>, p: string)
    requires |sig| == SIGNATURE_BYTES && Ascii(p) && Relevant(p) == EncodeData(sig)
    ensures Decode(Padded(p + "=="), false) == Some(sig)
  {
    var n := Padding(|p| + 2);
    EncodeLength(sig);
    RelevantFixed("==" + Repeat('=', n));
    RelevantAppend(p, "==" + Repeat('=', n));
    assert Padded(p + "==") == p + ("==" + Repeat('=', n));
    assert EncodeData(sig) + ("==" + Repeat('=', n)) == Encode(sig) + Repeat('=', n);
    ScanIgnoresJunk(Padded(p + "=="), 0, 0, 0, false);
    ScanEncoded(sig, false, Repeat('=', n));
  }

  lemma {:induction false} PlainReading(p: string)
    requires CountUrl(p) == 0
    ensures FromUrl(p) == p && FromUrl(Padded(p + "==")) == Padded(p + "==")
  {
    if p == "" {
    } else {
      PlainReading(p[1..]);
      assert forall i :: 0 < i < |p| ==> FromUrl(p)[i] == FromUrl(p[1..])[i - 1];
      assert FromUrl(p)[0] == p[0];
    }
  }

  lemma BytesOfMore(k: nat)
    requires k % 4 != 3
    ensures BytesOf(0, 86 + k) == SIGNATURE_BYTES <==> k == 0
  {
    BytesOfClosed(86 + k);
  }

  lemma FirstDecides(padded: string)
    requires Decode(FromUrl(padded), false).Some?
    ensures DecodeEither(padded) == Decode(FromUrl(padded), false)
  {
  }

  lemma SecondDecides(padded: string)
    requires Decode(FromUrl(padded), false).None? || FromUrl(padded) == padded
    ensures DecodeEither(padded) == Decode(padded, false)
  {
  }

  /** `decode_signature` on trimmed text of another length than a raw signature. */
  lemma TextDecides(raw: seq<byte>, core: string, r: Option<seq<byte>>)
    requires |raw| != SIGNATURE_BYTES && core != "" && Trimmed(core) && DecodeEither(Padded(core)) == r
    ensures DecodeSignature(raw, core) == if r.Some? && |r.value| == SIGNATURE_BYTES then r else None
  {
    TrimmedIsFixed(core);
  }

  lemma HyphensMislead(raw: seq<byte>, p: string, k: nat)
    requires |raw| != SIGNATURE_BYTES && Trimmed(p + "==") && Ascii(p) && '=' !in p && |Relevant(p)| == 86
    requires k == CountUrl(p) && k > 0 && k % 4 != 3
    ensures DecodeSignature(raw, p + "==") == None
  {
    var padded := Padded(p + "==");
    PaddedFirstAttempt(p, 86);
    FirstDecides(padded);
    BytesOfMore(k);
    TextDecides(raw, p + "==", DecodeEither(padded));
  }

  lemma SecondReads(sig: seq<byte>, raw: seq<byte>, p: string)
    requires |sig| == SIGNATURE_BYTES && |raw| != SIGNATURE_BYTES && Trimmed(p + "==")
    requires Ascii(p) && Relevant(p) == EncodeData(sig)
    requires var padded := Padded(p + "=="); Decode(FromUrl(padded), false).None? || FromUrl(padded) == padded
    ensures DecodeSignature(raw, p + "==") == Some(sig)
  {
    PaddedSecondAttempt(sig, p);
    SecondDecides(Padded(p + "=="));
    TextDecides(raw, p + "==", Some(sig));
  }

  lemma FirstRaises(p: string)
    requires Ascii(p) && '=' !in p && |Relevant(p)| == 86 && CountUrl(p) % 4 == 3
    ensures Decode(FromUrl(Padded(p + "==")), false).None?
  {
    PaddedFirstAttempt(p, 86);
  }

  /**
    In a padded text of the standard alphabet, `k` hyphens and underscores are foreign characters to
    the second attempt but data to the first. The signature is read exactly when there is none, or when
    `k` leaves 3 modulo 4: only then does the first attempt raise.
   */
  lemma HyphensInStandardText(sig: seq<byte>, raw: seq<byte>, p: string)
    requires |sig| == SIGNATURE_BYTES && |raw| != SIGNATURE_BYTES && Trimmed(p + "==")
    requires Ascii(p) && '=' !in p && Relevant(p) == EncodeData(sig)
    ensures var k := CountUrl(p);
            DecodeSignature(raw, p + "==") == if k == 0 || k % 4 == 3 then Some(sig) else None
  {
    EncodeLength(sig);
    var k := CountUrl(p);
    if k == 0 {
      PlainReading(p);
      SecondReads(sig, raw, p);
    } else if k % 4 == 3 {
      FirstRaises(p);
      SecondReads(sig, raw, p);
    } else {
      HyphensMislead(raw, p, k);
    }
  }
}
