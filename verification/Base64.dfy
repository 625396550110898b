/**
  Base64 (sections 4 and 5 of RFC 4648) as the control plane uses it: the RFC's encoder, and the
  character-driven decoder behind `base64.b64decode`, in its strict (`validate=True`) and its
  lenient form. Text and bytes are compared through sextets, never through bit-vectors.
 */
module Base64 {
  import opened Options
  import opened Text

  type byte = x: int | 0 <= x < 256
  type sextet = x: int | 0 <= x < 64

  // -- Alphabet -----------------------------------------------------------------------------

  function SextetChar(v: sextet): char {
    if v < 26 then ('A' as int + v) as char
    else if v < 52 then ('a' as int + v - 26) as char
    else if v < 62 then ('0' as int + v - 52) as char
    else if v == 62 then '+' else '/'
  }

  function CharSextet(c: char): Option<sextet> {
    var n := c as int;
    if 'A' <= c <= 'Z' then Some(n - 'A' as int)
    else if 'a' <= c <= 'z' then Some(n - 'a' as int + 26)
    else if '0' <= c <= '9' then Some(n - '0' as int + 52)
    else if c == '+' then Some(62)
    else if c == '/' then Some(63)
    else None
  }

  predicate IsData(c: char) {
    CharSextet(c).Some?
  }

  lemma AlphabetInverse(v: sextet)
    ensures CharSextet(SextetChar(v)) == Some(v)
  {
  }

  /** The alphabet of section 5 of RFC 4648 (Table 2). */
  function UrlSextetChar(v: sextet): char {
    if v == 62 then '-' else if v == 63 then '_' else SextetChar(v)
  }

  const DIGITS := "0123456789"

  /** The alphabets are those of tables 1 and 2 of RFC 4648, in their order. */
  lemma AlphabetIsTable(v: sextet)
    ensures |UPPERS + LOWERS + DIGITS| == 62
    ensures SextetChar(v) == (UPPERS + LOWERS + DIGITS + "+/")[v]
    ensures UrlSextetChar(v) == (UPPERS + LOWERS + DIGITS + "-_")[v]
  {
    if v < 26 {
      assert SextetChar(v) == UPPERS[v];
    } else if v < 52 {
      assert SextetChar(v) == LOWERS[v - 26];
    } else if v < 62 {
      assert SextetChar(v) == DIGITS[v - 52];
    }
  }

  /** How the URL-safe decoding reads a character: as that of section 4 with the same value. */
  function FromUrlChar(c: char): char {
    if c == '-' then '+' else if c == '_' then '/' else c
  }

  function FromUrl(s: string): string {
    seq(|s|, i requires 0 <= i < |s| => FromUrlChar(s[i]))
  }

  function Repeat(c: char, n: nat): string {
    seq(n, _ => c)
  }

  // -- Encoder ------------------------------------------------------------------------------

  function Group(x: byte, y: byte, z: byte): (g: string)
    ensures |g| == 4
  {
    [SextetChar(x / 4), SextetChar(x % 4 * 16 + y / 16), SextetChar(y % 16 * 4 + z / 64), SextetChar(z % 64)]
  }

  /** The data characters of an encoding, without padding. */
  function EncodeData(b: seq<byte>): string {
    if |b| == 0 then ""
    else if |b| == 1 then Group(b[0], 0, 0)[..2]
    else if |b| == 2 then Group(b[0], b[1], 0)[..3]
    else Group(b[0], b[1], b[2]) + EncodeData(b[3..])
  }

  function PadCount(n: nat): nat {
    if n % 3 == 0 then 0 else 3 - n % 3
  }

  /** The 24 bits of a group, most significant first, are its four sextets. */
  lemma GroupIsBigEndian(x: byte, y: byte, z: byte)
    ensures var g := Group(x, y, z);
            forall i :: 0 <= i < 4 ==> IsData(g[i])
    ensures var g := Group(x, y, z);
            ((CharSextet(g[0]).value * 64 + CharSextet(g[1]).value) * 64 + CharSextet(g[2]).value) * 64
              + CharSextet(g[3]).value == (x * 256 + y) * 256 + z
  {
    AlphabetInverse(x / 4);
    AlphabetInverse(x % 4 * 16 + y / 16);
    AlphabetInverse(y % 16 * 4 + z / 64);
    AlphabetInverse(z % 64);
  }

  function Encode(b: seq<byte>): string {
    EncodeData(b) + Repeat('=', PadCount(|b|))
  }

  // -- The URL-safe encoder -----------------------------------------------------------------

  function UrlGroup(x: byte, y: byte, z: byte): (g: string)
    ensures |g| == 4
  {
    [UrlSextetChar(x / 4), UrlSextetChar(x % 4 * 16 + y / 16),
     UrlSextetChar(y % 16 * 4 + z / 64), UrlSextetChar(z % 64)]
  }

  function UrlEncodeData(b: seq<byte>): string {
    if |b| == 0 then ""
    else if |b| == 1 then UrlGroup(b[0], 0, 0)[..2]
    else if |b| == 2 then UrlGroup(b[0], b[1], 0)[..3]
    else UrlGroup(b[0], b[1], b[2]) + UrlEncodeData(b[3..])
  }

  function UrlEncode(b: seq<byte>): string {
    UrlEncodeData(b) + Repeat('=', PadCount(|b|))
  }

  /** `u` is one of two texts, or a mixture of them, character by character. */
  predicate Mixes(u: string, s: string, t: string) {
    |u| == |s| == |t| && forall i :: 0 <= i < |u| ==> u[i] == s[i] || u[i] == t[i]
  }

  lemma FromUrlSextet(v: sextet)
    ensures FromUrlChar(SextetChar(v)) == FromUrlChar(UrlSextetChar(v)) == SextetChar(v)
  {
  }

  lemma GroupTranslates(x: byte, y: byte, z: byte)
    ensures FromUrl(UrlGroup(x, y, z)) == FromUrl(Group(x, y, z)) == Group(x, y, z)
  {
    FromUrlSextet(x / 4);
    FromUrlSextet(x % 4 * 16 + y / 16);
    FromUrlSextet(y % 16 * 4 + z / 64);
    FromUrlSextet(z % 64);
  }

  lemma FromUrlAppend(s: string, t: string)
    ensures FromUrl(s + t) == FromUrl(s) + FromUrl(t)
  {
  }

  lemma FromUrlTake(s: string, n: nat)
    requires n <= |s|
    ensures FromUrl(s[..n]) == FromUrl(s)[..n]
  {
  }

  /** Both encodings read the same under the URL-safe decoding. */
  lemma {:induction false} EncodingsTranslate(b: seq<byte>)
    ensures FromUrl(UrlEncodeData(b)) == FromUrl(EncodeData(b)) == EncodeData(b)
  {
    if |b| == 0 {
    } else if |b| == 1 {
      GroupTranslates(b[0], 0, 0);
      FromUrlTake(Group(b[0], 0, 0), 2);
      FromUrlTake(UrlGroup(b[0], 0, 0), 2);
    } else if |b| == 2 {
      GroupTranslates(b[0], b[1], 0);
      FromUrlTake(Group(b[0], b[1], 0), 3);
      FromUrlTake(UrlGroup(b[0], b[1], 0), 3);
    } else {
      GroupTranslates(b[0], b[1], b[2]);
      EncodingsTranslate(b[3..]);
      FromUrlAppend(Group(b[0], b[1], b[2]), EncodeData(b[3..]));
      FromUrlAppend(UrlGroup(b[0], b[1], b[2]), UrlEncodeData(b[3..]));
    }
  }

  lemma MixtureTranslates(u: string, s: string, t: string)
    requires Mixes(u, s, t) && FromUrl(s) == FromUrl(t) == s
    ensures FromUrl(u) == s
  {
    assert forall i :: 0 <= i < |u| ==> FromUrl(s)[i] == s[i] && FromUrl(t)[i] == s[i];
  }

  /** Any mixture of the two encodings of some bytes reads as the standard one. */
  lemma MixedEncoding(u: string, b: seq<byte>)
    ensures Mixes(u, EncodeData(b), UrlEncodeData(b)) ==> FromUrl(u) == EncodeData(b)
    ensures Mixes(u, Encode(b), UrlEncode(b)) ==> FromUrl(u) == Encode(b)
  {
    EncodingsTranslate(b);
    var pads := Repeat('=', PadCount(|b|));
    assert FromUrl(pads) == pads;
    FromUrlAppend(EncodeData(b), pads);
    FromUrlAppend(UrlEncodeData(b), pads);
    if Mixes(u, EncodeData(b), UrlEncodeData(b)) {
      MixtureTranslates(u, EncodeData(b), UrlEncodeData(b));
    }
    if Mixes(u, Encode(b), UrlEncode(b)) {
      MixtureTranslates(u, Encode(b), UrlEncode(b));
    }
  }

  // -- Decoder ------------------------------------------------------------------------------

  predicate Carry(quad: nat, left: nat) {
    match quad
    case 0 => left == 0
    case 1 => left < 64
    case 2 => left < 16
    case 3 => left < 4
    case _ => false
  }

  /** The byte completed by data value `v` at position `quad` of a group of four. */
  function Emit(quad: nat, left: nat, v: sextet): seq<byte>
    requires Carry(quad, left)
  {
    if quad == 0 then []
    else if quad == 1 then [left * 4 + v / 16]
    else if quad == 2 then [left * 16 + v / 4]
    else [left * 64 + v]
  }

  function Left(quad: nat, v: sextet): nat {
    if quad == 0 then v else if quad == 1 then v % 16 else if quad == 2 then v % 4 else 0
  }

  function Prepend(bs: seq<byte>, r: Option<seq<byte>>): Option<seq<byte>> {
    if r.Some? then Some(bs + r.value) else None
  }

  /**
    One pass over the text: `quad` and `left` are the position in the current group and the bits
    carried over, `pads` counts consecutive padding characters, `padding` records that one was
    seen. The strict form refuses foreign characters, padding where no group is open, data after
    padding, and text after the padding that completes a group; the lenient form skips the former
    and stops at the padding that completes a group.
   */
  function Scan(t: string, strict: bool, quad: nat, left: nat, pads: nat, padding: bool): Option<seq<byte>>
    requires Carry(quad, left)
  {
    if t == "" then
      if quad == 0 then Some([]) else None
    else if t[0] == '=' then
      if strict && quad == 0 then None
      else if quad >= 2 && quad + pads + 1 >= 4 then
        if strict && |t| > 1 then None else Some([])
      else
        Scan(t[1..], strict, quad, left, if quad >= 2 then pads + 1 else pads, true)
    else
      match CharSextet(t[0])
      case None =>
        if strict then None else Scan(t[1..], strict, quad, left, pads, padding)
      case Some(v) =>
        if strict && padding then None
        else Prepend(Emit(quad, left, v),
                     Scan(t[1..], strict, (quad + 1) % 4, Left(quad, v), 0, padding))
  }

  predicate Ascii(t: string) {
    forall i :: 0 <= i < |t| ==> t[i] as int < 128
  }

  /** `base64.b64decode(t, validate=strict)`; `None` stands for the exception. */
  function Decode(t: string, strict: bool): Option<seq<byte>> {
    if Ascii(t) then Scan(t, strict, 0, 0, 0, false) else None
  }

  // -- Round trip ---------------------------------------------------------------------------

  lemma ScanData(t: string, strict: bool, quad: nat, left: nat, pads: nat, v: sextet)
    requires Carry(quad, left) && t != "" && t[0] == SextetChar(v)
    ensures Scan(t, strict, quad, left, pads, false)
         == Prepend(Emit(quad, left, v), Scan(t[1..], strict, (quad + 1) % 4, Left(quad, v), 0, false))
  {
    AlphabetInverse(v);
  }

  lemma PrependTwice(a: seq<byte>, b: seq<byte>, c: seq<byte>, r: Option<seq<byte>>)
    requires c == a + b
    ensures Prepend(a, Prepend(b, r)) == Prepend(c, r)
    ensures Prepend([], r) == r
  {
    if r.Some? {
      assert a + (b + r.value) == c + r.value;
      assert [] + r.value == r.value;
    }
  }

  lemma ScanTwo(t: string, strict: bool, v0: sextet, v1: sextet)
    requires |t| >= 2 && t[0] == SextetChar(v0) && t[1] == SextetChar(v1)
    ensures Scan(t, strict, 0, 0, 0, false)
         == Prepend([v0 * 4 + v1 / 16], Scan(t[2..], strict, 2, v1 % 16, 0, false))
  {
    ScanData(t, strict, 0, 0, 0, v0);
    ScanData(t[1..], strict, 1, v0, 0, v1);
    assert t[1..][1..] == t[2..];
    PrependTwice([], [v0 * 4 + v1 / 16], [v0 * 4 + v1 / 16], Scan(t[2..], strict, 2, v1 % 16, 0, false));
  }

  /** Three data characters carry two bytes and leave two bits over. */
  lemma ScanThree(t: string, strict: bool, v0: sextet, v1: sextet, v2: sextet)
    requires |t| >= 3 && t[0] == SextetChar(v0) && t[1] == SextetChar(v1) && t[2] == SextetChar(v2)
    ensures Scan(t, strict, 0, 0, 0, false)
         == Prepend([v0 * 4 + v1 / 16, v1 % 16 * 16 + v2 / 4], Scan(t[3..], strict, 3, v2 % 4, 0, false))
  {
    ScanTwo(t, strict, v0, v1);
    ScanData(t[2..], strict, 2, v1 % 16, 0, v2);
    assert t[2..][1..] == t[3..];
    PrependTwice([v0 * 4 + v1 / 16], [v1 % 16 * 16 + v2 / 4], [v0 * 4 + v1 / 16, v1 % 16 * 16 + v2 / 4],
                 Scan(t[3..], strict, 3, v2 % 4, 0, false));
  }

  /** Splitting 24 bits into sextets and back. */
  lemma Regroup(x: byte, y: byte, z: byte)
    ensures x / 4 * 4 + (x % 4 * 16 + y / 16) / 16 == x
    ensures (x % 4 * 16 + y / 16) % 16 * 16 + (y % 16 * 4 + z / 64) / 4 == y
    ensures (y % 16 * 4 + z / 64) % 4 * 64 + z % 64 == z
  {
  }

  lemma ScanFinalPad(tail: string, strict: bool, left: nat)
    requires left < 4 && (strict ==> tail == "")
    ensures Scan("=" + tail, strict, 3, left, 0, false) == Some([])
  {
  }

  lemma ScanFinalPads(tail: string, strict: bool, left: nat)
    requires left < 16 && (strict ==> tail == "")
    ensures Scan("==" + tail, strict, 2, left, 0, false) == Some([])
  {
    assert ("==" + tail)[1..] == "=" + tail;
  }

  lemma EncodeLastBytes(x: byte, y: byte)
    ensures Encode([x]) == [SextetChar(x / 4), SextetChar(x % 4 * 16)] + "=="
    ensures Encode([x, y]) ==
            [SextetChar(x / 4), SextetChar(x % 4 * 16 + y / 16), SextetChar(y % 16 * 4)] + "="
  {
    assert Repeat('=', 2) == "==" && Repeat('=', 1) == "=";
    assert EncodeData([x]) == [SextetChar(x / 4), SextetChar(x % 4 * 16)];
    assert EncodeData([x, y]) == [SextetChar(x / 4), SextetChar(x % 4 * 16 + y / 16), SextetChar(y % 16 * 4)];
  }

  lemma ScanLastByte(x: byte, strict: bool, tail: string)
    requires strict ==> tail == ""
    ensures Scan(Encode([x]) + tail, strict, 0, 0, 0, false) == Some([x])
  {
    var t, v1 := Encode([x]) + tail, x % 4 * 16;
    Regroup(x, 0, 0);
    EncodeLastBytes(x, 0);
    ScanTwo(t, strict, x / 4, v1);
    assert t[2..] == "==" + tail;
    ScanFinalPads(tail, strict, v1 % 16);
    assert [x] + [] == [x];
  }

  lemma ScanLastBytes(x: byte, y: byte, strict: bool, tail: string)
    requires strict ==> tail == ""
    ensures Scan(Encode([x, y]) + tail, strict, 0, 0, 0, false) == Some([x, y])
  {
    var t, v1, v2 := Encode([x, y]) + tail, x % 4 * 16 + y / 16, y % 16 * 4;
    Regroup(x, y, 0);
    EncodeLastBytes(x, y);
    ScanThree(t, strict, x / 4, v1, v2);
    assert t[3..] == "=" + tail;
    ScanFinalPad(tail, strict, v2 % 4);
    assert [x, y] + [] == [x, y];
  }

  lemma ScanFour(t: string, strict: bool, v0: sextet, v1: sextet, v2: sextet, v3: sextet)
    requires |t| >= 4
    requires t[0] == SextetChar(v0) && t[1] == SextetChar(v1) && t[2] == SextetChar(v2) && t[3] == SextetChar(v3)
    ensures Scan(t, strict, 0, 0, 0, false)
         == Prepend([v0 * 4 + v1 / 16, v1 % 16 * 16 + v2 / 4, v2 % 4 * 64 + v3], Scan(t[4..], strict, 0, 0, 0, false))
  {
    ScanThree(t, strict, v0, v1, v2);
    ScanData(t[3..], strict, 3, v2 % 4, 0, v3);
    assert t[3..][1..] == t[4..];
    PrependTwice([v0 * 4 + v1 / 16, v1 % 16 * 16 + v2 / 4], [v2 % 4 * 64 + v3],
                 [v0 * 4 + v1 / 16, v1 % 16 * 16 + v2 / 4, v2 % 4 * 64 + v3], Scan(t[4..], strict, 0, 0, 0, false));
  }

  lemma ScanGroup(x: byte, y: byte, z: byte, strict: bool, rest: string)
    ensures Scan(Group(x, y, z) + rest, strict, 0, 0, 0, false) ==
            Prepend([x, y, z], Scan(rest, strict, 0, 0, 0, false))
  {
    Regroup(x, y, z);
    var t := Group(x, y, z) + rest;
    assert t[4..] == rest;
    ScanFour(t, strict, x / 4, x % 4 * 16 + y / 16, y % 16 * 4 + z / 64, z % 64);
  }

  lemma EncodeStep(b: seq<byte>)
    requires |b| >= 3
    ensures Encode(b) == Group(b[0], b[1], b[2]) + Encode(b[3..])
  {
  }

  lemma ScanFirstGroup(b: seq<byte>, strict: bool, tail: string)
    requires |b| >= 3
    ensures Scan(Encode(b) + tail, strict, 0, 0, 0, false)
         == Prepend(b[..3], Scan(Encode(b[3..]) + tail, strict, 0, 0, 0, false))
  {
    EncodeStep(b);
    assert Encode(b) + tail == Group(b[0], b[1], b[2]) + (Encode(b[3..]) + tail);
    ScanGroup(b[0], b[1], b[2], strict, Encode(b[3..]) + tail);
    assert b[..3] == [b[0], b[1], b[2]];
  }

  lemma ScanPrepends(b: seq<byte>, strict: bool, tail: string, rest: Option<seq<byte>>)
    requires |b| >= 3 && Scan(Encode(b[3..]) + tail, strict, 0, 0, 0, false) == rest
    ensures Scan(Encode(b) + tail, strict, 0, 0, 0, false) == Prepend(b[..3], rest)
  {
    ScanFirstGroup(b, strict, tail);
  }

  /** Decoding undoes encoding in both modes: full groups leave the rest of the text to be decoded, padding ends it. */
  lemma {:induction false} ScanEncoded(b: seq<byte>, strict: bool, tail: string)
    requires |b| % 3 == 0 || tail == "" || !strict
    ensures Scan(Encode(b) + tail, strict, 0, 0, 0, false)
         == if |b| % 3 == 0 then Prepend(b, Scan(tail, strict, 0, 0, 0, false)) else Some(b)
    decreases |b|
  {
    if |b| == 0 {
      assert Encode(b) + tail == tail;
      PrependTwice(b, b, b, Scan(tail, strict, 0, 0, 0, false));
    } else if |b| == 1 {
      assert b == [b[0]];
      ScanLastByte(b[0], strict, tail);
    } else if |b| == 2 {
      assert b == [b[0], b[1]];
      ScanLastBytes(b[0], b[1], strict, tail);
    } else {
      var rest := if |b| % 3 == 0 then Prepend(b[3..], Scan(tail, strict, 0, 0, 0, false)) else Some(b[3..]);
      ScanEncoded(b[3..], strict, tail);
      ScanPrepends(b, strict, tail, rest);
      assert b[..3] + b[3..] == b;
      PrependTwice(b[..3], b[3..], b, Scan(tail, strict, 0, 0, 0, false));
    }
  }

  lemma EncodeLength(b: seq<byte>)
    ensures |EncodeData(b)| == |b| + (|b| + 2) / 3
  {
  }

  lemma SextetIsData(v: sextet)
    ensures IsData(SextetChar(v)) && SextetChar(v) as int < 128
  {
  }

  lemma GroupAscii(x: byte, y: byte, z: byte)
    ensures forall i :: 0 <= i < 4 ==> IsData(Group(x, y, z)[i]) && Group(x, y, z)[i] as int < 128
  {
    SextetIsData(x / 4);
    SextetIsData(x % 4 * 16 + y / 16);
    SextetIsData(y % 16 * 4 + z / 64);
    SextetIsData(z % 64);
  }

  lemma {:induction false} EncodeAscii(b: seq<byte>)
    ensures forall i :: 0 <= i < |EncodeData(b)| ==> IsData(EncodeData(b)[i]) && EncodeData(b)[i] as int < 128
  {
    if |b| > 0 {
      var g := Group(b[0], if |b| > 1 then b[1] else 0, if |b| > 2 then b[2] else 0);
      GroupAscii(b[0], if |b| > 1 then b[1] else 0, if |b| > 2 then b[2] else 0);
      if |b| >= 3 {
        EncodeAscii(b[3..]);
        assert EncodeData(b) == g + EncodeData(b[3..]);
      }
    }
  }

  /** RFC 4648: every byte string is recovered from its encoding, strictly or leniently. */
  lemma DecodeEncode(b: seq<byte>, strict: bool)
    ensures Decode(Encode(b), strict) == Some(b)
  {
    EncodeAscii(b);
    assert Ascii(Encode(b));
    ScanEncoded(b, strict, "");
    assert Encode(b) + "" == Encode(b);
    if |b| % 3 == 0 {
      assert b + [] == b;
    }
  }

  // -- What the strict form accepts ---------------------------------------------------------

  /** What follows the leading alphabet characters. */
  function AfterData(t: string): (r: string)
    ensures |r| <= |t|
  {
    if t != "" && IsData(t[0]) then AfterData(t[1..]) else t
  }

  function DataLength(t: string): nat {
    |t| - |AfterData(t)|
  }

  predicate OnlyPads(t: string) {
    t == "" || (t[0] == '=' && OnlyPads(t[1..]))
  }

  predicate PaddingFits(quad: nat, pads: nat) {
    || (quad == 0 && pads == 0)
    || (quad == 2 && pads == 2)
    || (quad == 3 && pads == 1)
  }

  /** Alphabet characters, then exactly the padding that their number calls for. */
  predicate WellFormed(t: string) {
    OnlyPads(AfterData(t)) && PaddingFits(DataLength(t) % 4, |t| - DataLength(t))
  }

  /** The bytes that `n` data characters complete when the first of them is at position `quad`. */
  function BytesOf(quad: nat, n: nat): nat
    decreases n
  {
    if n == 0 then 0 else (if quad % 4 == 0 then 0 else 1) + BytesOf(quad + 1, n - 1)
  }

  lemma {:induction false} BytesOfMod(quad: nat, n: nat)
    ensures BytesOf(quad, n) == BytesOf(quad % 4, n)
    decreases n
  {
    if n > 0 {
      BytesOfMod(quad + 1, n - 1);
      BytesOfMod(quad % 4 + 1, n - 1);
    }
  }

  lemma {:induction false} BytesOfClosed(n: nat)
    ensures BytesOf(0, n) == n - (n + 3) / 4
  {
    if n >= 4 {
      assert BytesOf(0, n) == BytesOf(1, n - 1) == 1 + BytesOf(2, n - 2);
      assert BytesOf(2, n - 2) == 1 + BytesOf(3, n - 3) == 2 + BytesOf(4, n - 4);
      BytesOfMod(4, n - 4);
      BytesOfClosed(n - 4);
    } else if n == 3 {
      assert BytesOf(0, 3) == BytesOf(1, 2) == 1 + BytesOf(2, 1) == 2 + BytesOf(3, 0);
    }
  }

  lemma {:induction false} ScanPadding(t: string, quad: nat, left: nat, pads: nat)
    requires Carry(quad, left) && 1 <= quad <= 2 && pads == quad - 1
    ensures var r := Scan(t, true, quad, left, pads, true);
            (r.Some? <==> OnlyPads(t) && PaddingFits(quad, |t| + pads)) && (r.Some? ==> r.value == [])
    decreases |t|
  {
    if t != "" && t[0] == '=' && quad == 1 {
      ScanPadding(t[1..], quad, left, pads);
    }
  }

  /** What the strict scan of `t` yields when it starts at position `quad` of a group. */
  predicate StrictResult(t: string, quad: nat, r: Option<seq<byte>>) {
    var n := DataLength(t);
    && (r.Some? <==> OnlyPads(AfterData(t)) && PaddingFits((quad + n) % 4, |t| - n))
    && (r.Some? ==> |r.value| == BytesOf(quad, n))
  }

  lemma ScanStrictEnd(t: string, quad: nat, left: nat)
    requires Carry(quad, left) && (t == "" || !IsData(t[0]))
    ensures StrictResult(t, quad, Scan(t, true, quad, left, 0, false))
  {
    assert AfterData(t) == t && DataLength(t) == 0;
    assert (quad + 0) % 4 == quad;
    if t != "" && t[0] == '=' && 1 <= quad <= 2 {
      ScanPadding(t[1..], quad, left, quad - 1);
    } else if quad == 3 && |t| == 1 {
      assert t[1..] == "" && OnlyPads(t[1..]);
      assert OnlyPads(t) <==> t[0] == '=';
    } else if quad == 0 && t != "" {
      assert !PaddingFits(quad, |t|);
    }
  }

  lemma NextQuad(quad: nat, n: nat)
    requires quad < 4
    ensures ((quad + 1) % 4 + n) % 4 == (quad + (n + 1)) % 4
  {
    if quad == 3 {
      assert (n + 4) % 4 == n % 4;
    }
  }

  lemma StrictResultStep(t: string, quad: nat, left: nat, rest: Option<seq<byte>>)
    requires Carry(quad, left) && t != "" && IsData(t[0])
    requires StrictResult(t[1..], (quad + 1) % 4, rest)
    ensures StrictResult(t, quad, Prepend(Emit(quad, left, CharSextet(t[0]).value), rest))
  {
    var n := DataLength(t[1..]);
    assert DataLength(t) == n + 1;
    BytesOfMod(quad + 1, n);
    NextQuad(quad, n);
  }

  lemma {:induction false} ScanStrict(t: string, quad: nat, left: nat)
    requires Carry(quad, left)
    ensures StrictResult(t, quad, Scan(t, true, quad, left, 0, false))
    decreases |t|
  {
    if t == "" || !IsData(t[0]) {
      ScanStrictEnd(t, quad, left);
    } else {
      var v := CharSextet(t[0]).value;
      ScanStrict(t[1..], (quad + 1) % 4, Left(quad, v));
      StrictResultStep(t, quad, left, Scan(t[1..], true, (quad + 1) % 4, Left(quad, v), 0, false));
    }
  }

  lemma {:induction false} WellFormedIsAscii(t: string)
    requires OnlyPads(AfterData(t))
    ensures Ascii(t)
  {
    if t == "" {
    } else {
      WellFormedIsAscii(t[1..]);
      assert t == [t[0]] + t[1..];
    }
  }

  /** The strict decoder accepts exactly the well-formed texts, and their length fixes the byte count. */
  lemma StrictAccepts(t: string)
    ensures Decode(t, true).Some? <==> WellFormed(t)
    ensures Decode(t, true).Some? ==> |Decode(t, true).value| == DataLength(t) - (DataLength(t) + 3) / 4
  {
    ScanStrict(t, 0, 0);
    BytesOfClosed(DataLength(t));
    if OnlyPads(AfterData(t)) {
      WellFormedIsAscii(t);
    }
  }

  // -- What the lenient form ignores --------------------------------------------------------

  /** The characters the lenient decoder looks at. */
  function Relevant(t: string): string {
    if t == "" then ""
    else if t[0] == '=' || IsData(t[0]) then [t[0]] + Relevant(t[1..])
    else Relevant(t[1..])
  }

  lemma {:induction false} ScanIgnoresJunk(t: string, quad: nat, left: nat, pads: nat, padding: bool)
    requires Carry(quad, left)
    ensures Scan(t, false, quad, left, pads, padding) == Scan(Relevant(t), false, quad, left, pads, padding)
    decreases |t|
  {
    if t == "" {
    } else if t[0] == '=' {
      assert Relevant(t)[1..] == Relevant(t[1..]);
      ScanIgnoresJunk(t[1..], quad, left, if quad >= 2 then pads + 1 else pads, true);
    } else if IsData(t[0]) {
      assert Relevant(t)[1..] == Relevant(t[1..]);
      ScanIgnoresJunk(t[1..], (quad + 1) % 4, Left(quad, CharSextet(t[0]).value), 0, padding);
    } else {
      ScanIgnoresJunk(t[1..], quad, left, pads, padding);
    }
  }

  /** The characters of either alphabet, and padding. */
  predicate Meaningful(c: char) {
    || 'A' <= c <= 'Z' || 'a' <= c <= 'z' || '0' <= c <= '9'
    || c == '+' || c == '/' || c == '-' || c == '_' || c == '='
  }

  /** A text without its foreign characters. */
  function Unwrapped(t: string): string {
    if t == "" then ""
    else if Meaningful(t[0]) then [t[0]] + Unwrapped(t[1..])
    else Unwrapped(t[1..])
  }

  lemma {:induction false} UnwrappedTranslates(t: string)
    ensures Relevant(FromUrl(t)) == FromUrl(Unwrapped(t))
  {
    if t == "" {
    } else {
      UnwrappedTranslates(t[1..]);
      assert FromUrl(t)[1..] == FromUrl(t[1..]);
      FromUrlAppend([t[0]], Unwrapped(t[1..]));
      assert FromUrl(t)[0] == FromUrlChar(t[0]);
    }
  }

  lemma {:induction false} UnwrappedAppend(s: string, t: string)
    ensures Unwrapped(s + t) == Unwrapped(s) + Unwrapped(t)
  {
    if s == "" {
      assert s + t == t;
    } else {
      assert (s + t)[1..] == s[1..] + t;
      UnwrappedAppend(s[1..], t);
    }
  }

  /** A foreign character anywhere is dropped, any other kept where it is. */
  lemma UnwrappedExactly(a: string, c: char, b: string)
    ensures Unwrapped(a + [c] + b) == Unwrapped(a) + (if Meaningful(c) then [c] else "") + Unwrapped(b)
  {
    UnwrappedAppend(a + [c], b);
    UnwrappedAppend(a, [c]);
    assert [c][1..] == "";
  }

  lemma {:induction false} RelevantAppend(s: string, t: string)
    ensures Relevant(s + t) == Relevant(s) + Relevant(t)
  {
    if s == "" {
      assert s + t == t;
    } else {
      assert (s + t)[1..] == s[1..] + t;
      RelevantAppend(s[1..], t);
    }
  }

  lemma {:induction false} RelevantFixed(t: string)
    requires forall i :: 0 <= i < |t| ==> t[i] == '=' || IsData(t[i])
    ensures Relevant(t) == t
  {
    if t == "" {
    } else {
      RelevantFixed(t[1..]);
    }
  }

  function CountData(t: string): nat {
    if t == "" then 0 else (if IsData(t[0]) then 1 else 0) + CountData(t[1..])
  }

  /** No lenient decoding produces more bytes than its data characters complete. */
  lemma {:induction false} ScanLength(t: string, quad: nat, left: nat, pads: nat, padding: bool)
    requires Carry(quad, left)
    ensures var r := Scan(t, false, quad, left, pads, padding);
            r.Some? ==> |r.value| <= BytesOf(quad, CountData(t))
    decreases |t|
  {
    if t == "" {
    } else if t[0] == '=' {
      ScanLength(t[1..], quad, left, if quad >= 2 then pads + 1 else pads, true);
    } else if IsData(t[0]) {
      ScanLength(t[1..], (quad + 1) % 4, Left(quad, CharSextet(t[0]).value), 0, padding);
      BytesOfMod(quad + 1, CountData(t[1..]));
    } else {
      ScanLength(t[1..], quad, left, pads, padding);
    }
  }

  lemma {:induction false} CountRelevant(t: string)
    ensures CountData(Relevant(t)) == CountData(t)
  {
    if t == "" {
    } else {
      CountRelevant(t[1..]);
    }
  }

  lemma {:induction false} CountAppend(s: string, t: string)
    ensures CountData(s + t) == CountData(s) + CountData(t)
  {
    if s == "" {
      assert s + t == t;
    } else {
      assert (s + t)[1..] == s[1..] + t;
      CountAppend(s[1..], t);
    }
  }

  lemma {:induction false} CountAllData(t: string)
    requires forall i :: 0 <= i < |t| ==> IsData(t[i])
    ensures CountData(t) == |t|
  {
    if t == "" {
    } else {
      CountAllData(t[1..]);
    }
  }

  /** Reading a text in the standard alphabet loses a data character for every URL-safe one in it. */
  lemma {:induction false} CountFromUrl(t: string)
    ensures CountData(t) <= CountData(FromUrl(t))
    ensures CountData(t) == CountData(FromUrl(t)) ==> FromUrl(t) == t
  {
    if t == "" {
    } else {
      CountFromUrl(t[1..]);
      assert FromUrl(t)[1..] == FromUrl(t[1..]);
      assert t == [t[0]] + t[1..] && FromUrl(t) == [FromUrlChar(t[0])] + FromUrl(t[1..]);
    }
  }

  /** Data characters that end two short of a group, with less than their padding, do not decode. */
  lemma {:induction false} ScanUnpadded(b: seq<byte>, pad: string)
    requires |b| % 3 == 1 && (pad == "" || pad == "=")
    ensures Scan(EncodeData(b) + pad, false, 0, 0, 0, false) == None
    decreases |b|
  {
    if |b| == 1 {
      var v1 := b[0] % 4 * 16;
      var t := EncodeData(b) + pad;
      ScanTwo(t, false, b[0] / 4, v1);
      assert t[2..] == pad;
      assert pad != "" ==> pad[1..] == "";
    } else {
      ScanUnpadded(b[3..], pad);
      assert EncodeData(b) + pad == Group(b[0], b[1], b[2]) + (EncodeData(b[3..]) + pad);
      ScanGroup(b[0], b[1], b[2], false, EncodeData(b[3..]) + pad);
    }
  }

  lemma {:induction false} ScanPads(n: nat, quad: nat, left: nat, padding: bool)
    requires Carry(quad, left) && (quad >= 2 ==> n >= 2)
    ensures Scan(Repeat('=', n), false, quad, left, 0, padding) == if quad == 1 then None else Some([])
  {
    var t := Repeat('=', n);
    if n == 0 {
      assert t == "";
    } else {
      assert t[1..] == Repeat('=', n - 1);
      if quad < 2 {
        ScanPads(n - 1, quad, left, true);
      } else {
        assert t[1..][1..] == Repeat('=', n - 2);
      }
    }
  }

  lemma ScanOne(t: string, quad: nat, left: nat)
    requires t != "" && IsData(t[0]) && Carry(quad, left)
    ensures var v := CharSextet(t[0]).value;
            && |Emit(quad, left, v)| == (if quad == 0 then 0 else 1)
            && Scan(t, false, quad, left, 0, false) ==
               Prepend(Emit(quad, left, v), Scan(t[1..], false, (quad + 1) % 4, Left(quad, v), 0, false))
  {
  }

  lemma NextQuadOf(quad: nat, n: nat)
    requires quad < 4 && n > 0
    ensures BytesOf(quad, n) == (if quad == 0 then 0 else 1) + BytesOf((quad + 1) % 4, n - 1)
  {
    BytesOfMod(quad + 1, n - 1);
  }

  /** What `n` data characters from position `quad` on, and enough padding, come to. */
  predicate DataResult(r: Option<seq<byte>>, quad: nat, n: nat) {
    && (r.Some? <==> (quad + n) % 4 != 1)
    && (r.Some? ==> |r.value| == BytesOf(quad, n))
  }

  lemma DataResultStep(a: seq<byte>, rest: Option<seq<byte>>, quad: nat, n: nat)
    requires quad < 4 && n > 0 && |a| == (if quad == 0 then 0 else 1) && DataResult(rest, (quad + 1) % 4, n - 1)
    ensures DataResult(Prepend(a, rest), quad, n)
  {
    NextQuadOf(quad, n);
    NextQuad(quad, n - 1);
  }

  /**
    Data characters before at least two padding characters decode unless one is left over, and to as
    many bytes as they complete.
   */
  lemma {:induction false} ScanDataPads(d: string, n: nat, quad: nat, left: nat)
    requires Carry(quad, left) && n >= 2 && forall i :: 0 <= i < |d| ==> IsData(d[i])
    ensures DataResult(Scan(d + Repeat('=', n), false, quad, left, 0, false), quad, |d|)
    decreases |d|
  {
    var t := d + Repeat('=', n);
    if d == "" {
      assert t == Repeat('=', n);
      ScanPads(n, quad, left, false);
    } else {
      var v, rest, q := CharSextet(d[0]).value, d[1..] + Repeat('=', n), (quad + 1) % 4;
      assert t[0] == d[0] && t[1..] == rest;
      ScanOne(t, quad, left);
      ScanDataPads(d[1..], n, q, Left(quad, v));
      DataResultStep(Emit(quad, left, v), Scan(rest, false, q, Left(quad, v), 0, false), quad, |d|);
    }
  }

  /** How many characters only the URL-safe alphabet has. */
  function CountUrl(t: string): nat {
    if t == "" then 0 else (if t[0] == '-' || t[0] == '_' then 1 else 0) + CountUrl(t[1..])
  }

  /** Without padding in it, a text has those data characters more in the URL-safe reading. */
  lemma {:induction false} UrlReadingGrows(t: string)
    requires '=' !in t
    ensures var r := Relevant(FromUrl(t));
            |r| == |Relevant(t)| + CountUrl(t) && forall i :: 0 <= i < |r| ==> IsData(r[i])
  {
    if t == "" {
    } else {
      UrlReadingGrows(t[1..]);
      assert FromUrl(t)[1..] == FromUrl(t[1..]);
      assert FromUrl(t)[0] == FromUrlChar(t[0]);
    }
  }
}
