/**
  The App Store trust policy: the stored key list, its edits, and the verdict on an archive (trust.py,
  app_store.py).
 */
module Trust {
  import opened Options
  import opened Text
  import opened Base64
  import opened Signatures

  datatype TrustKey = TrustKey(id: string, name: string, publicKey: string)

  datatype TrustDoc = TrustDoc(allowUnsigned: bool, keys: seq<TrustKey>)

  const DEFAULT_TRUST := TrustDoc(true, [])

  /**
    What lies outside the model: UTF-8 decoding with invalid bytes ignored, and the Ed25519 check of
    (key, message, signature).
   */
  datatype Crypto = Crypto(utf8: seq<byte> -> string, ed25519: (seq<byte>, seq<byte>, seq<byte>) -> bool)

  // -- Edits of the key list ----------------------------------------------------------------

  predicate KeyIdChar(c: char) {
    'a' <= c <= 'z' || 'A' <= c <= 'Z' || '0' <= c <= '9' || c == '.' || c == '_' || c == '-'
  }

  predicate KeyIdWellFormed(id: string) {
    && 1 <= |id| <= 64
    && id[0] !in "._-"
    && forall i :: 0 <= i < |id| ==> KeyIdChar(id[i])
  }

  /** A key id begins with a letter or digit, goes on with those, dots, underscores or hyphens, up to 64 characters. */
  lemma KeyIdGrows(id: string, c: char)
    ensures !KeyIdWellFormed("")
    ensures KeyIdWellFormed([c]) <==> 'a' <= c <= 'z' || 'A' <= c <= 'Z' || '0' <= c <= '9'
    ensures id != "" ==>
              (KeyIdWellFormed(id + [c]) <==>
                && KeyIdWellFormed(id) && |id| < 64
                && (KeyIdWellFormed([c]) || c == '.' || c == '_' || c == '-'))
  {
    if id != "" {
      var longer := id + [c];
      assert longer[|id|] == c && forall i :: 0 <= i < |id| ==> longer[i] == id[i];
    }
  }

  predicate HasKey(keys: seq<TrustKey>, id: string) {
    exists k :: k in keys && k.id == id
  }

  function DropKey(keys: seq<TrustKey>, id: string): seq<TrustKey> {
    if keys == [] then []
    else (if keys[0].id == id then [] else [keys[0]]) + DropKey(keys[1..], id)
  }

  /** `id` of an `Add` is the requested id, or the generated one when none was requested. */
  datatype Edit =
    | Add(name: string, publicKey: string, id: string)
    | Delete(id: string)
    | Put(allowUnsigned: bool, keys: Option<seq<TrustKey>>)

  function NewKey(name: string, publicKey: string, id: string): TrustKey {
    var newId := Strip(id);
    TrustKey(newId, if Strip(name) != "" then Strip(name) else newId, Strip(publicKey))
  }

  predicate Usable(k: TrustKey) {
    DecodePublicKey(k.publicKey).Some?
  }

  predicate AllUsable(keys: seq<TrustKey>) {
    forall i :: 0 <= i < |keys| ==> Usable(keys[i])
  }

  /** The document after an edit; `None` when the edit is refused, which leaves the document as it was. */
  function Edited(t: TrustDoc, e: Edit): Option<TrustDoc> {
    match e
    case Add(name, publicKey, id) =>
      if DecodePublicKey(publicKey).None? || !KeyIdWellFormed(Strip(id)) || HasKey(t.keys, Strip(id)) then None
      else Some(t.(keys := t.keys + [NewKey(name, publicKey, id)]))
    case Delete(id) =>
      if HasKey(t.keys, id) then Some(t.(keys := DropKey(t.keys, id))) else None
    case Put(allow, keys) =>
      var next := if keys.Some? then keys.value else t.keys;
      if AllUsable(next) then Some(TrustDoc(allow, next)) else None
  }

  function Run(t: TrustDoc, edits: seq<Edit>): TrustDoc
    decreases |edits|
  {
    if edits == [] then t
    else
      var r := Edited(t, edits[0]);
      Run(if r.Some? then r.value else t, edits[1..])
  }

  // -- The verdict --------------------------------------------------------------------------

  datatype Verdict = Unsigned | Signed(keyId: string) | Refused(reason: Reason)

  datatype Reason = UnsignedNotAllowed | NoKeys | MalformedKey | MalformedSignature | NoMatch

  predicate Accepted(v: Verdict) {
    !v.Refused?
  }

  function SignatureOf(c: Crypto, raw: seq<byte>): Option<seq<byte>> {
    DecodeSignature(raw, c.utf8(raw))
  }

  /** `publicKey` decodes, the signature decodes, and the one verifies the other on `archive`. */
  predicate Verifies(c: Crypto, k: TrustKey, archive: seq<byte>, raw: seq<byte>) {
    && Usable(k)
    && SignatureOf(c, raw).Some?
    && c.ed25519(DecodePublicKey(k.publicKey).value, archive, SignatureOf(c, raw).value)
  }

  /** The key ends the search: it verifies the archive, or looking at it raises. */
  predicate Decisive(c: Crypto, k: TrustKey, archive: seq<byte>, raw: seq<byte>) {
    k.publicKey != "" && (!Usable(k) || SignatureOf(c, raw).None? || Verifies(c, k, archive, raw))
  }

  function VerdictOn(c: Crypto, k: TrustKey, archive: seq<byte>, raw: seq<byte>): Verdict {
    if !Usable(k) then Refused(MalformedKey)
    else if SignatureOf(c, raw).None? then Refused(MalformedSignature)
    else Signed(k.id)
  }

  function Search(c: Crypto, keys: seq<TrustKey>, archive: seq<byte>, raw: seq<byte>): Verdict {
    if keys == [] then Refused(NoMatch)
    else if Decisive(c, keys[0], archive, raw) then VerdictOn(c, keys[0], archive, raw)
    else Search(c, keys[1..], archive, raw)
  }

  function Enforced(c: Crypto, t: TrustDoc, archive: seq<byte>, signature: Option<seq<byte>>): Verdict {
    if signature.None? then
      if t.allowUnsigned then Unsigned else Refused(UnsignedNotAllowed)
    else if t.keys == [] then Refused(NoKeys)
    else Search(c, t.keys, archive, signature.value)
  }

  /** The search loop: the first decisive key settles the verdict. */
  method SearchKeys(c: Crypto, keys: seq<TrustKey>, archive: seq<byte>, raw: seq<byte>) returns (v: Verdict)
    ensures v == Search(c, keys, archive, raw)
    ensures v == Refused(NoMatch) ==> forall i :: 0 <= i < |keys| ==> !Decisive(c, keys[i], archive, raw)
    ensures v != Refused(NoMatch) ==>
              exists i :: 0 <= i < |keys| && Decisive(c, keys[i], archive, raw)
                && v == VerdictOn(c, keys[i], archive, raw)
                && forall j :: 0 <= j < i ==> !Decisive(c, keys[j], archive, raw)
  {
    var i := 0;
    while i < |keys|
      invariant i <= |keys|
      invariant forall j :: 0 <= j < i ==> !Decisive(c, keys[j], archive, raw)
      invariant Search(c, keys, archive, raw) == Search(c, keys[i..], archive, raw)
    {
      var pub := keys[i].publicKey;
      if pub != "" {
        if !Usable(keys[i]) {
          return Refused(MalformedKey);
        }
        var signature := SignatureOf(c, raw);
        if signature.None? {
          return Refused(MalformedSignature);
        }
        if c.ed25519(DecodePublicKey(pub).value, archive, signature.value) {
          return Signed(keys[i].id);
        }
      }
      i := i + 1;
    }
    v := Refused(NoMatch);
  }

  /** The validation loop of `put_trust`, which raises at the first key that does not decode. */
  method Validated(keys: seq<TrustKey>) returns (valid: bool)
    ensures valid <==> AllUsable(keys)
  {
    for i := 0 to |keys|
      invariant forall j :: 0 <= j < i ==> Usable(keys[j])
    {
      if !Usable(keys[i]) {
        return false;
      }
    }
    valid := true;
  }

  // -- Lists of keys ------------------------------------------------------------------------

  lemma {:induction false} DropKeyLength(keys: seq<TrustKey>, id: string)
    ensures |DropKey(keys, id)| <= |keys|
    ensures |DropKey(keys, id)| == |keys| <==> !HasKey(keys, id)
    ensures !HasKey(keys, id) ==> DropKey(keys, id) == keys
  {
    if keys == [] {
    } else {
      DropKeyLength(keys[1..], id);
      assert keys == [keys[0]] + keys[1..];
      assert HasKey(keys, id) <==> keys[0].id == id || HasKey(keys[1..], id);
    }
  }

  lemma {:induction false} DropKeyAppend(keys: seq<TrustKey>, more: seq<TrustKey>, id: string)
    ensures DropKey(keys + more, id) == DropKey(keys, id) + DropKey(more, id)
  {
    if keys == [] {
      assert keys + more == more;
    } else {
      assert (keys + more)[1..] == keys[1..] + more;
      DropKeyAppend(keys[1..], more, id);
    }
  }

  lemma {:induction false} DropKeySubset(keys: seq<TrustKey>, id: string, k: TrustKey)
    ensures k in DropKey(keys, id) <==> k in keys && k.id != id
  {
    if keys == [] {
    } else {
      DropKeySubset(keys[1..], id, k);
    }
  }

  // -- Reachable stores ---------------------------------------------------------------------

  lemma EditKeepsUsable(t: TrustDoc, e: Edit)
    requires AllUsable(t.keys) && Edited(t, e).Some?
    ensures AllUsable(Edited(t, e).value.keys)
  {
    match e
    case Add(name, publicKey, id) =>
      StripIdempotent(publicKey);
    case Delete(id) =>
      var kept := DropKey(t.keys, id);
      forall i | 0 <= i < |kept| ensures Usable(kept[i]) {
        DropKeySubset(t.keys, id, kept[i]);
      }
    case Put(_, _) =>
  }

  /**
    What an addition stores: under the trimmed id, which was free, the trimmed key that decodes to the
    bytes given, named as asked or else by its id; nothing else changes.
   */
  lemma AddExactly(t: TrustDoc, name: string, publicKey: string, id: string)
    ensures var r := Edited(t, Add(name, publicKey, id));
            && (r.Some? <==>
                  DecodePublicKey(publicKey).Some? && KeyIdWellFormed(Strip(id)) && !HasKey(t.keys, Strip(id)))
            && (r.Some? ==>
                  && r.value.allowUnsigned == t.allowUnsigned
                  && |r.value.keys| == |t.keys| + 1 && r.value.keys[..|t.keys|] == t.keys
                  && var k := r.value.keys[|t.keys|];
                     && k.id == Strip(id) && k.publicKey == Strip(publicKey)
                     && DecodePublicKey(k.publicKey) == DecodePublicKey(publicKey)
                     && (Blank(name) ==> k.name == k.id) && (!Blank(name) ==> k.name == Strip(name)))
  {
    StripIdempotent(publicKey);
    BlankExactly(name);
  }

  /** A put goes through exactly when every key that would be stored decodes; flag and keys are then those asked for. */
  lemma PutExactly(t: TrustDoc, allowUnsigned: bool, keys: Option<seq<TrustKey>>)
    ensures var r := Edited(t, Put(allowUnsigned, keys));
            && (r.Some? <==> forall k :: k in (if keys.Some? then keys.value else t.keys) ==> Usable(k))
            && (r.Some? ==> r.value.allowUnsigned == allowUnsigned)
            && (r.Some? && keys.Some? ==> r.value.keys == keys.value)
            && (r.Some? && keys.None? ==> r.value.keys == t.keys)
  {
    var next := if keys.Some? then keys.value else t.keys;
    assert forall i :: 0 <= i < |next| ==> next[i] in next;
  }

  lemma {:induction false} RunSplits(t: TrustDoc, before: seq<Edit>, after: seq<Edit>)
    ensures Run(t, before + after) == Run(Run(t, before), after)
    decreases |before|
  {
    if before == [] {
      assert before + after == after;
    } else {
      var r := Edited(t, before[0]);
      assert (before + after)[1..] == before[1..] + after;
      RunSplits(if r.Some? then r.value else t, before[1..], after);
    }
  }

  /** The edit at `i` of a run is a put that goes through. */
  predicate PutAccepted(t: TrustDoc, edits: seq<Edit>, i: nat) {
    i < |edits| && edits[i].Put? && Edited(Run(t, edits[..i]), edits[i]).Some?
  }

  lemma RunStep(t: TrustDoc, edits: seq<Edit>, n: nat)
    requires n < |edits|
    ensures var before := Run(t, edits[..n]);
            var r := Edited(before, edits[n]);
            Run(t, edits[..n + 1]) == if r.Some? then r.value else before
  {
    assert edits[..n + 1] == edits[..n] + [edits[n]];
    RunSplits(t, edits[..n], [edits[n]]);
    assert [edits[n]][1..] == [];
  }

  lemma FlagStep(t: TrustDoc, edits: seq<Edit>, n: nat)
    requires n < |edits|
    ensures Run(t, edits[..n + 1]).allowUnsigned ==
            if PutAccepted(t, edits, n) then edits[n].allowUnsigned else Run(t, edits[..n]).allowUnsigned
  {
    RunStep(t, edits, n);
    var before := Run(t, edits[..n]);
    match edits[n]
    case Put(allowUnsigned, keys) => PutExactly(before, allowUnsigned, keys);
    case Add(name, publicKey, id) => AddExactly(before, name, publicKey, id);
    case Delete(_) =>
  }

  /** The last put of a run that goes through. */
  function LastPut(t: TrustDoc, edits: seq<Edit>, n: nat): Option<nat> {
    LastBelow((i: nat) => PutAccepted(t, edits, i), n)
  }

  /**
    The unsigned flag after `n` edits is that of the last put that went through, and the first flag if
    there is none.
   */
  lemma {:induction false} FlagOfLastPut(t: TrustDoc, edits: seq<Edit>, n: nat)
    requires n <= |edits|
    ensures var i := LastPut(t, edits, n);
            && (i.None? ==> Run(t, edits[..n]).allowUnsigned == t.allowUnsigned)
            && (i.Some? ==>
                  && i.value < n && PutAccepted(t, edits, i.value)
                  && Run(t, edits[..n]).allowUnsigned == edits[i.value].allowUnsigned)
  {
    if n == 0 {
    } else {
      FlagOfLastPut(t, edits, n - 1);
      FlagStep(t, edits, n - 1);
    }
  }

  /**
    After any sequence of edits of the default store, an archive without a signature is accepted
    exactly when the last put that went through allows it, or none went through.
   */
  lemma UnsignedExactly(c: Crypto, edits: seq<Edit>, archive: seq<byte>)
    ensures var i := LastPut(DEFAULT_TRUST, edits, |edits|);
            && (i.Some? ==> i.value < |edits| && edits[i.value].Put?)
            && (Accepted(Enforced(c, Run(DEFAULT_TRUST, edits), archive, None)) <==>
                i.Some? ==> edits[i.value].allowUnsigned)
  {
    assert edits[..|edits|] == edits;
    FlagOfLastPut(DEFAULT_TRUST, edits, |edits|);
  }

  /** Every key in a store that edits can produce decodes to 32 bytes. */
  lemma {:induction false} ReachableUsable(t: TrustDoc, edits: seq<Edit>)
    requires AllUsable(t.keys)
    ensures AllUsable(Run(t, edits).keys)
    decreases |edits|
  {
    if edits == [] {
    } else {
      var r := Edited(t, edits[0]);
      if r.Some? {
        EditKeepsUsable(t, edits[0]);
      }
      ReachableUsable(if r.Some? then r.value else t, edits[1..]);
    }
  }

  lemma EmptyTextIsNoKey()
    ensures DecodePublicKey("") == None
  {
    KeyAccepted("");
    assert Strip("") == "";
  }

  /** Looking at the key does not raise: it is skipped, or it decodes. */
  predicate Harmless(k: TrustKey) {
    k.publicKey == "" || Usable(k)
  }

  /** The key at `i` verifies, no key before it does, and looking at those does not raise. */
  predicate Decides(c: Crypto, keys: seq<TrustKey>, archive: seq<byte>, raw: seq<byte>, i: nat) {
    && i < |keys|
    && Verifies(c, keys[i], archive, raw)
    && forall j :: 0 <= j < i ==> Harmless(keys[j]) && !Verifies(c, keys[j], archive, raw)
  }

  /** Some key verifies, and looking at the keys before it does not raise. */
  predicate VerifiedInReach(c: Crypto, keys: seq<TrustKey>, archive: seq<byte>, raw: seq<byte>) {
    exists i :: 0 <= i < |keys| && Verifies(c, keys[i], archive, raw) && forall j :: 0 <= j < i ==> Harmless(keys[j])
  }

  lemma HeadOfSearch(c: Crypto, keys: seq<TrustKey>, archive: seq<byte>, raw: seq<byte>)
    requires keys != []
    ensures VerifiedInReach(c, keys, archive, raw) <==>
            Verifies(c, keys[0], archive, raw) || (Harmless(keys[0]) && VerifiedInReach(c, keys[1..], archive, raw))
  {
    var rest := keys[1..];
    if i :| 0 <= i < |keys| && Verifies(c, keys[i], archive, raw) && forall j :: 0 <= j < i ==> Harmless(keys[j]) {
      if i > 0 {
        assert Harmless(keys[0]);
        assert rest[i - 1] == keys[i];
        assert forall j :: 0 <= j < i - 1 ==> rest[j] == keys[j + 1];
      }
    }
    if Harmless(keys[0]) && VerifiedInReach(c, rest, archive, raw) {
      var i :| 0 <= i < |rest| && Verifies(c, rest[i], archive, raw) && forall j :: 0 <= j < i ==> Harmless(rest[j]);
      assert Verifies(c, keys[i + 1], archive, raw);
      assert forall j :: 0 < j < i + 1 ==> keys[j] == rest[j - 1];
    }
  }

  /**
    For every key list, edited by hand or not: the search accepts exactly when some key verifies and
    every key before it is skipped or decodes.
   */
  lemma {:induction false} SearchExactly(c: Crypto, keys: seq<TrustKey>, archive: seq<byte>, raw: seq<byte>)
    ensures Accepted(Search(c, keys, archive, raw)) <==> VerifiedInReach(c, keys, archive, raw)
  {
    if keys == [] {
    } else {
      EmptyTextIsNoKey();
      HeadOfSearch(c, keys, archive, raw);
      SearchExactly(c, keys[1..], archive, raw);
      if SignatureOf(c, raw).None? {
        assert forall k :: !Verifies(c, k, archive, raw);
      }
    }
  }

  /** The key reported is the first that verifies. */
  lemma {:induction false} SearchReports(c: Crypto, keys: seq<TrustKey>, archive: seq<byte>, raw: seq<byte>, i: nat)
    requires Decides(c, keys, archive, raw, i)
    ensures Search(c, keys, archive, raw) == Signed(keys[i].id)
  {
    EmptyTextIsNoKey();
    if i == 0 {
    } else {
      assert Harmless(keys[0]) && !Verifies(c, keys[0], archive, raw);
      SearchReports(c, keys[1..], archive, raw, i - 1);
    }
  }

  /** Whatever else is stored behind it, a malformed key ends the search: acceptance is that of the keys before it. */
  lemma MalformedKeyEndsSearch(c: Crypto, before: seq<TrustKey>, bad: TrustKey, after: seq<TrustKey>,
                               archive: seq<byte>, raw: seq<byte>)
    requires !Harmless(bad)
    ensures Accepted(Search(c, before + [bad] + after, archive, raw)) <==> Accepted(Search(c, before, archive, raw))
  {
    var all := before + [bad] + after;
    SearchExactly(c, all, archive, raw);
    SearchExactly(c, before, archive, raw);
    assert all[|before|] == bad;
    assert forall j :: 0 <= j < |before| ==> all[j] == before[j];
    if i :| 0 <= i < |all| && Verifies(c, all[i], archive, raw) && forall j :: 0 <= j < i ==> Harmless(all[j]) {
      assert i <= |before|;
      assert !Verifies(c, bad, archive, raw);
      assert Verifies(c, before[i], archive, raw);
    }
    if i :| 0 <= i < |before| && Verifies(c, before[i], archive, raw)
            && forall j :: 0 <= j < i ==> Harmless(before[j])
    {
      assert Verifies(c, all[i], archive, raw);
    }
  }

  lemma {:induction false} FirstVerifying(c: Crypto, keys: seq<TrustKey>, archive: seq<byte>, raw: seq<byte>)
    returns (i: nat)
    requires exists k :: k in keys && Verifies(c, k, archive, raw)
    ensures i < |keys| && Verifies(c, keys[i], archive, raw)
    ensures forall j :: 0 <= j < i ==> !Verifies(c, keys[j], archive, raw)
  {
    if Verifies(c, keys[0], archive, raw) {
      i := 0;
    } else {
      assert keys == [keys[0]] + keys[1..];
      var j := FirstVerifying(c, keys[1..], archive, raw);
      i := j + 1;
    }
  }

  /** Among usable keys, the search accepts exactly when one verifies, and reports the first such key. */
  lemma SearchUsable(c: Crypto, keys: seq<TrustKey>, archive: seq<byte>, raw: seq<byte>)
    requires AllUsable(keys)
    ensures Accepted(Search(c, keys, archive, raw)) <==> exists k :: k in keys && Verifies(c, k, archive, raw)
    ensures Accepted(Search(c, keys, archive, raw)) ==>
              exists i :: 0 <= i < |keys| && Verifies(c, keys[i], archive, raw)
                && Search(c, keys, archive, raw) == Signed(keys[i].id)
                && forall j :: 0 <= j < i ==> !Verifies(c, keys[j], archive, raw)
  {
    SearchExactly(c, keys, archive, raw);
    if exists k :: k in keys && Verifies(c, k, archive, raw) {
      var i := FirstVerifying(c, keys, archive, raw);
      SearchReports(c, keys, archive, raw, i);
      assert VerifiedInReach(c, keys, archive, raw);
    }
  }

  /** The verdict on every document: unsigned and allowed, or some key verifies within reach of the search. */
  lemma AcceptedExactly(c: Crypto, t: TrustDoc, archive: seq<byte>, signature: Option<seq<byte>>)
    ensures Accepted(Enforced(c, t, archive, signature)) <==>
            if signature.None? then t.allowUnsigned else VerifiedInReach(c, t.keys, archive, signature.value)
  {
    if signature.Some? {
      SearchExactly(c, t.keys, archive, signature.value);
    }
  }

  /**
    After any sequence of edits of the default store, an archive is accepted exactly when it has no
    signature and unsigned archives are allowed, or some stored key verifies its decoded signature;
    the key reported is the first such key.
   */
  lemma TrustDecision(c: Crypto, edits: seq<Edit>, archive: seq<byte>, signature: Option<seq<byte>>)
    ensures var t := Run(DEFAULT_TRUST, edits);
            var v := Enforced(c, t, archive, signature);
            && (Accepted(v) <==>
                if signature.None? then t.allowUnsigned
                else exists k :: k in t.keys && Verifies(c, k, archive, signature.value))
            && (Accepted(v) && signature.Some? ==>
                exists i :: 0 <= i < |t.keys| && Verifies(c, t.keys[i], archive, signature.value)
                  && v == Signed(t.keys[i].id)
                  && forall j :: 0 <= j < i ==> !Verifies(c, t.keys[j], archive, signature.value))
  {
    ReachableUsable(DEFAULT_TRUST, edits);
    if signature.Some? {
      SearchUsable(c, Run(DEFAULT_TRUST, edits).keys, archive, signature.value);
    }
  }

  /**
    Acceptance of a signed archive depends on which usable keys are stored, not on their order or
    multiplicity; and nothing of the verdict on one depends on whether unsigned archives are allowed.
   */
  lemma OrderIrrelevant(c: Crypto, t: TrustDoc, u: TrustDoc, archive: seq<byte>, signature: Option<seq<byte>>)
    requires AllUsable(t.keys) && AllUsable(u.keys) && (signature.None? ==> t.allowUnsigned == u.allowUnsigned)
    requires forall k :: k in t.keys <==> k in u.keys
    ensures Accepted(Enforced(c, t, archive, signature)) == Accepted(Enforced(c, u, archive, signature))
    ensures t.keys == u.keys ==> Enforced(c, t, archive, signature) == Enforced(c, u, archive, signature)
  {
    if signature.Some? {
      SearchUsable(c, t.keys, archive, signature.value);
      SearchUsable(c, u.keys, archive, signature.value);
    }
  }

  /** A witness that order matters in a store no edit can produce. */
  lemma MalformedKeyHidesLaterKeys(c: Crypto, bad: TrustKey, good: TrustKey, archive: seq<byte>, raw: seq<byte>)
    requires bad.publicKey != "" && !Usable(bad) && Verifies(c, good, archive, raw)
    ensures !Accepted(Enforced(c, TrustDoc(true, [bad, good]), archive, Some(raw)))
    ensures Accepted(Enforced(c, TrustDoc(true, [good, bad]), archive, Some(raw)))
  {
    EmptyTextIsNoKey();
    assert [bad, good][1..] == [good];
  }

  // -- Monotonicity and inverse -------------------------------------------------------------

  lemma {:induction false} SearchAppend(c: Crypto, keys: seq<TrustKey>, more: seq<TrustKey>, archive: seq<byte>,
                                        raw: seq<byte>)
    requires Search(c, keys, archive, raw) != Refused(NoMatch)
    ensures Search(c, keys + more, archive, raw) == Search(c, keys, archive, raw)
  {
    if !Decisive(c, keys[0], archive, raw) {
      SearchAppend(c, keys[1..], more, archive, raw);
    }
    assert (keys + more)[1..] == keys[1..] + more;
  }

  /** Adding a key to any store leaves every acceptance, and the key it names, in place. */
  lemma AddingKeepsAcceptance(c: Crypto, t: TrustDoc, name: string, publicKey: string, id: string,
                              archive: seq<byte>, signature: Option<seq<byte>>)
    requires Edited(t, Add(name, publicKey, id)).Some?
    requires Accepted(Enforced(c, t, archive, signature))
    ensures Enforced(c, Edited(t, Add(name, publicKey, id)).value, archive, signature) ==
            Enforced(c, t, archive, signature)
  {
    if signature.Some? {
      SearchAppend(c, t.keys, [NewKey(name, publicKey, id)], archive, signature.value);
    }
  }

  /** Deleting keys from a store of usable keys never makes a signed archive acceptable. */
  lemma DeletingOnlyRevokes(c: Crypto, t: TrustDoc, id: string, archive: seq<byte>, signature: Option<seq<byte>>)
    requires AllUsable(t.keys) && Edited(t, Delete(id)).Some?
    requires Accepted(Enforced(c, Edited(t, Delete(id)).value, archive, signature))
    ensures Accepted(Enforced(c, t, archive, signature))
  {
    if signature.Some? {
      EditKeepsUsable(t, Delete(id));
      SearchUsable(c, t.keys, archive, signature.value);
      SearchUsable(c, DropKey(t.keys, id), archive, signature.value);
      var k :| k in DropKey(t.keys, id) && Verifies(c, k, archive, signature.value);
      DropKeySubset(t.keys, id, k);
    }
  }

  /** A successful addition followed by the deletion of the new id restores the store, whatever other ids it repeats. */
  lemma AddThenDelete(t: TrustDoc, name: string, publicKey: string, id: string)
    requires Edited(t, Add(name, publicKey, id)).Some?
    ensures Edited(Edited(t, Add(name, publicKey, id)).value, Delete(Strip(id))) == Some(t)
  {
    var added := NewKey(name, publicKey, id);
    DropKeyAppend(t.keys, [added], Strip(id));
    DropKeyLength(t.keys, Strip(id));
    assert (t.keys + [added])[|t.keys|] == added;
    assert HasKey(t.keys + [added], Strip(id));
    assert DropKey([added], Strip(id)) == [];
    assert t.keys + [] == t.keys;
  }

  // -- The file -----------------------------------------------------------------------------

  /** `trust.json`: missing until first read or written. */
  class TrustFile {
    var file: Option<TrustDoc>

    function Current(): TrustDoc
      reads this
    {
      if file.Some? then file.value else DEFAULT_TRUST
    }

    constructor ()
      ensures file == None && Current() == DEFAULT_TRUST
    {
      file := None;
    }

    method Load() returns (t: TrustDoc)
      modifies this
      ensures t == Current() == old(Current()) && file == Some(t)
    {
      if file.None? {
        file := Some(DEFAULT_TRUST);
      }
      t := file.value;
    }

    method AddKey(name: string, publicKey: string, keyId: Option<string>, generated: string)
      returns (added: Option<TrustKey>)
      modifies this
      ensures var id := if keyId.Some? && keyId.value != "" then keyId.value else generated;
              var r := Edited(old(Current()), Add(name, publicKey, id));
              && (added.Some? <==> r.Some?)
              && Current() == (if r.Some? then r.value else old(Current()))
              && (added.Some? ==> Current().keys == old(Current()).keys + [added.value])
    {
      if DecodePublicKey(publicKey).None? {
        return None;
      }
      var trust := Load();
      var newId := Strip(if keyId.Some? && keyId.value != "" then keyId.value else generated);
      if !KeyIdWellFormed(newId) {
        return None;
      }
      if exists k :: k in trust.keys && k.id == newId {
        return None;
      }
      var entry := TrustKey(newId, if Strip(name) != "" then Strip(name) else newId, Strip(publicKey));
      file := Some(TrustDoc(trust.allowUnsigned, trust.keys + [entry]));
      added := Some(entry);
    }

    method DeleteKey(id: string) returns (deleted: bool)
      modifies this
      ensures var r := Edited(old(Current()), Delete(id));
              deleted == r.Some? && Current() == if r.Some? then r.value else old(Current())
    {
      var trust := Load();
      var kept := [];
      for i := 0 to |trust.keys|
        invariant DropKey(trust.keys, id) == kept + DropKey(trust.keys[i..], id)
        invariant file == Some(trust)
      {
        if trust.keys[i].id != id {
          kept := kept + [trust.keys[i]];
        }
      }
      DropKeyLength(trust.keys, id);
      if |kept| == |trust.keys| {
        return false;
      }
      file := Some(TrustDoc(trust.allowUnsigned, kept));
      deleted := true;
    }

    method PutTrust(allowUnsigned: bool, keys: Option<seq<TrustKey>>) returns (saved: bool)
      modifies this
      ensures var r := Edited(old(Current()), Put(allowUnsigned, keys));
              saved == r.Some? && Current() == if r.Some? then r.value else old(Current())
    {
      var current := Load();
      var next := if keys.Some? then keys.value else current.keys;
      var valid := Validated(next);
      if !valid {
        return false;
      }
      file := Some(TrustDoc(allowUnsigned, next));
      saved := true;
    }

    method EnforceArchiveTrust(c: Crypto, archive: seq<byte>, signature: Option<seq<byte>>) returns (v: Verdict)
      modifies this
      ensures Current() == old(Current())
      ensures v == Enforced(c, Current(), archive, signature)
    {
      var trust := Load();
      if signature.None? {
        return if trust.allowUnsigned then Unsigned else Refused(UnsignedNotAllowed);
      }
      if trust.keys == [] {
        return Refused(NoKeys);
      }
      v := SearchKeys(c, trust.keys, archive, signature.value);
    }
  }
}
