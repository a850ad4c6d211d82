/** The key file and its rotations (src/backend/auth.rs, `Keyring::load`, `add_key`). */
module KeyRotation {
  import opened Basics
  import opened Base64Url
  import opened Claims
  import opened Tokens
  import opened Text

  const MIN_SECRET_BYTES: nat := 16

  const SECRET_BYTES: nat := 32

  /** The parsed file: secrets are still text. */
  datatype KeyFile = KeyFile(active: string, keys: map<string, string>)

  datatype LoadError = NoKeys | ActiveMissing | BadSecret(kid: string)

  datatype Loaded = Ring(ring: Keyring) | Unusable(error: LoadError)

  predicate GoodSecret(text: string) {
    Decode(text).Some? && |Decode(text).value| >= MIN_SECRET_BYTES
  }

  predicate Loadable(f: KeyFile) {
    f.active in f.keys && forall kid :: kid in f.keys ==> GoodSecret(f.keys[kid])
  }

  function RingOf(f: KeyFile): Keyring
    requires Loadable(f)
  {
    Keyring(map kid | kid in f.keys :: Decode(f.keys[kid]).value, f.active)
  }

  /** `Keyring::load` after the file has been read and parsed. */
  method Load(f: KeyFile) returns (r: Loaded)
    ensures Loadable(f) ==> r == Ring(RingOf(f))
    ensures !Loadable(f) ==> r.Unusable?
    ensures r == Unusable(NoKeys) <==> f.keys == map[]
    ensures r == Unusable(ActiveMissing) <==> f.keys != map[] && f.active !in f.keys
    ensures forall kid :: r == Unusable(BadSecret(kid)) ==> kid in f.keys && !GoodSecret(f.keys[kid])
  {
    if f.keys == map[] {
      return Unusable(NoKeys);
    }
    if f.active !in f.keys {
      return Unusable(ActiveMissing);
    }
    var keys: map<string, seq<byte>> := map[];
    var rest := f.keys.Keys;
    while rest != {}
      invariant rest <= f.keys.Keys && keys.Keys == f.keys.Keys - rest
      invariant forall kid :: kid in keys ==> GoodSecret(f.keys[kid]) && keys[kid] == Decode(f.keys[kid]).value
      decreases rest
    {
      var kid :| kid in rest;
      var raw := Decode(f.keys[kid]);
      if raw.None? || |raw.value| < MIN_SECRET_BYTES {
        return Unusable(BadSecret(kid));
      }
      keys := keys[kid := raw.value];
      rest := rest - {kid};
    }
    assert Loadable(f) && keys == RingOf(f).keys;
    return Ring(Keyring(keys, f.active));
  }

  /** A file loads exactly when its active id is one of its keys and every secret is the
      base64url form of at least 16 bytes; the ring then holds those bytes. */
  lemma LoadableIsExact(f: KeyFile)
    ensures Loadable(f) <==>
      f.active in f.keys && forall kid :: kid in f.keys ==> exists b :: |b| >= 16 && f.keys[kid] == Encode(b)
    ensures Loadable(f) ==>
      RingOf(f).active == f.active && RingOf(f).keys.Keys == f.keys.Keys &&
      forall kid :: kid in f.keys ==> f.keys[kid] == Encode(RingOf(f).keys[kid])
  {
    forall kid | kid in f.keys ensures GoodSecret(f.keys[kid]) <==> exists b :: |b| >= 16 && f.keys[kid] == Encode(b) {
      if Decode(f.keys[kid]).Some? {
        EncodeOfDecode(f.keys[kid]);
      }
      if b :| |b| >= 16 && f.keys[kid] == Encode(b) {
        DecodeOfEncode(b);
      }
    }
    forall kid | kid in f.keys && Decode(f.keys[kid]).Some? ensures f.keys[kid] == Encode(Decode(f.keys[kid]).value) {
      EncodeOfDecode(f.keys[kid]);
    }
  }

  // ----- rotation -----

  predicate BlankId(kid: string) {
    Trim(kid) == ""
  }

  /** The key file on disk. */
  class KeyFileOnDisk {
    var file: KeyFile

    constructor (file: KeyFile)
      ensures this.file == file
    {
      this.file := file;
    }

    /** `add_key`, with the freshly drawn secret as a parameter. */
    method AddKey(kid: string, secret: seq<byte>) returns (ok: bool)
      modifies this
      ensures ok <==> !BlankId(kid) && kid !in old(file).keys
      ensures file == AfterAdd(old(file), kid, secret)
    {
      ok := false;
      if BlankId(kid) {
        return;
      }
      if kid in file.keys {
        return;
      }
      file := file.(keys := file.keys[kid := Encode(secret)]);
      ok := true;
    }

    /** An operator deleting one line. */
    method RemoveKey(kid: string)
      modifies this
      ensures file == AfterRemove(old(file), kid)
    {
      file := file.(keys := file.keys - {kid});
    }
  }

  function AfterAdd(f: KeyFile, kid: string, secret: seq<byte>): KeyFile {
    if BlankId(kid) || kid in f.keys then f else f.(keys := f.keys[kid := Encode(secret)])
  }

  function AfterRemove(f: KeyFile, kid: string): KeyFile {
    f.(keys := f.keys - {kid})
  }

  datatype KeyOp = Add(kid: string, secret: seq<byte>) | Remove(kid: string)

  function Apply(f: KeyFile, op: KeyOp): KeyFile {
    match op
    case Add(kid, secret) => AfterAdd(f, kid, secret)
    case Remove(kid) => AfterRemove(f, kid)
  }

  function ApplyAll(f: KeyFile, ops: seq<KeyOp>): KeyFile {
    if ops == [] then f else Apply(ApplyAll(f, ops[..|ops| - 1]), ops[|ops| - 1])
  }

  /** Adding a key keeps a usable file usable, and the new key is the drawn secret. */
  lemma AddKeepsTheFileLoadable(f: KeyFile, kid: string, secret: seq<byte>)
    requires Loadable(f) && |secret| == SECRET_BYTES
    ensures Loadable(AfterAdd(f, kid, secret)) && RingOf(AfterAdd(f, kid, secret)).active == RingOf(f).active
    ensures !BlankId(kid) && kid !in f.keys ==>
      kid in AfterAdd(f, kid, secret).keys && RingOf(AfterAdd(f, kid, secret)).keys[kid] == secret
  {
    DecodeOfEncode(secret);
  }

  /** It changes no key already there, and adds no other. */
  lemma AddChangesNoOtherKey(f: KeyFile, kid: string, secret: seq<byte>, k: string)
    requires Loadable(f) && Loadable(AfterAdd(f, kid, secret)) && (k in f.keys || k != kid)
    ensures SameKey(RingOf(f), RingOf(AfterAdd(f, kid, secret)), k)
  {
  }

  /** Removing a key leaves the file usable exactly when it was not the active one. */
  lemma RemoveKeepsTheFileLoadableExactly(f: KeyFile, kid: string)
    requires Loadable(f)
    ensures Loadable(AfterRemove(f, kid)) <==> kid != f.active
  {
  }

  /** After a removal, tokens naming that key are refused as naming an unknown one,
      and every other token gets the verdict it got before. */
  lemma RemovalConcernsOnlyItsKey(w: World, f: KeyFile, kid: string, token: string, leeway: u64, now: u64)
    requires Loadable(f) && kid != f.active
    ensures Loadable(AfterRemove(f, kid))
    ensures KidOf(w, token) == Some(kid) ==>
      Verify(w, RingOf(AfterRemove(f, kid)), token, leeway, now) == Refuse(UnknownKeyId(kid))
    ensures KidOf(w, token) != Some(kid) ==>
      Verify(w, RingOf(AfterRemove(f, kid)), token, leeway, now) == Verify(w, RingOf(f), token, leeway, now)
  {
    if KidOf(w, token) != Some(kid) {
      VerdictDependsOnlyOnNamedKey(w, RingOf(f), RingOf(AfterRemove(f, kid)), token, leeway, now);
    }
  }

  lemma {:induction false} KeySurvives(f: KeyFile, ops: seq<KeyOp>, kid: string)
    requires kid in f.keys && forall i :: 0 <= i < |ops| ==> ops[i] != Remove(kid)
    ensures kid in ApplyAll(f, ops).keys && ApplyAll(f, ops).keys[kid] == f.keys[kid]
  {
    if ops != [] {
      KeySurvives(f, ops[..|ops| - 1], kid);
    }
  }

  /** Over any history of additions and removals, of any keys in any order, a token
      under a key never removed gets the same verdict at the end as at the start. */
  lemma RotationLeavesOtherTokensAlone(
    w: World, f: KeyFile, ops: seq<KeyOp>, kid: string, token: string, leeway: u64, now: u64)
    requires Loadable(f) && Loadable(ApplyAll(f, ops)) && kid in f.keys
    requires forall i :: 0 <= i < |ops| ==> ops[i] != Remove(kid)
    requires KidOf(w, token) == Some(kid)
    ensures Verify(w, RingOf(ApplyAll(f, ops)), token, leeway, now) == Verify(w, RingOf(f), token, leeway, now)
  {
    KeySurvives(f, ops, kid);
    VerdictDependsOnlyOnNamedKey(w, RingOf(f), RingOf(ApplyAll(f, ops)), token, leeway, now);
  }

  ghost predicate FreshSecrets(ops: seq<KeyOp>) {
    forall i :: 0 <= i < |ops| && ops[i].Add? ==> |ops[i].secret| == SECRET_BYTES
  }

  /** A history leaves a usable file usable if and only if it never removes the
      active key, or puts a key of that name back afterwards. */
  lemma {:induction false} HistoryLoadableExactly(f: KeyFile, ops: seq<KeyOp>)
    requires Loadable(f) && FreshSecrets(ops)
    ensures ApplyAll(f, ops).active == f.active
    ensures forall k :: k in ApplyAll(f, ops).keys ==> GoodSecret(ApplyAll(f, ops).keys[k])
    ensures Loadable(ApplyAll(f, ops)) <==> ActivePresent(ops, f.active)
  {
    if ops != [] {
      var m := |ops| - 1;
      HistoryLoadableExactly(f, ops[..m]);
      if ops[m].Add? {
        DecodeOfEncode(ops[m].secret);
      }
    }
  }

  /** The last operation on `kid`, if any, put it there. */
  predicate ActivePresent(ops: seq<KeyOp>, kid: string) {
    if ops == [] then true
    else
      var last := ops[|ops| - 1];
      if last == Remove(kid) then false
      else if last.Add? && last.kid == kid && !BlankId(kid) then true
      else ActivePresent(ops[..|ops| - 1], kid)
  }
}
