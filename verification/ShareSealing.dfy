/** ECIES sealing of one 32-byte share, bound to its keeper, room, document and recipient. */
module ShareSealing {
  import opened Outcomes
  import opened Gf256

  type Bytes = seq<Byte>

  const SHARE_LEN := 32

  /** The library primitives: SHA-256 and X25519 (section 6.1 of RFC 7748). */
  datatype Crypto = Crypto(
    sha256: Bytes -> Bytes,
    publicKey: Bytes -> Bytes,
    sharedSecret: (Bytes, Bytes) -> Bytes
  )

  /** What is used of them: output lengths, and that both ends derive the same secret. */
  ghost predicate Lawful(c: Crypto) {
    && (forall m {:trigger c.sha256(m)} :: |c.sha256(m)| == 32)
    && (forall s {:trigger c.publicKey(s)} :: |s| == 32 ==> |c.publicKey(s)| == 32)
    && forall s, t {:trigger c.sharedSecret(s, c.publicKey(t))} :: |s| == 32 && |t| == 32 ==>
         c.sharedSecret(s, c.publicKey(t)) == c.sharedSecret(t, c.publicKey(s))
  }

  /** Two different messages with one digest. */
  predicate Collision(c: Crypto, m: Bytes, m': Bytes) {
    m != m' && c.sha256(m) == c.sha256(m')
  }

  datatype SealedShare = SealedShare(keyperIndex: int, ephPub: Bytes, ct: Bytes, tag: Bytes)

  datatype OpenedShare = OpenedShare(keyperIndex: int, shareY: Bytes, faithful: bool)

  datatype Error = BadLength | BadIndex

  /** "zkorage-dataroom-ecies-v1/ks" */
  function DomainKs(): Bytes {
    [122, 107, 111, 114, 97, 103, 101, 45, 100, 97, 116, 97, 114, 111, 111, 109, 45,
     101, 99, 105, 101, 115, 45, 118, 49, 47, 107, 115]
  }

  /** "zkorage-dataroom-share-v1/tag" */
  function DomainShareTag(): Bytes {
    [122, 107, 111, 114, 97, 103, 101, 45, 100, 97, 116, 97, 114, 111, 111, 109, 45,
     115, 104, 97, 114, 101, 45, 118, 49, 47, 116, 97, 103]
  }

  /** The mask's preimage, for the one block a share takes. */
  function KeystreamMessage(shared: Bytes, ephPub: Bytes): Bytes {
    DomainKs() + shared + ephPub + [0, 0, 0, 0]
  }

  function Keystream(c: Crypto, shared: Bytes, ephPub: Bytes): Bytes {
    c.sha256(KeystreamMessage(shared, ephPub))
  }

  /** The tag's preimage; `index` is written as one byte, as `Uint8Array.of` truncates it. */
  function TagMessage(index: int, shareY: Bytes, roomId: Bytes, docId: Bytes, recipientPub: Bytes): Bytes {
    DomainShareTag() + [LowByte(index)] + shareY + roomId + docId + recipientPub
  }

  function LowByte(index: int): (b: Byte)
    ensures b as int == index % 256
  {
    ByteOf(index % 256)
  }

  function XorBytes(a: Bytes, b: Bytes): (r: Bytes)
    requires |a| == |b|
    ensures |r| == |a|
  {
    seq(|a|, i requires 0 <= i < |a| => Add(a[i], b[i]))
  }

  lemma XorTwice(a: Bytes, b: Bytes)
    requires |a| == |b|
    ensures XorBytes(XorBytes(a, b), b) == a
  {
    hide Add;
    forall i | 0 <= i < |a| ensures XorBytes(XorBytes(a, b), b)[i] == a[i] {
      AddAssoc(a[i], b[i], b[i]); AddZero(b[i]); AddZero(a[i]);
    }
  }

  // ---- the loops ----

  method XorLoop(a: Bytes, b: Bytes) returns (r: Bytes)
    requires |a| == SHARE_LEN && |b| == SHARE_LEN
    ensures r == XorBytes(a, b)
  {
    hide Add;
    var out := new Byte[SHARE_LEN];
    for i := 0 to SHARE_LEN
      invariant forall k :: 0 <= k < i ==> out[k] == Add(a[k], b[k])
    {
      out[i] := Add(a[i], b[i]);
    }
    r := out[..];
  }

  method TagsMatch(recomputed: Bytes, tag: Bytes) returns (faithful: bool)
    ensures faithful == (recomputed == tag)
  {
    faithful := |recomputed| == |tag|;
    var i := 0;
    while i < |tag| && faithful
      invariant 0 <= i <= |tag|
      invariant faithful ==> |recomputed| == |tag| && forall k :: 0 <= k < i ==> recomputed[k] == tag[k]
      invariant !faithful ==> recomputed != tag
      decreases |tag| - i
    {
      if recomputed[i] != tag[i] {
        faithful := false;
      }
      i := i + 1;
    }
  }

  // ---- seal and open ----

  function Sealed(c: Crypto, shareY: Bytes, index: int, recipientPub: Bytes, eph: Bytes, roomId: Bytes,
                  docId: Bytes): SealedShare
    requires Lawful(c) && |shareY| == SHARE_LEN
  {
    var ephPub := c.publicKey(eph);
    var ks := Keystream(c, c.sharedSecret(eph, recipientPub), ephPub);
    SealedShare(index, ephPub, XorBytes(shareY, ks), c.sha256(TagMessage(index, shareY, roomId, docId, recipientPub)))
  }

  function Opened(c: Crypto, s: SealedShare, secret: Bytes, roomId: Bytes, docId: Bytes,
                  recipientPub: Bytes): OpenedShare
    requires Lawful(c) && |s.ct| == SHARE_LEN
  {
    var y := XorBytes(s.ct, Keystream(c, c.sharedSecret(secret, s.ephPub), s.ephPub));
    OpenedShare(s.keyperIndex, y, c.sha256(TagMessage(s.keyperIndex, y, roomId, docId, recipientPub)) == s.tag)
  }

  predicate SealInputs(shareY: Bytes, recipientPub: Bytes, eph: Bytes, roomId: Bytes, docId: Bytes) {
    |shareY| == |recipientPub| == |eph| == |roomId| == |docId| == SHARE_LEN
  }

  predicate OpenInputs(s: SealedShare, secret: Bytes, roomId: Bytes, docId: Bytes, recipientPub: Bytes) {
    |s.ct| == |s.ephPub| == |s.tag| == |secret| == |roomId| == |docId| == |recipientPub| == SHARE_LEN
  }

  predicate ValidIndex(index: int) {
    1 <= index <= 255
  }

  /** The work all three copies share once the inputs are accepted. */
  method SealBody(c: Crypto, shareY: Bytes, index: int, recipientPub: Bytes, eph: Bytes, roomId: Bytes, docId: Bytes)
    returns (s: SealedShare)
    requires Lawful(c) && |shareY| == SHARE_LEN
    ensures s == Sealed(c, shareY, index, recipientPub, eph, roomId, docId)
  {
    hide TagMessage, XorBytes, Keystream;
    var ephPub := c.publicKey(eph);
    var shared := c.sharedSecret(eph, recipientPub);
    KeystreamLength(c, shared, ephPub);
    var ct := XorLoop(shareY, Keystream(c, shared, ephPub));
    s := SealedShare(index, ephPub, ct, c.sha256(TagMessage(index, shareY, roomId, docId, recipientPub)));
  }

  method OpenBody(c: Crypto, s: SealedShare, secret: Bytes, roomId: Bytes, docId: Bytes, recipientPub: Bytes)
    returns (o: OpenedShare)
    requires Lawful(c) && |s.ct| == SHARE_LEN
    ensures o == Opened(c, s, secret, roomId, docId, recipientPub)
  {
    hide TagMessage, XorBytes, Keystream;
    var shared := c.sharedSecret(secret, s.ephPub);
    KeystreamLength(c, shared, s.ephPub);
    var y := XorLoop(s.ct, Keystream(c, shared, s.ephPub));
    var faithful := TagsMatch(c.sha256(TagMessage(s.keyperIndex, y, roomId, docId, recipientPub)), s.tag);
    o := OpenedShare(s.keyperIndex, y, faithful);
  }

  lemma KeystreamLength(c: Crypto, shared: Bytes, ephPub: Bytes)
    requires Lawful(c)
    ensures |Keystream(c, shared, ephPub)| == 32
  {}

  /** shareEciesSeal, the backend's and the keeper's copy: lengths first, then the tag checks the index. */
  method ShareEciesSeal(c: Crypto, shareY: Bytes, index: int, recipientPub: Bytes, eph: Bytes, roomId: Bytes,
                        docId: Bytes)
    returns (r: Result<SealedShare, Error>)
    requires Lawful(c)
    ensures r == if !SealInputs(shareY, recipientPub, eph, roomId, docId) then Err(BadLength)
                 else if !ValidIndex(index) then Err(BadIndex)
                 else Ok(Sealed(c, shareY, index, recipientPub, eph, roomId, docId))
    ensures r.Ok? <==> |shareY| == 32 && |recipientPub| == 32 && |eph| == 32 && |roomId| == 32 && |docId| == 32
                       && 1 <= index <= 255
  {
    hide Sealed;
    if !SealInputs(shareY, recipientPub, eph, roomId, docId) {
      return Err(BadLength);
    }
    if index < 1 || index > 255 {
      return Err(BadIndex);
    }
    var s := SealBody(c, shareY, index, recipientPub, eph, roomId, docId);
    r := Ok(s);
  }

  /** sealShare, the SDK's copy: the index is checked before the lengths. */
  method SealShare(c: Crypto, shareY: Bytes, index: int, recipientPub: Bytes, roomId: Bytes, docId: Bytes, eph: Bytes)
    returns (r: Result<SealedShare, Error>)
    requires Lawful(c)
    ensures r == if !ValidIndex(index) then Err(BadIndex)
                 else if !SealInputs(shareY, recipientPub, eph, roomId, docId) then Err(BadLength)
                 else Ok(Sealed(c, shareY, index, recipientPub, eph, roomId, docId))
    ensures r.Ok? <==> |shareY| == 32 && |recipientPub| == 32 && |eph| == 32 && |roomId| == 32 && |docId| == 32
                       && 1 <= index <= 255
  {
    hide Sealed;
    if index < 1 || index > 255 {
      return Err(BadIndex);
    }
    if !SealInputs(shareY, recipientPub, eph, roomId, docId) {
      return Err(BadLength);
    }
    var s := SealBody(c, shareY, index, recipientPub, eph, roomId, docId);
    r := Ok(s);
  }

  /** shareEciesOpen, the backend's and the keeper's copy. */
  method ShareEciesOpen(c: Crypto, s: SealedShare, secret: Bytes, roomId: Bytes, docId: Bytes, recipientPub: Bytes)
    returns (r: Result<OpenedShare, Error>)
    requires Lawful(c)
    ensures r == BackendOpen(c, s, secret, roomId, docId, recipientPub)
  {
    hide Opened;
    if !OpenInputs(s, secret, roomId, docId, recipientPub) {
      return Err(BadLength);
    }
    if s.keyperIndex < 1 || s.keyperIndex > 255 {
      return Err(BadIndex);
    }
    var o := OpenBody(c, s, secret, roomId, docId, recipientPub);
    r := Ok(o);
  }

  /** openShare, the SDK's copy: its tag function has no index check. */
  method OpenShare(c: Crypto, s: SealedShare, secret: Bytes, roomId: Bytes, docId: Bytes, recipientPub: Bytes)
    returns (r: Result<OpenedShare, Error>)
    requires Lawful(c)
    ensures r == SdkOpen(c, s, secret, roomId, docId, recipientPub)
  {
    hide Opened;
    if !OpenInputs(s, secret, roomId, docId, recipientPub) {
      return Err(BadLength);
    }
    var o := OpenBody(c, s, secret, roomId, docId, recipientPub);
    r := Ok(o);
  }

  function BackendOpen(c: Crypto, s: SealedShare, secret: Bytes, roomId: Bytes, docId: Bytes,
                       recipientPub: Bytes): Result<OpenedShare, Error>
    requires Lawful(c)
  {
    if !OpenInputs(s, secret, roomId, docId, recipientPub) then Err(BadLength)
    else if !ValidIndex(s.keyperIndex) then Err(BadIndex)
    else Ok(Opened(c, s, secret, roomId, docId, recipientPub))
  }

  function SdkOpen(c: Crypto, s: SealedShare, secret: Bytes, roomId: Bytes, docId: Bytes,
                   recipientPub: Bytes): Result<OpenedShare, Error>
    requires Lawful(c)
  {
    if !OpenInputs(s, secret, roomId, docId, recipientPub) then Err(BadLength)
    else Ok(Opened(c, s, secret, roomId, docId, recipientPub))
  }

  // ---- what they promise ----

  /** The holder of the recipient secret gets the share back, faithfully, from every copy. */
  lemma SealThenOpen(c: Crypto, shareY: Bytes, index: int, secret: Bytes, eph: Bytes, roomId: Bytes, docId: Bytes)
    requires Lawful(c) && ValidIndex(index) && SealInputs(shareY, secret, eph, roomId, docId)
    ensures
      var pub := c.publicKey(secret);
      var s := Sealed(c, shareY, index, pub, eph, roomId, docId);
      && SdkOpen(c, s, secret, roomId, docId, pub) == Ok(OpenedShare(index, shareY, true))
      && BackendOpen(c, s, secret, roomId, docId, pub) == Ok(OpenedShare(index, shareY, true))
  {
    hide TagMessage, XorBytes, Keystream;
    var ephPub := c.publicKey(eph);
    var ks := Keystream(c, c.sharedSecret(eph, c.publicKey(secret)), ephPub);
    KeystreamLength(c, c.sharedSecret(eph, c.publicKey(secret)), ephPub);
    XorTwice(shareY, ks);
  }

  /** The copies agree exactly where a length is wrong or the index is in range. */
  lemma CopiesAgree(c: Crypto, s: SealedShare, secret: Bytes, roomId: Bytes, docId: Bytes, recipientPub: Bytes)
    requires Lawful(c)
    ensures SdkOpen(c, s, secret, roomId, docId, recipientPub) == BackendOpen(c, s, secret, roomId, docId, recipientPub)
            <==> !OpenInputs(s, secret, roomId, docId, recipientPub) || ValidIndex(s.keyperIndex)
  {}

  lemma SameTagMessage(index: int, alias: int, y: Bytes, r: Bytes, d: Bytes, p: Bytes)
    requires alias % 256 == index % 256
    ensures TagMessage(alias, y, r, d, p) == TagMessage(index, y, r, d, p)
  {
    hide ByteOf;
    assert LowByte(alias) as int == LowByte(index) as int;
  }

  lemma OpenRelabelled(c: Crypto, s: SealedShare, alias: int, secret: Bytes, roomId: Bytes, docId: Bytes,
                       recipientPub: Bytes)
    requires Lawful(c) && |s.ct| == SHARE_LEN && alias % 256 == s.keyperIndex % 256
    ensures Opened(c, s.(keyperIndex := alias), secret, roomId, docId, recipientPub)
         == Opened(c, s, secret, roomId, docId, recipientPub).(keyperIndex := alias)
  {
    var y := Opened(c, s, secret, roomId, docId, recipientPub).shareY;
    SameTagMessage(s.keyperIndex, alias, y, roomId, docId, recipientPub);
    hide TagMessage, XorBytes, Keystream;
  }

  /** A share relabelled by a multiple of 256 still opens as faithful in the SDK, and is refused by the others. */
  lemma SdkAliasesIndex(c: Crypto, shareY: Bytes, index: int, alias: int, secret: Bytes, eph: Bytes,
                        roomId: Bytes, docId: Bytes)
    requires Lawful(c) && ValidIndex(index) && SealInputs(shareY, secret, eph, roomId, docId)
    requires alias % 256 == index && alias != index
    ensures
      var pub := c.publicKey(secret);
      var s := Sealed(c, shareY, index, pub, eph, roomId, docId).(keyperIndex := alias);
      && SdkOpen(c, s, secret, roomId, docId, pub) == Ok(OpenedShare(alias, shareY, true))
      && BackendOpen(c, s, secret, roomId, docId, pub) == Err(BadIndex)
  {
    hide Opened, Sealed, Keystream, XorBytes, TagMessage, Lawful;
    assert alias < 1 || alias > 255;
    var pub := c.publicKey(secret);
    SealThenOpen(c, shareY, index, secret, eph, roomId, docId);
    var s := Sealed(c, shareY, index, pub, eph, roomId, docId);
    SealedIndex(c, shareY, index, pub, eph, roomId, docId);
    OpenRelabelled(c, s, alias, secret, roomId, docId, pub);
  }

  lemma SealedIndex(c: Crypto, shareY: Bytes, index: int, recipientPub: Bytes, eph: Bytes, roomId: Bytes, docId: Bytes)
    requires Lawful(c) && |shareY| == SHARE_LEN
    ensures Sealed(c, shareY, index, recipientPub, eph, roomId, docId).keyperIndex == index
  {}

  /** The tag's preimage determines everything it binds. */
  lemma TagMessageInjective(i: int, y: Bytes, r: Bytes, d: Bytes, p: Bytes, i': int, y': Bytes, r': Bytes,
                            d': Bytes, p': Bytes)
    requires |y| == |r| == |d| == |p| == |y'| == |r'| == |d'| == |p'| == SHARE_LEN
    requires ValidIndex(i) && ValidIndex(i')
    requires TagMessage(i, y, r, d, p) == TagMessage(i', y', r', d', p')
    ensures i == i' && y == y' && r == r' && d == d' && p == p'
  {
    var (m, m') := (TagMessage(i, y, r, d, p), TagMessage(i', y', r', d', p'));
    var n := |DomainShareTag()|;
    assert m[n] == LowByte(i) && m'[n] == LowByte(i');
    assert LowByte(i) as int == i && LowByte(i') as int == i';
    assert m[n + 1..n + 33] == y && m'[n + 1..n + 33] == y';
    assert m[n + 33..n + 65] == r && m'[n + 33..n + 65] == r';
    assert m[n + 65..n + 97] == d && m'[n + 65..n + 97] == d';
    assert m[n + 97..] == p && m'[n + 97..] == p';
  }

  /** A tag is not portable: whatever opens faithfully under a sealed share's tag is that share, for that keeper,
      room, document and recipient, or exhibits a collision of the hash. */
  lemma TagBinds(c: Crypto, shareY: Bytes, index: int, recipientPub: Bytes, eph: Bytes, roomId: Bytes, docId: Bytes,
                 s: SealedShare, secret: Bytes, roomId': Bytes, docId': Bytes, recipientPub': Bytes)
    requires Lawful(c) && ValidIndex(index) && SealInputs(shareY, recipientPub, eph, roomId, docId)
    requires ValidIndex(s.keyperIndex) && OpenInputs(s, secret, roomId', docId', recipientPub')
    requires s.tag == Sealed(c, shareY, index, recipientPub, eph, roomId, docId).tag
    ensures
      var o := Opened(c, s, secret, roomId', docId', recipientPub');
      o.faithful ==>
        || (o.keyperIndex == index && o.shareY == shareY && roomId' == roomId && docId' == docId
            && recipientPub' == recipientPub)
        || Collision(c, TagMessage(index, shareY, roomId, docId, recipientPub),
                     TagMessage(o.keyperIndex, o.shareY, roomId', docId', recipientPub'))
  {
    hide TagMessage, XorBytes, Keystream;
    var o := Opened(c, s, secret, roomId', docId', recipientPub');
    KeystreamLength(c, c.sharedSecret(secret, s.ephPub), s.ephPub);
    if TagMessage(index, shareY, roomId, docId, recipientPub)
        == TagMessage(o.keyperIndex, o.shareY, roomId', docId', recipientPub') {
      TagMessageInjective(index, shareY, roomId, docId, recipientPub, o.keyperIndex, o.shareY, roomId', docId',
          recipientPub');
    }
  }

  // ---- the mask ----

  /** The mask's preimage determines the shared secret and the ephemeral key. */
  lemma KeystreamMessageInjective(shared: Bytes, ephPub: Bytes, shared': Bytes, ephPub': Bytes)
    requires |ephPub| == |ephPub'| == 32
    requires KeystreamMessage(shared, ephPub) == KeystreamMessage(shared', ephPub')
    ensures shared == shared' && ephPub == ephPub'
  {
    var (m, m') := (KeystreamMessage(shared, ephPub), KeystreamMessage(shared', ephPub'));
    var (d, n) := (|DomainKs()|, |shared|);
    assert |m| == d + n + 36;
    assert m[d..d + n] == shared && m'[d..d + n] == shared';
    assert m[d + n..d + n + 32] == ephPub && m'[d + n..d + n + 32] == ephPub';
  }

  /** Equal masks come from one shared secret and one ephemeral key, or exhibit a collision. */
  lemma SameMask(c: Crypto, shared: Bytes, ephPub: Bytes, shared': Bytes, ephPub': Bytes)
    requires |ephPub| == |ephPub'| == 32
    ensures Keystream(c, shared, ephPub) == Keystream(c, shared', ephPub')
            <==> (shared == shared' && ephPub == ephPub')
                 || Collision(c, KeystreamMessage(shared, ephPub), KeystreamMessage(shared', ephPub'))
  {
    hide KeystreamMessage;
    if KeystreamMessage(shared, ephPub) == KeystreamMessage(shared', ephPub') {
      KeystreamMessageInjective(shared, ephPub, shared', ephPub');
    }
  }

  lemma XorSame(y: Bytes, a: Bytes, b: Bytes)
    requires |y| == |a| == |b|
    ensures XorBytes(y, a) == XorBytes(y, b) <==> a == b
  {
    hide Add;
    if XorBytes(y, a) == XorBytes(y, b) {
      forall i | 0 <= i < |y| ensures a[i] == b[i] {
        assert XorBytes(y, a)[i] == XorBytes(y, b)[i];
        AddCancel(y[i], a[i]); AddCancel(y[i], b[i]);
      }
    }
  }

  /** The ciphertext hides the share behind the shared secret: two seals of one share agree exactly when their ephemeral
      keys and derived secrets do, collisions apart. */
  lemma SameCiphertextExactlyWhen(c: Crypto, shareY: Bytes, index: int, pub: Bytes, eph: Bytes, roomId: Bytes,
                                  docId: Bytes, index': int, pub': Bytes, eph': Bytes, roomId': Bytes, docId': Bytes)
    requires Lawful(c) && |shareY| == |eph| == |eph'| == SHARE_LEN
    ensures
      var (s, s') := (Sealed(c, shareY, index, pub, eph, roomId, docId),
                      Sealed(c, shareY, index', pub', eph', roomId', docId'));
      s.ct == s'.ct <==>
        || (c.sharedSecret(eph, pub) == c.sharedSecret(eph', pub') && c.publicKey(eph) == c.publicKey(eph'))
        || Collision(c, KeystreamMessage(c.sharedSecret(eph, pub), c.publicKey(eph)),
                     KeystreamMessage(c.sharedSecret(eph', pub'), c.publicKey(eph')))
  {
    hide TagMessage, XorBytes, Keystream, KeystreamMessage, Collision;
    var (e, e') := (c.publicKey(eph), c.publicKey(eph'));
    var (k, k') := (c.sharedSecret(eph, pub), c.sharedSecret(eph', pub'));
    KeystreamLength(c, k, e);
    KeystreamLength(c, k', e');
    SameMask(c, k, e, k', e');
    XorSame(shareY, Keystream(c, k, e), Keystream(c, k', e'));
  }

  /** An opening of a sealed ciphertext yields the share exactly when it derives the sealer's secret under the sealer's
      ephemeral key, collisions apart; whatever else the record says. */
  lemma OpensExactlyWhen(c: Crypto, shareY: Bytes, index: int, pub: Bytes, eph: Bytes, roomId: Bytes, docId: Bytes,
                         s: SealedShare, secret: Bytes, roomId': Bytes, docId': Bytes, pub': Bytes)
    requires Lawful(c) && |shareY| == |eph| == |s.ephPub| == SHARE_LEN
    requires s.ct == Sealed(c, shareY, index, pub, eph, roomId, docId).ct
    ensures |s.ct| == SHARE_LEN
    ensures
      Opened(c, s, secret, roomId', docId', pub').shareY == shareY <==>
        || (c.sharedSecret(secret, s.ephPub) == c.sharedSecret(eph, pub) && s.ephPub == c.publicKey(eph))
        || Collision(c, KeystreamMessage(c.sharedSecret(secret, s.ephPub), s.ephPub),
                     KeystreamMessage(c.sharedSecret(eph, pub), c.publicKey(eph)))
  {
    hide TagMessage, XorBytes, Keystream, KeystreamMessage, Collision;
    var (k, k') := (c.sharedSecret(secret, s.ephPub), c.sharedSecret(eph, pub));
    var (a, b) := (Keystream(c, k, s.ephPub), Keystream(c, k', c.publicKey(eph)));
    KeystreamLength(c, k, s.ephPub);
    KeystreamLength(c, k', c.publicKey(eph));
    SameMask(c, k, s.ephPub, k', c.publicKey(eph));
    XorTwice(shareY, a);
    XorTwice(shareY, b);
    XorTwice(s.ct, a);
    XorSame(shareY, a, b);
  }

  /** Which records the copies open at all. */
  lemma AcceptsExactlyWhen(c: Crypto, s: SealedShare, secret: Bytes, roomId: Bytes, docId: Bytes, pub: Bytes)
    requires Lawful(c)
    ensures BackendOpen(c, s, secret, roomId, docId, pub).Ok? <==>
              && |s.ephPub| == 32 && |s.ct| == 32 && |s.tag| == 32 && |secret| == 32
              && |roomId| == 32 && |docId| == 32 && |pub| == 32 && 1 <= s.keyperIndex <= 255
    ensures SdkOpen(c, s, secret, roomId, docId, pub).Ok? <==>
              && |s.ephPub| == 32 && |s.ct| == 32 && |s.tag| == 32 && |secret| == 32
              && |roomId| == 32 && |docId| == 32 && |pub| == 32
  {}
}
