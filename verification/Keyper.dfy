/** One keeper of the committee: its share store, and the /deal and /share steps over it. */
module Keyper {
  import opened Outcomes
  import opened Gf256
  import opened Polynomials
  import opened Shamir
  import opened ShamirTheorems
  import opened ShareSealing
  import opened KeyRecovery

  type DocKey = (Bytes, Bytes)

  datatype Payload =
    | SealedDeal(ephPub: Bytes, ct: Bytes, tag: Bytes)
    | RawDeal(shareY: Bytes)
    | NoDeal

  datatype DealReply = Stored | NoToken | Unauthorized | BadRequest

  datatype ShareReply =
    | Released(s: SealedShare, recipientPub: Bytes)
    | RateLimited
    | Malformed
    | NoShare
    | NotAdmitted
    | NoRecipient
    | ChainOrSealFailed

  /** What a read of the chain through the keeper's own endpoint comes back with. */
  datatype ChainRead<T> = Answered(value: T) | Failed

  /** The share a well-formed deal payload carries for this keeper, if it opens. */
  function DealtShare(c: Crypto, index: int, sealSecret: Bytes, roomId: Bytes, docId: Bytes, p: Payload): Option<Bytes>
    requires Lawful(c)
  {
    match p
    case SealedDeal(ephPub, ct, tag) =>
      if |ephPub| != 32 || |ct| != 32 || |tag| != 32 then None
      else
        var sealed := SealedShare(index, ephPub, ct, tag);
        var o := BackendOpen(c, sealed, sealSecret, roomId, docId, c.publicKey(sealSecret));
        if o.Ok? && o.value.faithful then Some(o.value.shareY) else None
    case RawDeal(y) => if |y| == 32 then Some(y) else None
    case NoDeal => None
  }

  class Keeper {
    const crypto: Crypto
    const index: int
    const sealSecret: Bytes
    var shares: map<DocKey, Bytes>

    ghost predicate Valid()
      reads this
    {
      && Lawful(crypto)
      && ValidIndex(index)
      && |sealSecret| == 32
      && forall k :: k in shares ==> |k.0| == 32 && |k.1| == 32 && |shares[k]| == 32
    }

    constructor (crypto: Crypto, index: int, sealSecret: Bytes)
      requires Lawful(crypto) && ValidIndex(index) && |sealSecret| == 32
      ensures Valid() && shares == map[]
      ensures this.crypto == crypto && this.index == index && this.sealSecret == sealSecret
    {
      this.crypto := crypto;
      this.index := index;
      this.sealSecret := sealSecret;
      this.shares := map[];
    }

    /** ShareStore.put: overwrites; malformed ids or shares throw and store nothing. */
    method Put(roomId: Bytes, docId: Bytes, shareY: Bytes) returns (ok: bool)
      requires Valid()
      modifies this
      ensures Valid()
      ensures ok == (|roomId| == |docId| == |shareY| == 32)
      ensures shares == if ok then old(shares)[(roomId, docId) := shareY] else old(shares)
    {
      ok := |roomId| == 32 && |docId| == 32 && |shareY| == 32;
      if ok {
        shares := shares[(roomId, docId) := shareY];
      }
    }

    /** POST /deal: fail closed without a token, then bearer, ids, index and payload, in that order. */
    method Deal(tokenSet: bool, bearerOk: bool, roomId: Bytes, docId: Bytes, keyperIndex: int, payload: Payload)
      returns (reply: DealReply)
      requires Valid()
      modifies this
      ensures Valid()
      ensures reply == if !tokenSet then NoToken else if !bearerOk then Unauthorized
                       else if |roomId| == |docId| == 32 && keyperIndex == index
                            && DealtShare(crypto, index, sealSecret, roomId, docId, payload).Some? then Stored
                       else BadRequest
      ensures var dealt := DealtShare(crypto, index, sealSecret, roomId, docId, payload);
              shares == if reply.Stored? then old(shares)[(roomId, docId) := dealt.value] else old(shares)
    {
      hide BackendOpen, Lawful;
      if !tokenSet {
        return NoToken;
      }
      if !bearerOk {
        return Unauthorized;
      }
      if |roomId| != 32 || |docId| != 32 || keyperIndex != index {
        return BadRequest;
      }
      var shareY: Bytes;
      match payload {
        case SealedDeal(ephPub, ct, tag) =>
          if |ephPub| != 32 || |ct| != 32 || |tag| != 32 {
            return BadRequest;
          }
          var sealed := SealedShare(index, ephPub, ct, tag);
          var o := ShareEciesOpen(crypto, sealed, sealSecret, roomId, docId, crypto.publicKey(sealSecret));
          if o.Err? || !o.value.faithful {
            return BadRequest;
          }
          shareY := o.value.shareY;
          OpenedLength(crypto, sealed, sealSecret, roomId, docId, crypto.publicKey(sealSecret));
        case RawDeal(y) =>
          if |y| != 32 {
            return BadRequest;
          }
          shareY := y;
        case NoDeal =>
          return BadRequest;
      }
      var ok := Put(roomId, docId, shareY);
      reply := Stored;
    }

    /** POST /share: hold a share, be admitted, have a proof-bound recipient key; then seal to that key. `limited` is
        the limiter's verdict; a failed read or seal answers 502. */
    method Release(limited: bool, roomId: Bytes, docId: Bytes, accessor: Bytes,
                   admitted: ChainRead<bool>, recipientPub: ChainRead<Option<Bytes>>, eph: Bytes)
      returns (reply: ShareReply)
      requires Valid() && |eph| == 32
      ensures reply == ReleaseReply(limited, roomId, docId, accessor, admitted, recipientPub, eph)
    {
      hide Sealed, Lawful;
      if limited {
        return RateLimited;
      }
      if |roomId| != 32 || |docId| != 32 || |accessor| != 32 {
        return Malformed;
      }
      if (roomId, docId) !in shares {
        return NoShare;
      }
      if admitted.Failed? {
        return ChainOrSealFailed;
      }
      if !admitted.value {
        return NotAdmitted;
      }
      if recipientPub.Failed? {
        return ChainOrSealFailed;
      }
      if recipientPub.value.None? {
        return NoRecipient;
      }
      var pub := recipientPub.value.value;
      var s := ShareEciesSeal(crypto, shares[(roomId, docId)], index, pub, eph, roomId, docId);
      if s.Err? {
        return ChainOrSealFailed;
      }
      reply := Released(s.value, pub);
    }

    ghost function ReleaseReply(limited: bool, roomId: Bytes, docId: Bytes, accessor: Bytes,
                                admitted: ChainRead<bool>, recipientPub: ChainRead<Option<Bytes>>, eph: Bytes)
      : (reply: ShareReply)
      requires Valid()
      reads this
      ensures reply.Released? <==>
        && !limited && |roomId| == |docId| == |accessor| == 32 && (roomId, docId) in shares
        && admitted == Answered(true)
        && recipientPub.Answered? && recipientPub.value.Some? && |recipientPub.value.value| == 32
    {
      if limited then RateLimited
      else if |roomId| != 32 || |docId| != 32 || |accessor| != 32 then Malformed
      else if (roomId, docId) !in shares then NoShare
      else if admitted.Failed? then ChainOrSealFailed
      else if !admitted.value then NotAdmitted
      else if recipientPub.Failed? then ChainOrSealFailed
      else if recipientPub.value.None? then NoRecipient
      else if |recipientPub.value.value| != 32 then ChainOrSealFailed
      else
        var pub := recipientPub.value.value;
        Released(Sealed(crypto, shares[(roomId, docId)], index, pub, eph, roomId, docId), pub)
    }
  }

  lemma OpenedLength(c: Crypto, s: SealedShare, secret: Bytes, roomId: Bytes, docId: Bytes, recipientPub: Bytes)
    requires Lawful(c)
    ensures BackendOpen(c, s, secret, roomId, docId, recipientPub).Ok? ==>
              |BackendOpen(c, s, secret, roomId, docId, recipientPub).value.shareY| == 32
  {
    hide TagMessage;
  }

  /** Exactly what a deal stores: a raw share as it is, a sealed one as its ciphertext unmasks under this keeper's
      secret, and that only if its tag is over that very share, for this keeper, room and document. */
  lemma DealtExactlyWhen(c: Crypto, index: int, sealSecret: Bytes, roomId: Bytes, docId: Bytes, p: Payload, y: Bytes)
    requires Lawful(c) && ValidIndex(index) && |sealSecret| == |roomId| == |docId| == 32
    ensures
      DealtShare(c, index, sealSecret, roomId, docId, p) == Some(y) <==>
        match p
        case SealedDeal(ephPub, ct, tag) =>
          && |ephPub| == 32 && |ct| == 32 && |tag| == 32
          && y == XorBytes(ct, Keystream(c, c.sharedSecret(sealSecret, ephPub), ephPub))
          && tag == c.sha256(TagMessage(index, y, roomId, docId, c.publicKey(sealSecret)))
        case RawDeal(z) => |z| == 32 && y == z
        case NoDeal => false
  {
    hide TagMessage, XorBytes;
  }

  /** So a sealed deal under a dealer's tag stores the share that dealer sealed, for this keeper, room and document, or
      exhibits a collision, however its ciphertext was changed on the way. */
  lemma SealedDealBinds(c: Crypto, index: int, sealSecret: Bytes, roomId: Bytes, docId: Bytes, ephPub: Bytes,
                        ct: Bytes, y: Bytes, shareY: Bytes, index': int, pub: Bytes, eph: Bytes, roomId': Bytes,
                        docId': Bytes)
    requires Lawful(c) && ValidIndex(index) && |sealSecret| == |roomId| == |docId| == 32
    requires ValidIndex(index') && SealInputs(shareY, pub, eph, roomId', docId')
    requires var tag := Sealed(c, shareY, index', pub, eph, roomId', docId').tag;
             DealtShare(c, index, sealSecret, roomId, docId, SealedDeal(ephPub, ct, tag)) == Some(y)
    ensures
      || (y == shareY && index == index' && roomId == roomId' && docId == docId' && c.publicKey(sealSecret) == pub)
      || Collision(c, TagMessage(index', shareY, roomId', docId', pub),
                   TagMessage(index, y, roomId, docId, c.publicKey(sealSecret)))
  {
    hide TagMessage, XorBytes, Keystream;
    var tag := Sealed(c, shareY, index', pub, eph, roomId', docId').tag;
    TagBinds(c, shareY, index', pub, eph, roomId', docId', SealedShare(index, ephPub, ct, tag), sealSecret, roomId,
             docId, c.publicKey(sealSecret));
  }

  /** A dealer's seal to this keeper's static key is accepted, and it stores exactly the share dealt. */
  lemma DealDelivers(c: Crypto, shareY: Bytes, index: int, sealSecret: Bytes, eph: Bytes, roomId: Bytes, docId: Bytes)
    requires Lawful(c) && ValidIndex(index) && SealInputs(shareY, sealSecret, eph, roomId, docId)
    ensures
      var s := Sealed(c, shareY, index, c.publicKey(sealSecret), eph, roomId, docId);
      DealtShare(c, index, sealSecret, roomId, docId, SealedDeal(s.ephPub, s.ct, s.tag)) == Some(shareY)
  {
    hide TagMessage;
    SealThenOpen(c, shareY, index, sealSecret, eph, roomId, docId);
  }

  /** Random values and ids of one key release. */
  datatype Session = Session(roomId: Bytes, docId: Bytes, accessor: Bytes, recipientSecret: Bytes)

  ghost predicate ValidSession(s: Session) {
    |s.roomId| == |s.docId| == |s.accessor| == |s.recipientSecret| == 32
  }

  /** One keeper's leg: the browser dealer seals the share, the keeper stores it, and releases it to the recipient. */
  method DealAndRelease(keeper: Keeper, share: Share, s: Session, dealEph: Bytes, releaseEph: Bytes)
    returns (o: OpenedShare)
    requires keeper.Valid() && ValidSession(s)
    requires share.x == keeper.index && |share.y| == |dealEph| == |releaseEph| == 32
    modifies keeper
    ensures keeper.Valid()
    ensures keeper.shares == old(keeper.shares)[(s.roomId, s.docId) := share.y]
    ensures o == OpenedShare(share.x, share.y, true)
  {
    hide Sealed, SdkOpen, BackendOpen, DealtShare;
    var c := keeper.crypto;
    var deal := SealShare(c, share.y, share.x, c.publicKey(keeper.sealSecret), s.roomId, s.docId, dealEph);
    DealDelivers(c, share.y, share.x, keeper.sealSecret, dealEph, s.roomId, s.docId);
    var reply := keeper.Deal(true, true, s.roomId, s.docId, share.x,
                             SealedDeal(deal.value.ephPub, deal.value.ct, deal.value.tag));
    var pub := c.publicKey(s.recipientSecret);
    var released := keeper.Release(false, s.roomId, s.docId, s.accessor,
                                   Answered(true), Answered(Some(pub)), releaseEph);
    SealThenOpen(c, share.y, share.x, s.recipientSecret, releaseEph, s.roomId, s.docId);
    var opening := OpenShare(c, released.s, s.recipientSecret, s.roomId, s.docId, pub);
    o := opening.value;
  }

  /** End to end: split K two-of-n, deal to two keepers, release to the recipient, open and recover K. */
  method ReleaseKey(k: Bytes, n: int, draws: seq<Bytes>, first: Keeper, second: Keeper, s: Session, ephs: seq<Bytes>)
    returns (r: Result<Recovery, RecoveryError>)
    requires first.Valid() && second.Valid() && first.crypto == second.crypto && ValidSession(s)
    requires first != second && first.index != second.index
    requires 2 <= n <= 255 && first.index <= n && second.index <= n
    requires |k| == 32 && |draws| == 254 && AllOfLength(draws, 32)
    requires |ephs| == 4 && AllOfLength(ephs, 32)
    modifies first, second
    ensures r == Ok(Recovery(k, first.index, second.index))
  {
    hide Eval, Recovered, WellFormed, ByteOf, Lawful;
    var dealt := ShamirSplit(k, 2, n, None, [], draws);
    ghost var coeffs := Chosen(2, [], draws);
    SplitIsDealing(k, 2, n, None, [], draws);
    var (a, b) := (dealt.value[first.index - 1], dealt.value[second.index - 1]);
    assert IsShare(a, k, coeffs, first.index) && IsShare(b, k, coeffs, second.index);
    var oa := DealAndRelease(first, a, s, ephs[0], ephs[1]);
    var ob := DealAndRelease(second, b, s, ephs[2], ephs[3]);
    ghost var pair := [a, b];
    assert Usable([oa, ob]) == pair by {
      assert [oa, ob][1..] == [ob] && [ob][1..] == [];
      assert Usable([]) == [];
      assert Usable([ob]) == [b];
    }
    assert Xs(pair)[0] != Xs(pair)[1];
    ThresholdRecovers(pair, k, coeffs);
    ShaLength(first.crypto, k);
    r := SdkReconstructWithCommitment(first.crypto, [oa, ob], first.crypto.sha256(k));
    assert PairOf(pair, 0, 1) == pair;
  }

  lemma ShaLength(c: Crypto, m: Bytes)
    requires Lawful(c)
    ensures |c.sha256(m)| == 32
  {}
}
