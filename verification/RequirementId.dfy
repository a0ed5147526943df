/** The id of a bond requirement: the digest of its token, minimum amount and deadline in fixed big-endian widths. */
module RequirementId {
  import opened Gf256

  type Bytes = seq<Byte>

  function Width(len: nat): (w: nat)
    ensures w >= 1
  {
    if len == 0 then 1 else 256 * Width(len - 1)
  }

  /** The low `len` bytes of `x`, most significant first. */
  function BigEndian(x: nat, len: nat): (bs: Bytes)
    ensures |bs| == len
    decreases len
  {
    if len == 0 then [] else BigEndian(x / 256, len - 1) + [ByteOf(x % 256)]
  }

  /** Masking to `len` bytes: the two's-complement wrap for negative and for too large values. */
  function Masked(v: int, len: nat): (u: nat)
    ensures u < Width(len)
  {
    v % Width(len)
  }

  /** i128be (16 bytes) and u64be (8 bytes). */
  method EncodeBigEndian(v: int, len: nat) returns (bytes: Bytes)
    ensures bytes == BigEndian(Masked(v, len), len)
  {
    hide ByteOf, Masked;
    var out := new Byte[len];
    var x: nat := Masked(v, len);
    ghost var u := x;
    var i := len;
    assert BigEndian(x, i) + out[i..] == BigEndian(u, len);
    while i > 0
      invariant 0 <= i <= len
      invariant BigEndian(x, i) + out[i..] == BigEndian(u, len)
    {
      i := i - 1;
      ghost var rest := out[i + 1..];
      out[i] := ByteOf(x % 256);
      assert out[i..] == [ByteOf(x % 256)] + rest;
      assert BigEndian(x, i + 1) == BigEndian(x / 256, i) + [ByteOf(x % 256)];
      x := x / 256;
    }
    bytes := out[..];
    assert out[0..] == out[..];
  }

  lemma {:induction false} SameDigits(x: nat, y: nat, len: nat)
    requires BigEndian(x, len) == BigEndian(y, len) && x < Width(len) && y < Width(len)
    ensures x == y
    decreases len
  {
    hide ByteOf;
    if len > 0 {
      var (a, b) := (BigEndian(x / 256, len - 1), BigEndian(y / 256, len - 1));
      assert a == BigEndian(x, len)[..len - 1] && b == BigEndian(y, len)[..len - 1];
      assert ByteOf(x % 256) == BigEndian(x, len)[len - 1] && ByteOf(y % 256) == BigEndian(y, len)[len - 1];
      assert ByteOf(x % 256) as int == x % 256 && ByteOf(y % 256) as int == y % 256;
      SameDigits(x / 256, y / 256, len - 1);
    }
  }

  const AMOUNT_LEN := 16
  const DEADLINE_LEN := 8

  /** What is hashed into the requirement id. */
  function Preimage(token: Bytes, minAmount: int, deadline: int): Bytes {
    token
    + BigEndian(Masked(minAmount, AMOUNT_LEN), AMOUNT_LEN)
    + BigEndian(Masked(deadline, DEADLINE_LEN), DEADLINE_LEN)
  }

  /** reqId's concatenation. */
  method EncodeRequirement(token: Bytes, minAmount: int, deadline: int) returns (m: Bytes)
    ensures m == Preimage(token, minAmount, deadline)
  {
    hide BigEndian, Masked;
    var amount := EncodeBigEndian(minAmount, AMOUNT_LEN);
    var until := EncodeBigEndian(deadline, DEADLINE_LEN);
    m := token + amount + until;
  }

  /** Two requirements share a preimage exactly when their tokens agree and their amounts and deadlines agree up to the
      wrap of their widths. */
  lemma SamePreimageExactlyWhen(token: Bytes, amount: int, deadline: int, token': Bytes, amount': int, deadline': int)
    requires |token| == |token'| == 32
    ensures Preimage(token, amount, deadline) == Preimage(token', amount', deadline')
            <==> token == token' && Masked(amount, AMOUNT_LEN) == Masked(amount', AMOUNT_LEN)
                 && Masked(deadline, DEADLINE_LEN) == Masked(deadline', DEADLINE_LEN)
  {
    hide BigEndian, Masked, Width;
    var (m, m') := (Preimage(token, amount, deadline), Preimage(token', amount', deadline'));
    if m == m' {
      assert token == m[..32] && token' == m'[..32];
      var (a, a') := (Masked(amount, AMOUNT_LEN), Masked(amount', AMOUNT_LEN));
      var (d, d') := (Masked(deadline, DEADLINE_LEN), Masked(deadline', DEADLINE_LEN));
      assert BigEndian(a, AMOUNT_LEN) == m[32..48] && BigEndian(a', AMOUNT_LEN) == m'[32..48];
      assert BigEndian(d, DEADLINE_LEN) == m[48..] && BigEndian(d', DEADLINE_LEN) == m'[48..];
      SameDigits(a, a', AMOUNT_LEN);
      SameDigits(d, d', DEADLINE_LEN);
    }
  }

  lemma MaskedSmall(v: int, len: nat)
    requires 0 <= v < Width(len)
    ensures Masked(v, len) == v
  {
    hide Width;
    SmallRemainder(v, Width(len));
  }

  lemma SmallRemainder(v: int, w: int)
    requires 0 <= v < w
    ensures v % w == v
  {}

  /** Within their widths, the preimage determines the requirement. */
  lemma PreimageInjective(token: Bytes, amount: nat, deadline: nat, token': Bytes, amount': nat, deadline': nat)
    requires |token| == |token'| == 32
    requires amount < Width(AMOUNT_LEN) && amount' < Width(AMOUNT_LEN)
    requires deadline < Width(DEADLINE_LEN) && deadline' < Width(DEADLINE_LEN)
    requires Preimage(token, amount, deadline) == Preimage(token', amount', deadline')
    ensures token == token' && amount == amount' && deadline == deadline'
  {
    hide Preimage, Masked, Width;
    SamePreimageExactlyWhen(token, amount, deadline, token', amount', deadline');
    MaskedSmall(amount, AMOUNT_LEN); MaskedSmall(amount', AMOUNT_LEN);
    MaskedSmall(deadline, DEADLINE_LEN); MaskedSmall(deadline', DEADLINE_LEN);
  }
}
