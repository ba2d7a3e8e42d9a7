/** How outputs, supplies and trie nodes become bytes and come back. */
module Codec {
  import opened Hashes
  import opened Commitments
  import opened TrieModel
  import opened Ledger
  import opened Division

  function Power256(n: nat): (r: nat)
    ensures r > 0
  {
    if n == 0 then 1 else 256 * Power256(n - 1)
  }

  /** The `width` low bytes of `n`, most significant first. */
  function BigEndian(n: nat, width: nat): (r: Bytes)
    ensures |r| == width
  {
    if width == 0 then [] else BigEndian(n / 256, width - 1) + [n % 256]
  }

  function FromBigEndian(bytes: Bytes): (r: nat)
    ensures r < Power256(|bytes|)
  {
    if bytes == [] then 0 else 256 * FromBigEndian(bytes[..|bytes| - 1]) + bytes[|bytes| - 1]
  }

  lemma FromAppended(bytes: Bytes, low: Byte)
    ensures FromBigEndian(bytes + [low]) == 256 * FromBigEndian(bytes) + low
  {
    assert (bytes + [low])[..|bytes|] == bytes;
  }

  lemma OneDigitLess(n: nat, p: nat)
    ensures n < 256 * p <==> n / 256 < p
  {
  }

  /** Fixed-width numbers survive the trip exactly when they fit the width. */
  lemma {:induction false} BigEndianRoundTrip(n: nat, width: nat)
    ensures FromBigEndian(BigEndian(n, width)) == n <==> n < Power256(width)
    decreases width
  {
    if width > 0 {
      BigEndianRoundTrip(n / 256, width - 1);
      FromAppended(BigEndian(n / 256, width - 1), n % 256);
      OneDigitLess(n, Power256(width - 1));
    }
  }

  /** Byte `i` is the digit whose weight is 256 to the power of how many bytes follow it. */
  lemma {:induction false} DigitAt(n: nat, width: nat, i: nat)
    requires i < width
    ensures BigEndian(n, width)[i] == n / Power256(width - 1 - i) % 256
    decreases width
  {
    if i < width - 1 {
      DigitAt(n / 256, width - 1, i);
      ShiftDigit(n, Power256(width - 2 - i));
      assert BigEndian(n, width)[i] == BigEndian(n / 256, width - 1)[i];
    }
  }

  lemma ShiftDigit(n: nat, p: nat)
    requires p > 0
    ensures n / 256 / p == n / (256 * p)
  {
    var q, r := n / 256 / p, n / 256 % p;
    assert n == 256 * (p * q + r) + n % 256;
    assert 256 * (p * q) == (256 * p) * q;
    QuotientIs(n, 256 * p, q, 256 * r + n % 256);
  }

  const VALUE_WIDTH: nat := 8
  const HASH_WIDTH: nat := 32
  const SUPPLY_WIDTH: nat := 16

  /** The value fits 64 bits; a digest always fits its 32 bytes. */
  predicate Encodable(output: TxOutput) {
    output.value < Power256(VALUE_WIDTH)
  }

  lemma HashWidthIsExact()
    ensures Power256(HASH_WIDTH) == 0x1_0000_0000_0000_0000_0000_0000_0000_0000_0000_0000_0000_0000_0000_0000_0000_0000
  {
    assert Power256(8) == 0x1_0000_0000_0000_0000;
    assert Power256(16) == 0x1_0000_0000_0000_0000_0000_0000_0000_0000;
    assert Power256(24) == 0x1_0000_0000_0000_0000_0000_0000_0000_0000_0000_0000_0000_0000;
  }

  /** Eight bytes of value, then the owner's digest. */
  function EncodeOutput(output: TxOutput): Bytes {
    BigEndian(output.value, VALUE_WIDTH) + BigEndian(output.pubkeyHash, HASH_WIDTH)
  }

  function DecodeOutput(bytes: Bytes): Option<TxOutput> {
    if |bytes| != VALUE_WIDTH + HASH_WIDTH then
      None
    else
      HashWidthIsExact();
      Some(TxOutput(FromBigEndian(bytes[..VALUE_WIDTH]), FromBigEndian(bytes[VALUE_WIDTH..])))
  }

  lemma OutputRoundTrip(output: TxOutput)
    requires Encodable(output)
    ensures DecodeOutput(EncodeOutput(output)) == Some(output)
  {
    BigEndianRoundTrip(output.value, VALUE_WIDTH);
    BigEndianRoundTrip(output.pubkeyHash, HASH_WIDTH);
    HashWidthIsExact();
    var bytes := EncodeOutput(output);
    assert bytes[..VALUE_WIDTH] == BigEndian(output.value, VALUE_WIDTH);
    assert bytes[VALUE_WIDTH..] == BigEndian(output.pubkeyHash, HASH_WIDTH);
  }

  /** The layout of an output, spelled out: the value's eight bytes, most significant first, then the digest's 32. */
  lemma OutputLayout(output: TxOutput, i: nat)
    requires i < 40
    ensures |EncodeOutput(output)| == 40
    ensures EncodeOutput(output)[i] ==
      if i < 8 then output.value / Power256(7 - i) % 256 else output.pubkeyHash / Power256(39 - i) % 256
  {
    if i < 8 {
      DigitAt(output.value, VALUE_WIDTH, i);
    } else {
      DigitAt(output.pubkeyHash, HASH_WIDTH, i - 8);
    }
  }

  function Backwards(bytes: Bytes): (r: Bytes)
    ensures |r| == |bytes|
  {
    if bytes == [] then [] else Backwards(bytes[1..]) + [bytes[0]]
  }

  lemma {:induction false} BackwardsTwice(bytes: Bytes)
    ensures Backwards(Backwards(bytes)) == bytes
    decreases |bytes|
  {
    if bytes != [] {
      BackwardsTwice(bytes[1..]);
      BackwardsOfAppended(Backwards(bytes[1..]), bytes[0]);
    }
  }

  lemma {:induction false} BackwardsOfAppended(bytes: Bytes, last: Byte)
    ensures Backwards(bytes + [last]) == [last] + Backwards(bytes)
    decreases |bytes|
  {
    if bytes != [] {
      assert (bytes + [last])[1..] == bytes[1..] + [last];
      BackwardsOfAppended(bytes[1..], last);
    }
  }

  /** The supply leaf: sixteen bytes, least significant first. */
  function EncodeSupply(supply: nat): (r: Bytes)
    ensures |r| == SUPPLY_WIDTH
  {
    Backwards(BigEndian(supply, SUPPLY_WIDTH))
  }

  function DecodeSupply(bytes: Bytes): nat {
    FromBigEndian(Backwards(bytes))
  }

  lemma SupplyRoundTrip(supply: nat)
    requires supply < Power256(SUPPLY_WIDTH)
    ensures DecodeSupply(EncodeSupply(supply)) == supply
    ensures DecodeOutput(EncodeSupply(supply)) == None
  {
    BackwardsTwice(BigEndian(supply, SUPPLY_WIDTH));
    BigEndianRoundTrip(supply, SUPPLY_WIDTH);
  }

  lemma {:induction false} BackwardsAt(bytes: Bytes, i: nat)
    requires i < |bytes|
    ensures Backwards(bytes)[i] == bytes[|bytes| - 1 - i]
  {
    if i < |bytes| - 1 {
      BackwardsAt(bytes[1..], i);
    }
  }

  /** The layout of the supply leaf, spelled out: sixteen bytes, least significant first. */
  lemma SupplyLayout(supply: nat, i: nat)
    requires i < 16
    ensures EncodeSupply(supply)[i] == supply / Power256(i) % 256
  {
    BackwardsAt(BigEndian(supply, SUPPLY_WIDTH), i);
    DigitAt(supply, SUPPLY_WIDTH, 15 - i);
  }

  /** A node's storage key: the path's length in one byte, then the path. */
  function KeyForPath(path: Path): seq<int> {
    [|path| % 256] + path
  }

  /** The length first, then the path. */
  lemma KeyLayout(path: Path)
    requires |path| < 256
    ensures |KeyForPath(path)| == |path| + 1 && KeyForPath(path)[0] == |path| && KeyForPath(path)[1..] == path
  {
  }

  lemma KeyForPathInjective(p: Path, q: Path)
    requires KeyForPath(p) == KeyForPath(q)
    ensures p == q
  {
    assert KeyForPath(p)[1..] == p;
    assert KeyForPath(q)[1..] == q;
  }

  function SerializeNode(value: Option<Bytes>): Bytes {
    match value
    case None => [0]
    case Some(inner) => [1] + BigEndian(|inner| % Power256(4), 4) + inner
  }

  /** The layout of a node, spelled out: a zero byte for no value; otherwise a one, the length in four bytes, most
      significant first, and the value. */
  lemma NodeLayout(value: Bytes, i: nat)
    requires |value| < 0x1_0000_0000 && i < 4
    ensures SerializeNode(None) == [0]
    ensures |SerializeNode(Some(value))| == 5 + |value| && SerializeNode(Some(value))[0] == 1
    ensures SerializeNode(Some(value))[1 + i] == |value| / Power256(3 - i) % 256
    ensures SerializeNode(Some(value))[5..] == value
  {
    FourBytes();
    var length := BigEndian(|value|, 4);
    assert |value| % Power256(4) == |value|;
    Framed(length, value);
    DigitAt(|value|, 4, i);
  }

  lemma Framed(length: Bytes, value: Bytes)
    requires |length| == 4
    ensures |[1] + length + value| == 5 + |value| && ([1] + length + value)[0] == 1
    ensures ([1] + length + value)[1..5] == length && ([1] + length + value)[5..] == value
    ensures forall i | 0 <= i < 4 :: ([1] + length + value)[1 + i] == length[i]
  {
  }

  lemma FourBytes()
    ensures Power256(4) == 0x1_0000_0000
  {
  }

  /** The outer option says whether the bytes are a node at all. */
  function DeserializeNode(encoded: Bytes): Option<Option<Bytes>> {
    if encoded == [] then None
    else if encoded[0] == 0 then Some(None)
    else if encoded[0] == 1 then
      if |encoded| < 5 then None
      else if |encoded| - 5 != FromBigEndian(encoded[1..5]) then None
      else Some(Some(encoded[5..]))
    else None
  }

  /** A stored node reads back exactly when its value is shorter than 2^32 bytes. */
  lemma NodeRoundTrip(value: Option<Bytes>)
    ensures DeserializeNode(SerializeNode(value)) == Some(value) <==> (value.Some? ==> |value.value| < Power256(4))
  {
    if value.Some? {
      var n := |value.value|;
      BigEndianRoundTrip(n % Power256(4), 4);
      var encoded := SerializeNode(value);
      assert encoded[1..5] == BigEndian(n % Power256(4), 4);
      assert encoded[5..] == value.value;
    }
  }
}
