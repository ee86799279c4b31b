/** A small library that satisfies every law of `Library.Lawful`: the assumptions do not contradict each other. */
module LibraryWitness {
  import opened Wrappers
  import opened Bytes
  import opened Ssz
  import opened Library

  /** One byte a number, filled up with zeros to `width` bytes a number. */
  function Spread(xs: seq<nat>, width: nat): (b: seq<byte>)
    requires width > 0
    ensures |b| == width * |xs|
  {
    Enough(width, |xs|);
    seq(|xs|, i requires 0 <= i < |xs| => xs[i] % 256) + Zeros(width * |xs| - |xs|)
  }

  lemma Enough(width: nat, n: nat)
    requires width > 0
    ensures width * n >= n
  {
  }

  /** How many pieces of `width` bytes there are. */
  function Pieces(length: nat, width: nat): (n: nat)
    requires width > 0
    ensures n <= length
  {
    if length < width then 0 else 1 + Pieces(length - width, width)
  }

  function Gather(b: seq<byte>, width: nat): seq<nat>
    requires width > 0
  {
    b[..Pieces(|b|, width)]
  }

  lemma {:induction false} PiecesOfMultiple(n: nat, width: nat)
    requires width > 0
    ensures Pieces(width * n, width) == n
    decreases n
  {
    if n > 0 {
      PiecesOfMultiple(n - 1, width);
      assert width * n == width * (n - 1) + width;
      Enough(width, n - 1);
    }
  }

  lemma GatherSpread(xs: seq<nat>, width: nat)
    requires width > 0 && forall i :: 0 <= i < |xs| ==> xs[i] < 256
    ensures Gather(Spread(xs, width), width) == xs
  {
    Enough(width, |xs|);
    PiecesOfMultiple(|xs|, width);
  }

  function Decrypt(sk: EthSecretKey, c: seq<byte>): Option<seq<byte>> {
    if |c| >= 64 && c[..64] == sk + Zeros(32) then Some(c[64..]) else None
  }

  /** The field of two elements, plain encodings, and a key in front of every ciphertext. */
  function Toy(): Lib {
    Lib(2, 1,
        (a: Bytes32, b: Bytes32) => Zeros(32),
        (b: seq<byte>) => Zeros(32),
        (m: Root) => 1,
        (x: nat) => Spread([x], 48),
        (c: PublicKeySet) => Spread(c, 48),
        (b: seq<byte>) => Some(Gather(b, 48)),
        (x: nat) => Spread([x], 96),
        (b: Bytes96) => Some(b[0] as nat),
        (x: nat) => Spread([x], 32),
        (b: Bytes32) => Some(b[0] % 2),
        (c: SecretKeySet) => Spread(c, 32),
        (b: seq<byte>) => Some(Gather(b, 32)),
        (sk: EthSecretKey) => sk + Zeros(32),
        (pk: EthPublicKey) => [4] + pk,
        (b: seq<byte>) => if |b| == 65 then Some(b[1..]) else None,
        (pk: EthPublicKey, m: seq<byte>, nonce: nat) => pk + m,
        (sk: EthSecretKey, c: seq<byte>) => Decrypt(sk, c))
  }

  lemma LawsAreConsistent()
    ensures Lawful(Toy()) && EnvelopeWidths(Toy())
  {
    assert EnvelopeWidths(Toy());
    hide Toy, GroupLaws, PublicCodecLaws, SecretCodecLaws, EnvelopeLaws, EnvelopeWidths;
    ToyGroup();
    ToyPublicCodecs();
    ToySecretCodecs();
    ToyEnvelopes();
  }

  lemma ToyGroup()
    ensures GroupLaws(Toy())
  {
    hide Spread;
    forall x: nat | x < 2 ensures Spread([x], 48)[0] == x {
      FirstByte(x, 48);
    }
  }

  lemma ToyPublicCodecs()
    ensures PublicCodecLaws(Toy())
  {
    hide Spread, Gather;
    var lib := Toy();
    forall c | IsKeySet(lib, c)
      ensures lib.pkSetFromBytes(lib.pkSetToBytes(c)) == Some(c) && |lib.pkSetToBytes(c)| == 48 * |c|
    {
      GatherSpread(c, 48);
    }
    forall x: nat | x < 2 ensures lib.sigFromBytes(lib.sigToBytes(x)) == Some(x) {
      FirstByte(x, 96);
    }
  }

  lemma ToySecretCodecs()
    ensures SecretCodecLaws(Toy())
  {
    hide Spread, Gather;
    var lib := Toy();
    forall c | IsKeySet(lib, c) ensures lib.skSetFromBytes(lib.skSetToBytes(c)) == Some(c) {
      GatherSpread(c, 32);
    }
    forall x: nat | x < 2
      ensures lib.skFromBytes(lib.skToBytes(x)) == Some(x) && lib.skSetFromBytes(lib.skToBytes(x)) == Some([x])
    {
      FirstByte(x, 32);
      GatherSpread([x], 32);
    }
  }

  lemma ToyEnvelopes()
    ensures EnvelopeLaws(Toy())
  {
    hide Spread, Gather;
    var lib := Toy();
    forall sk: EthSecretKey, pk: EthPublicKey, m: seq<byte>, nonce: nat
      ensures lib.decrypt(sk, lib.encrypt(pk, m, nonce)) == if lib.ethPublicKey(sk) == pk then Some(m) else None
    {
      assert (pk + m)[..64] == pk && (pk + m)[64..] == m;
    }
  }

  lemma FirstByte(x: nat, width: nat)
    requires x < 256 && width > 0
    ensures Spread([x], width)[0] == x
  {
  }
}
