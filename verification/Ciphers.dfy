/**
 Cipher choices and the block ciphers behind them. The ciphers themselves are not modelled:
 they are a pair of functions of which only one thing is known, that decryption undoes
 encryption under the same key.
 */
module Ciphers {
  import opened Bytes
  import opened Tweak

  datatype CipherType =
    | Aes | Serpent | Twofish | Camellia | Kuznyechik
    | AesTwofish | AesTwofishSerpent | SerpentAes | SerpentTwofishAes | TwofishSerpent
    | CamelliaKuznyechik | CamelliaSerpent | KuznyechikAes | KuznyechikSerpentCamellia | KuznyechikTwofish

  datatype CryptoError =
    | InvalidKeySize(expected: nat, actual: nat)
    | InvalidBlockSize(expectedBlock: nat, actualBlock: nat)
    | InvalidDataLength(length: nat)
    | UnsupportedCipher(cipher: CipherType)

  /** Block encryption and decryption, by cipher, key and block. */
  datatype RawSuite = RawSuite(
    encrypt: (CipherType, seq<byte>, Block) -> Block,
    decrypt: (CipherType, seq<byte>, Block) -> Block)

  ghost predicate Lawful(s: RawSuite) {
    forall ct, key, b :: s.decrypt(ct, key, s.encrypt(ct, key, b)) == b
  }

  type Suite = s: RawSuite | Lawful(s)
    witness RawSuite((ct: CipherType, key: seq<byte>, b: Block) => b, (ct: CipherType, key: seq<byte>, b: Block) => b)

  predicate IsSingle(ct: CipherType) {
    ct in {Aes, Serpent, Twofish, Camellia, Kuznyechik}
  }

  /** The order in which ciphers are tried when a header is opened. */
  const ALL_SUPPORTED: seq<CipherType> :=
    [Aes, Serpent, Twofish, Camellia, Kuznyechik,
     AesTwofish, AesTwofishSerpent, SerpentAes, SerpentTwofishAes, TwofishSerpent,
     CamelliaKuznyechik, CamelliaSerpent, KuznyechikAes, KuznyechikSerpentCamellia, KuznyechikTwofish]

  /** Bytes of key in each of the two halves. */
  function KeySize(ct: CipherType): (n: nat)
    ensures 32 <= n <= 96
  {
    match ct
    case Aes => 32
    case Serpent => 32
    case Twofish => 32
    case Camellia => 32
    case Kuznyechik => 32
    case AesTwofish => 64
    case AesTwofishSerpent => 96
    case SerpentAes => 64
    case SerpentTwofishAes => 96
    case TwofishSerpent => 64
    case CamelliaKuznyechik => 64
    case CamelliaSerpent => 64
    case KuznyechikAes => 64
    case KuznyechikSerpentCamellia => 96
    case KuznyechikTwofish => 64
  }
}
