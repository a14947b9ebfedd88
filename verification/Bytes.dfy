/** Byte strings, fixed-width big-endian integers and the result type of operations that may raise. */
module Bytes {

  type byte = x: int | 0 <= x < 256
  type bytes = seq<byte>

  /** The exceptions of the modelled code, by the condition that raises them. */
  datatype Error =
    | EmptyInput        // indexing an empty byte string
    | AtInfinity        // scalar multiplication reached the point at infinity
    | WrongTag          // a decoder met another message type
    | Truncated         // a reader ran out of bytes
    | DoesNotFit        // an encoder met a field its length prefix cannot describe
    | FrameTooLarge     // a frame header announces more than MAX_FRAME bytes
    | PeerClosed        // the socket returned no bytes
    | WrongCount        // a certificate chain without exactly two certificates
    | BadCertificate    // the X.509 parser refused an item
    | BadSequence       // a record with an unexpected sequence number
    | BadRecord         // AEAD verification failed
    | BadConfig         // the server config is not the expected one
    | BadSignature      // a signature did not verify
    | BadHex            // a string is not hexadecimal

  datatype Result<+T> = Ok(value: T) | Err(error: Error) {
    predicate IsFailure() { Err? }
    function PropagateFailure<U>(): Result<U>
      requires Err?
    {
      Err(error)
    }
    function Extract(): T
      requires Ok?
    {
      value
    }
  }

  datatype Option<+T> = None | Some(value: T)

  const POINT_LEN := 33  // a compressed P-256 point
  const NONCE_LEN := 32
  const HASH_LEN := 64   // SHA-512

  lemma Assoc<T>(a: seq<T>, b: seq<T>, c: seq<T>)
    ensures a + (b + c) == (a + b) + c
  {
  }

  lemma SliceOfRest(data: bytes, start: nat, i: nat, j: nat)
    requires i <= j && start + j <= |data|
    ensures data[start..][i..j] == data[start + i..start + j] && data[start..][j..] == data[start + j..]
  {
  }

  function Min(x: int, y: int): int {
    if x < y then x else y
  }

  /** The bytes of an ASCII literal. */
  function Ascii(s: string): bytes {
    seq(|s|, i requires 0 <= i < |s| => if s[i] as int < 256 then s[i] as int else 63)
  }

  /** 256^w: the number of values a w-byte field can hold. */
  function Pow256(w: nat): (r: nat)
    ensures 0 < r
  {
    if w == 0 then 1 else 256 * Pow256(w - 1)
  }

  lemma {:induction false} Pow256Sum(v: nat, w: nat)
    ensures Pow256(v + w) == Pow256(v) * Pow256(w)
  {
    if v > 0 {
      Pow256Sum(v - 1, w);
      Regroup(256, Pow256(v - 1), Pow256(w));
    }
  }

  lemma Regroup(x: int, y: int, z: int)
    ensures x * (y * z) == (x * y) * z
  {
  }

  lemma {:induction false} Pow256Monotone(v: nat, w: nat)
    requires v <= w
    ensures Pow256(v) <= Pow256(w)
  {
    if v < w {
      Pow256Monotone(v, w - 1);
    }
  }

  /** int.from_bytes(b, "big") */
  function Value(b: bytes): (n: nat)
    ensures n < Pow256(|b|)
  {
    if b == [] then 0 else Value(b[..|b| - 1]) * 256 + b[|b| - 1]
  }

  /** n.to_bytes(w, "big") */
  function BE(n: nat, w: nat): (b: bytes)
    requires n < Pow256(w)
    ensures |b| == w && Value(b) == n
  {
    if w == 0 then [] else
      var front := BE(n / 256, w - 1);
      assert (front + [n % 256])[..w - 1] == front;
      front + [n % 256]
  }

  lemma LastDigit(v: int, d: byte)
    ensures (v * 256 + d) / 256 == v && (v * 256 + d) % 256 == d
  {
  }

  lemma {:induction false} BEOfValue(b: bytes)
    ensures BE(Value(b), |b|) == b
  {
    if b != [] {
      var front, last := b[..|b| - 1], b[|b| - 1];
      BEOfValue(front);
      LastDigit(Value(front), last);
      assert b == front + [last];
    }
  }

  /** The first bytes are the most significant. */
  lemma {:induction false} ValueAppend(a: bytes, b: bytes)
    ensures Value(a + b) == Value(a) * Pow256(|b|) + Value(b)
  {
    if b == [] {
      assert a + b == a;
    } else {
      var front, last := b[..|b| - 1], b[|b| - 1];
      ValueAppend(a, front);
      assert (a + b)[..|a + b| - 1] == a + front;
      Shift(Value(a), Pow256(|front|), Value(front), last);
    }
  }

  lemma Shift(x: int, p: int, y: int, d: int)
    ensures (x * p + y) * 256 + d == x * (256 * p) + (y * 256 + d)
  {
  }

  lemma TwoBytes(a: byte, b: byte)
    ensures 256 * a + b < Pow256(2) && BE(256 * a + b, 2) == [a, b]
  {
    assert [a, b][..1] == [a] && [a][..0] == [];
    assert Value([a, b]) == Value([a]) * 256 + b && Value([a]) == a;
    BEOfValue([a, b]);
  }

  /** On ASCII text the bytes are the characters, so different texts have different bytes. */
  lemma AsciiInjective(s: string, t: string)
    requires forall i :: 0 <= i < |s| ==> s[i] as int < 128
    requires forall i :: 0 <= i < |t| ==> t[i] as int < 128
    ensures |Ascii(s)| == |s| && forall i :: 0 <= i < |s| ==> Ascii(s)[i] == s[i] as int
    ensures Ascii(s) == Ascii(t) <==> s == t
  {
    if Ascii(s) == Ascii(t) {
      assert |s| == |Ascii(s)| == |t|;
      forall i | 0 <= i < |s| ensures s[i] == t[i] {
        assert Ascii(s)[i] == Ascii(t)[i];
      }
    }
  }

  /** The capacities of the field widths the wire formats use. */
  lemma Widths()
    ensures Pow256(1) == 256 && Pow256(2) == 65536 && Pow256(3) == 16777216
    ensures Pow256(4) == 0x1_0000_0000 && Pow256(8) == 0x1_0000_0000_0000_0000
  {
    assert Pow256(5) == 256 * Pow256(4);
    assert Pow256(6) == 256 * Pow256(5);
    assert Pow256(7) == 256 * Pow256(6);
  }

  lemma Pow256Of32()
    ensures Pow256(32) == 0x1_0000000000000000_0000000000000000_0000000000000000_0000000000000000
  {
    Widths();
    Pow256Sum(8, 8);
    Pow256Sum(16, 16);
  }
}
