/** Symbolic messages for the handshake: hashes, key derivation, MACs, authenticated encryption and
    Diffie-Hellman as free constructors, an attacker who derives terms from what was sent, and the
    predicate that bounds what it can ever derive. */
module Terms {
  import opened Bytes

  /** A private scalar belongs to an honest party or to the attacker. */
  datatype Owner = Honest(n: nat) | Attacker(n: nat)

  /** The one-way functions, told apart by their salt and info constants. */
  datatype Prim = Sha512 | OprfOutput | Argon2id | EnvelopeKey | SessionKey | MacKey | ExportKey | Extract | ExpandLabel

  datatype Term =
    | Data(b: bytes)                                   // bytes anyone can write down
    | Random(n: nat)                                   // fresh bytes that are sent in the clear
    | Password(user: nat)
    | Scalar(x: Owner)
    | Pub(x: Owner)                                    // the encoded point x*G
    | Dh(x: Owner, y: Owner)                           // the shared secret of x and y
    | Fn(f: Prim, args: seq<Term>)
    | Mac(key: Term, msg: seq<Term>)                   // HMAC-SHA512
    | Seal(key: Term, nonce: Term, plaintext: seq<Term>)  // AES-256-GCM with the envelope's AAD
    | List(items: seq<Term>)                           // a packed message

  /** The order of a Diffie-Hellman pair does not matter: x*(y*G) = y*(x*G). */
  function Shared(x: Owner, y: Owner): Term {
    if Before(x, y) then Dh(x, y) else Dh(y, x)
  }

  predicate Before(x: Owner, y: Owner) {
    match (x, y)
    case (Honest(m), Honest(n)) => m <= n
    case (Honest(_), Attacker(_)) => true
    case (Attacker(_), Honest(_)) => false
    case (Attacker(m), Attacker(n)) => m <= n
  }

  lemma SharedCommutes(x: Owner, y: Owner)
    ensures Shared(x, y) == Shared(y, x)
  {
  }

  lemma SharedInjective(x: Owner, x': Owner, y: Owner)
    requires Shared(x, y) == Shared(x', y)
    ensures x == x'
  {
  }

  // ---------------------------------------------------------------- the attacker

  /** How the attacker obtains a term. */
  datatype Derivation =
    | Seen(t: Term)
    | Write(b: bytes)
    | Draw(n: nat)
    | OwnKey(n: nat)
    | PublicKey(priv: Derivation)
    | Agree(priv: Derivation, pub: Derivation)
    | Apply(f: Prim, args: seq<Derivation>)
    | Authenticate(key: Derivation, msg: seq<Derivation>)
    | Encrypt(key: Derivation, nonce: Derivation, plaintext: seq<Derivation>)
    | Decrypt(key: Derivation, ciphertext: Derivation, i: nat)
    | Pack(items: seq<Derivation>)
    | Unpack(packed: Derivation, i: nat)

  /** What a derivation yields from the messages on the network; None where a step does not apply. */
  function Yields(net: set<Term>, d: Derivation): Option<Term> {
    match d
    case Seen(t) => if t in net then Some(t) else None
    case Write(b) => Some(Data(b))
    case Draw(n) => Some(Random(n))
    case OwnKey(n) => Some(Scalar(Attacker(n)))
    case PublicKey(priv) =>
      (match Yields(net, priv)
       case Some(Scalar(x)) => Some(Pub(x))
       case _ => None)
    case Agree(priv, pub) =>
      (match (Yields(net, priv), Yields(net, pub))
       case (Some(Scalar(x)), Some(Pub(y))) => Some(Shared(x, y))
       case _ => None)
    case Apply(f, args) =>
      (match YieldsAll(net, args)
       case Some(ts) => Some(Fn(f, ts))
       case None => None)
    case Authenticate(key, msg) =>
      (match (Yields(net, key), YieldsAll(net, msg))
       case (Some(k), Some(m)) => Some(Mac(k, m))
       case _ => None)
    case Encrypt(key, nonce, plaintext) =>
      (match (Yields(net, key), Yields(net, nonce), YieldsAll(net, plaintext))
       case (Some(k), Some(n), Some(p)) => Some(Seal(k, n, p))
       case _ => None)
    case Decrypt(key, ciphertext, i) =>
      (match (Yields(net, key), Yields(net, ciphertext))
       case (Some(k), Some(Seal(k', _, p))) => if k == k' && i < |p| then Some(p[i]) else None
       case _ => None)
    case Pack(items) =>
      (match YieldsAll(net, items)
       case Some(ts) => Some(List(ts))
       case None => None)
    case Unpack(packed, i) =>
      (match Yields(net, packed)
       case Some(List(ts)) => if i < |ts| then Some(ts[i]) else None
       case _ => None)
  }

  function YieldsAll(net: set<Term>, ds: seq<Derivation>): Option<seq<Term>> {
    if ds == [] then Some([])
    else
      match (Yields(net, ds[0]), YieldsAll(net, ds[1..]))
      case (Some(t), Some(ts)) => Some([t] + ts)
      case _ => None
  }

  ghost predicate Derivable(net: set<Term>, t: Term) {
    exists d :: Yields(net, d) == Some(t)
  }

  // ---------------------------------------------------------------- what can become public

  /** The terms that may become public when honest parties made exactly the MACs and seals in
      `made`. Passwords and honest scalars never do; a function value only with all its arguments. */
  predicate Public(made: set<Term>, t: Term) {
    match t
    case Data(_) => true
    case Random(_) => true
    case Password(_) => false
    case Scalar(x) => x.Attacker?
    case Pub(_) => true
    case Dh(x, y) => x.Attacker? || y.Attacker?
    case Fn(_, args) => forall i :: 0 <= i < |args| ==> Public(made, args[i])
    case Mac(k, m) => t in made || (Public(made, k) && forall i :: 0 <= i < |m| ==> Public(made, m[i]))
    case Seal(k, n, p) =>
      t in made || (Public(made, k) && Public(made, n) && forall i :: 0 <= i < |p| ==> Public(made, p[i]))
    case List(ts) => forall i :: 0 <= i < |ts| ==> Public(made, ts[i])
  }

  predicate AllPublic(made: set<Term>, ts: seq<Term>) {
    forall i :: 0 <= i < |ts| ==> Public(made, ts[i])
  }

  /** Honest seals use keys the attacker does not get. */
  ghost predicate SealsKept(made: set<Term>) {
    forall t :: t in made && t.Seal? ==> !Public(made, t.key)
  }

  lemma {:induction false} DerivesOnlyPublic(made: set<Term>, net: set<Term>, d: Derivation)
    requires SealsKept(made) && forall t :: t in net ==> Public(made, t)
    ensures Yields(net, d).Some? ==> Public(made, Yields(net, d).value)
  {
    match d
    case Seen(_) =>
    case Write(_) =>
    case Draw(_) =>
    case OwnKey(_) =>
    case PublicKey(priv) =>
    case Agree(priv, pub) => DerivesOnlyPublic(made, net, priv);
    case Apply(_, args) => DeriveAllPublic(made, net, args);
    case Authenticate(key, msg) => DerivesOnlyPublic(made, net, key); DeriveAllPublic(made, net, msg);
    case Encrypt(key, nonce, p) =>
      DerivesOnlyPublic(made, net, key); DerivesOnlyPublic(made, net, nonce); DeriveAllPublic(made, net, p);
    case Decrypt(key, c, _) => DerivesOnlyPublic(made, net, key); DerivesOnlyPublic(made, net, c);
    case Pack(items) => DeriveAllPublic(made, net, items);
    case Unpack(packed, _) => DerivesOnlyPublic(made, net, packed);
  }

  lemma {:induction false} DeriveAllPublic(made: set<Term>, net: set<Term>, ds: seq<Derivation>)
    requires SealsKept(made) && forall t :: t in net ==> Public(made, t)
    ensures YieldsAll(net, ds).Some? ==> AllPublic(made, YieldsAll(net, ds).value)
  {
    if ds != [] {
      DerivesOnlyPublic(made, net, ds[0]);
      DeriveAllPublic(made, net, ds[1..]);
    }
  }

  /** No derivation leaves the public terms. */
  lemma DerivableIsPublic(made: set<Term>, net: set<Term>, t: Term)
    requires SealsKept(made) && (forall u :: u in net ==> Public(made, u)) && Derivable(net, t)
    ensures Public(made, t)
  {
    var d :| Yields(net, d) == Some(t);
    DerivesOnlyPublic(made, net, d);
  }

  /** Making more MACs and seals only makes more terms public. */
  lemma {:induction false} PublicMonotone(made: set<Term>, made': set<Term>, t: Term)
    requires made <= made' && Public(made, t)
    ensures Public(made', t)
  {
    match t
    case Fn(_, args) => AllPublicMonotone(made, made', args);
    case Mac(k, m) => if t !in made { PublicMonotone(made, made', k); AllPublicMonotone(made, made', m); }
    case Seal(k, n, p) =>
      if t !in made {
        PublicMonotone(made, made', k); PublicMonotone(made, made', n); AllPublicMonotone(made, made', p);
      }
    case List(ts) => AllPublicMonotone(made, made', ts);
    case _ =>
  }

  lemma {:induction false} AllPublicMonotone(made: set<Term>, made': set<Term>, ts: seq<Term>)
    requires made <= made' && AllPublic(made, ts)
    ensures AllPublic(made', ts)
  {
    forall i | 0 <= i < |ts| ensures Public(made', ts[i]) {
      PublicMonotone(made, made', ts[i]);
    }
  }
}
