/** Length-prefixed layouts: every binary format of the repository is a list of fields, each either
    a fixed number of bytes or a value behind a big-endian length. One set of lemmas about layouts
    serves all of them. */
module Wire {
  import opened Bytes

  datatype Field = Fixed(n: nat) | Var(w: nat)

  predicate FieldFits(f: Field, v: bytes) {
    match f
    case Fixed(n) => |v| == n
    case Var(w) => |v| < Pow256(w)
  }

  function FieldBytes(f: Field, v: bytes): bytes
    requires FieldFits(f, v)
  {
    match f
    case Fixed(_) => v
    case Var(w) => BE(|v|, w) + v
  }

  predicate Fits(layout: seq<Field>, vs: seq<bytes>) {
    |vs| == |layout| && forall j :: 0 <= j < |vs| ==> FieldFits(layout[j], vs[j])
  }

  /** The encoding of the fields from index i on. */
  function PrintFrom(layout: seq<Field>, vs: seq<bytes>, i: nat): bytes
    requires Fits(layout, vs) && i <= |layout|
    decreases |layout| - i
  {
    if i == |layout| then [] else FieldBytes(layout[i], vs[i]) + PrintFrom(layout, vs, i + 1)
  }

  function Print(layout: seq<Field>, vs: seq<bytes>): bytes
    requires Fits(layout, vs)
  {
    PrintFrom(layout, vs, 0)
  }

  /** Split one field off the front of d. */
  function TakeField(f: Field, d: bytes): Option<(bytes, bytes)> {
    match f
    case Fixed(n) => if |d| < n then None else Some((d[..n], d[n..]))
    case Var(w) =>
      if |d| < w then None
      else
        var len := Value(d[..w]);
        if |d| < w + len then None else Some((d[w..w + len], d[w + len..]))
  }

  /** Read the fields that follow those already in acc. */
  function Parse(layout: seq<Field>, acc: seq<bytes>, d: bytes): Option<(seq<bytes>, bytes)>
    requires |acc| <= |layout|
    decreases |layout| - |acc|
  {
    if |acc| == |layout| then Some((acc, d))
    else
      match TakeField(layout[|acc|], d)
      case None => None
      case Some((v, rest)) => Parse(layout, acc + [v], rest)
  }

  /** A length-prefixed field at position p of d. */
  lemma TakeVar(d: bytes, p: nat, w: nat)
    requires p + w <= |d|
    ensures var n := Value(d[p..p + w]);
      TakeField(Var(w), d[p..]) ==
        if p + w + n > |d| then None else Some((d[p + w..p + w + n], d[p + w + n..]))
  {
    SliceOfRest(d, p, 0, w);
    var n := Value(d[p..p + w]);
    if p + w + n <= |d| {
      SliceOfRest(d, p, w, w + n);
    }
  }

  lemma TakeFieldOfBytes(f: Field, v: bytes, rest: bytes)
    requires FieldFits(f, v)
    ensures TakeField(f, FieldBytes(f, v) + rest) == Some((v, rest))
  {
    var d := FieldBytes(f, v) + rest;
    match f
    case Fixed(n) =>
      assert d[..n] == v && d[n..] == rest;
    case Var(w) =>
      assert d[..w] == BE(|v|, w);
      assert d[w..w + |v|] == v && d[w + |v|..] == rest;
  }

  lemma BytesOfTakenField(f: Field, d: bytes)
    requires TakeField(f, d).Some?
    ensures var (v, rest) := TakeField(f, d).value;
      FieldFits(f, v) && d == FieldBytes(f, v) + rest
  {
    match f
    case Fixed(n) =>
    case Var(w) =>
      BEOfValue(d[..w]);
  }

  lemma {:induction false} ParseOfPrint(layout: seq<Field>, vs: seq<bytes>, i: nat, rest: bytes)
    requires Fits(layout, vs) && i <= |vs|
    ensures Parse(layout, vs[..i], PrintFrom(layout, vs, i) + rest) == Some((vs, rest))
    decreases |vs| - i
  {
    if i == |vs| {
      assert vs[..i] == vs;
      assert [] + rest == rest;
    } else {
      var tail := PrintFrom(layout, vs, i + 1);
      TakeFieldOfBytes(layout[i], vs[i], tail + rest);
      Assoc(FieldBytes(layout[i], vs[i]), tail, rest);
      assert vs[..i] + [vs[i]] == vs[..i + 1];
      ParseOfPrint(layout, vs, i + 1, rest);
    }
  }

  lemma {:induction false} PrintOfParse(layout: seq<Field>, acc: seq<bytes>, d: bytes, vs: seq<bytes>, rest: bytes)
    requires |acc| <= |layout| && forall j :: 0 <= j < |acc| ==> FieldFits(layout[j], acc[j])
    requires Parse(layout, acc, d) == Some((vs, rest))
    ensures Fits(layout, vs) && acc <= vs && d == PrintFrom(layout, vs, |acc|) + rest
    decreases |layout| - |acc|
  {
    if |acc| < |layout| {
      var f, i := layout[|acc|], |acc|;
      var (v, tail) := TakeField(f, d).value;
      BytesOfTakenField(f, d);
      var more := acc + [v];
      assert more[i] == v && forall j :: 0 <= j < i ==> more[j] == acc[j];
      PrintOfParse(layout, more, tail, vs, rest);
      assert acc <= more && vs[i] == more[i] == v;
      Assoc(FieldBytes(f, v), PrintFrom(layout, vs, i + 1), rest);
    }
  }

  /** A string that starts with an encoding parses to exactly its fields. */
  lemma ParseStart(layout: seq<Field>, vs: seq<bytes>, d: bytes)
    requires Fits(layout, vs) && Print(layout, vs) <= d
    ensures Parse(layout, [], d) == Some((vs, d[|Print(layout, vs)|..]))
  {
    var n := |Print(layout, vs)|;
    assert d == Print(layout, vs) + d[n..];
    assert vs[..0] == [];
    ParseOfPrint(layout, vs, 0, d[n..]);
  }

  /** The fields read from d are the only ones whose encoding is a prefix of d. */
  lemma Canonical(layout: seq<Field>, d: bytes)
    ensures Parse(layout, [], d).Some? ==>
      var (vs, rest) := Parse(layout, [], d).value; Fits(layout, vs) && d == Print(layout, vs) + rest
    ensures forall vs :: Fits(layout, vs) && Print(layout, vs) <= d ==>
      Parse(layout, [], d) == Some((vs, d[|Print(layout, vs)|..]))
  {
    if Parse(layout, [], d).Some? {
      var (vs, rest) := Parse(layout, [], d).value;
      PrintOfParse(layout, [], d, vs, rest);
    }
    forall vs | Fits(layout, vs) && Print(layout, vs) <= d
      ensures Parse(layout, [], d) == Some((vs, d[|Print(layout, vs)|..]))
    {
      ParseStart(layout, vs, d);
    }
  }

  /** Encodings that start the same string have the same fields: no encoding is a proper prefix of
      another, and equal encodings come from equal fields. */
  lemma PrefixFree(layout: seq<Field>, vs: seq<bytes>, vs': seq<bytes>, d: bytes)
    requires Fits(layout, vs) && Fits(layout, vs')
    requires Print(layout, vs) <= d && Print(layout, vs') <= d
    ensures vs == vs'
  {
    ParseStart(layout, vs, d);
    ParseStart(layout, vs', d);
  }

  // ---------------------------------------------------------------- encoders and partial reads

  /** An encoder: the fields in order, or the exception of a field that does not fit. */
  function Encode(layout: seq<Field>, vs: seq<bytes>): Result<bytes> {
    if Fits(layout, vs) then Ok(Print(layout, vs)) else Err(DoesNotFit)
  }

  /** The encoder succeeded and its output starts d. */
  ghost predicate Starts(e: Result<bytes>, d: bytes) {
    e.Ok? && e.value <= d
  }

  /** An unsigned integer as a field of w bytes; out of range it is a value no such field holds. */
  function U(n: int, w: nat): (v: bytes)
    ensures |v| == w ==> 0 <= n < Pow256(w)
    ensures 0 <= n < Pow256(w) ==> |v| == w && Value(v) == n
  {
    if 0 <= n < Pow256(w) then BE(n, w) else seq(w + 1, i => 0)
  }

  /** An encoding that opens with a tag only starts strings that open with it. */
  lemma OpensWithTag(layout: seq<Field>, vs: seq<bytes>, tag: byte, d: bytes)
    requires layout != [] && layout[0] == Fixed(1)
    requires Starts(Encode(layout, vs), d) && vs[0] == U(tag, 1)
    ensures d != [] && d[0] == tag
  {
    SingleByte(tag);
    assert Print(layout, vs) == vs[0] + PrintFrom(layout, vs, 1);
  }

  /** An encoding cut short starts with no encoding. */
  lemma CutShort(layout: seq<Field>, vs: seq<bytes>, d: bytes)
    requires Encode(layout, vs).Ok? && d < Encode(layout, vs).value
    ensures forall vs' :: !Starts(Encode(layout, vs'), d)
  {
    forall vs' | Starts(Encode(layout, vs'), d) ensures false {
      PrefixFree(layout, vs, vs', Encode(layout, vs).value);
    }
  }

  /** What a parse of d, or its first byte, says about the encodings that start d. */
  lemma Verdict(layout: seq<Field>, tag: byte, d: bytes)
    requires layout != [] && layout[0] == Fixed(1)
    ensures Parse(layout, [], d).Some? ==> Starts(Encode(layout, Parse(layout, [], d).value.0), d)
    ensures Parse(layout, [], d).None? ==> forall vs :: !Starts(Encode(layout, vs), d)
    ensures forall vs :: Starts(Encode(layout, vs), d) && vs[0] == U(tag, 1) ==> d != [] && d[0] == tag
  {
    Canonical(layout, d);
    forall vs | Starts(Encode(layout, vs), d) && vs[0] == U(tag, 1)
      ensures d != [] && d[0] == tag
    {
      OpensWithTag(layout, vs, tag, d);
    }
  }

  lemma SingleByte(b: byte)
    ensures Value([b]) == b && U(b, 1) == [b]
  {
    assert [b][..0] == [];
    BEOfValue([b]);
  }

  /** One message per encoding, no encoding a proper prefix of another. */
  lemma UniqueStart(layout: seq<Field>, vs: seq<bytes>, vs': seq<bytes>, d: bytes)
    requires Starts(Encode(layout, vs), d) && Starts(Encode(layout, vs'), d)
    ensures vs == vs'
  {
    PrefixFree(layout, vs, vs', d);
  }

  lemma FitsAppend(l: seq<Field>, v: seq<bytes>, l': seq<Field>, v': seq<bytes>)
    requires |v| == |l| && |v'| == |l'|
    ensures Fits(l + l', v + v') <==> Fits(l, v) && Fits(l', v')
  {
    if Fits(l + l', v + v') {
      assert forall j :: 0 <= j < |l| ==> l[j] == (l + l')[j] && v[j] == (v + v')[j];
      forall j | 0 <= j < |l'| ensures FieldFits(l'[j], v'[j]) {
        assert l'[j] == (l + l')[|l| + j] && v'[j] == (v + v')[|l| + j];
      }
    }
  }

  /** Printing a joined layout from its second part on prints the second part. */
  lemma {:induction false} PrintTail(l: seq<Field>, v: seq<bytes>, l': seq<Field>, v': seq<bytes>, i: nat)
    requires Fits(l, v) && Fits(l', v') && Fits(l + l', v + v') && i <= |l'|
    ensures PrintFrom(l + l', v + v', |l| + i) == PrintFrom(l', v', i)
    decreases |l'| - i
  {
    if i < |l'| {
      var j := |l| + i;
      assert (l + l')[j] == l'[i] && (v + v')[j] == v'[i];
      PrintTail(l, v, l', v', i + 1);
      assert j + 1 == |l| + (i + 1);
      assert PrintFrom(l + l', v + v', j) == FieldBytes((l + l')[j], (v + v')[j]) + PrintFrom(l + l', v + v', j + 1);
    }
  }

  /** Layouts laid end to end print end to end. */
  lemma {:induction false} PrintAppend(l: seq<Field>, v: seq<bytes>, l': seq<Field>, v': seq<bytes>, i: nat)
    requires Fits(l, v) && Fits(l', v') && Fits(l + l', v + v') && i <= |l|
    ensures PrintFrom(l + l', v + v', i) == PrintFrom(l, v, i) + Print(l', v')
    decreases |l| - i
  {
    if i < |l| {
      PrintAppend(l, v, l', v', i + 1);
      assert (l + l')[i] == l[i] && (v + v')[i] == v[i];
      Assoc(FieldBytes(l[i], v[i]), PrintFrom(l, v, i + 1), Print(l', v'));
    } else {
      PrintTail(l, v, l', v', 0);
      assert PrintFrom(l, v, |l|) == [];
    }
  }
}
