/**
 A toy instance of the primitives that satisfies every ideal law the bundle theorems assume, so
 those assumptions are consistent. Nothing here resembles the real primitives.
 */
module IdealPrimitives {
  import opened Common
  import opened SignedPayload
  import opened Bundle

  /** Self-delimiting: each byte is announced by a 1, the end by a 0. */
  function Marked(s: Bytes): Bytes {
    if s == [] then [0] else [1, s[0]] + Marked(s[1..])
  }

  function Unmarked(b: Bytes): Option<(Bytes, Bytes)> {
    if b == [] then None
    else if b[0] == 0 then Some(([], b[1..]))
    else if |b| < 2 then None
    else
      var rest := Unmarked(b[2..]);
      if rest.None? then None else Some(([b[1]] + rest.value.0, rest.value.1))
  }

  lemma {:induction false} MarkedRoundTrip(s: Bytes, rest: Bytes)
    ensures Unmarked(Marked(s) + rest) == Some((s, rest))
    decreases |s|
  {
    var b := Marked(s) + rest;
    if s == [] {
      assert b[1..] == rest;
    } else {
      MarkedRoundTrip(s[1..], rest);
      assert b[2..] == Marked(s[1..]) + rest;
      assert [s[0]] + s[1..] == s;
    }
  }

  function Listed(fields: seq<Bytes>): Bytes {
    if fields == [] then [] else Marked(fields[0]) + Listed(fields[1..])
  }

  function Unlisted(n: nat, b: Bytes): Option<seq<Bytes>> {
    if n == 0 then Some([])
    else
      var first := Unmarked(b);
      if first.None? then None
      else
        var rest := Unlisted(n - 1, first.value.1);
        if rest.None? then None else Some([first.value.0] + rest.value)
  }

  lemma {:induction false} ListedRoundTrip(fields: seq<Bytes>)
    ensures Unlisted(|fields|, Listed(fields)) == Some(fields)
  {
    if fields != [] {
      MarkedRoundTrip(fields[0], Listed(fields[1..]));
      ListedRoundTrip(fields[1..]);
      assert [fields[0]] + fields[1..] == fields;
    }
  }

  function Parts(d: BundleData): seq<Bytes> {
    [d.schemaVersion, d.agentName, d.token, d.relayUrl, d.fingerprint, d.issued, d.expiry, d.bootstrapId]
  }

  function FromParts(b: Bytes): Option<BundleData> {
    var f := Unlisted(8, b);
    if f.None? || |f.value| != 8 then None
    else
      var v := f.value;
      Some(BundleData(v[0], v[1], v[2], v[3], v[4], v[5], v[6], v[7]))
  }

  function Toy(): Primitives {
    Primitives(
      x => x,
      k => k,
      (k, m) => k + m,
      (k, m, s) => s == k + m,
      k => k,
      (k, key, padding) => Some(key),
      (k, w) => Some(w),
      (k, n, pt, aad) => pt,
      (k, n, ct, aad) => Some(ct),
      x => x,
      x => Some(x),
      d => Listed(Parts(RepairedData(d))),
      b => FromParts(b),
      b => Some(|b|))
  }

  lemma IdealPrimitivesExist()
    ensures Invertible(Toy()) && SignaturesExact(Toy()) && HashInjective(Toy())
  {
    forall d ensures Toy().fromJson(Toy().toJson(d)) == Some(RepairedData(d)) {
      ListedRoundTrip(Parts(RepairedData(d)));
    }
    forall k: Bytes, m: Bytes, m': Bytes | k + m' == k + m ensures m == m' {
      assert m == (k + m)[|k|..] && m' == (k + m')[|k|..];
    }
  }
}
