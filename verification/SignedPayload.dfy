/**
 The byte string a bootstrap bundle's signature covers: seven fields, each preceded by its length
 as four big-endian bytes; and the associated data of its encryption, two fields joined by '|'.
 Go strings are byte strings, so fields are byte sequences here.
 */
module SignedPayload {
  import opened Common

  type Byte = x: int | 0 <= x < 0x100
  type Bytes = seq<Byte>

  const LENGTH_LIMIT: nat := 0x1_0000_0000
  const BAR: Byte := 0x7C

  datatype Fields = Fields(
    schemaVersion: Bytes, bootstrapId: Bytes, agentName: Bytes, recipientFingerprint: Bytes,
    encryptedKey: Bytes, nonce: Bytes, ciphertext: Bytes)

  function FieldList(f: Fields): seq<Bytes> {
    [f.schemaVersion, f.bootstrapId, f.agentName, f.recipientFingerprint, f.encryptedKey, f.nonce, f.ciphertext]
  }

  // ----- Encoding -----

  /** The length header: a 32-bit conversion, which drops the high bits of a longer length. */
  function Header(length: nat): (h: Bytes)
    ensures |h| == 4
  {
    var n := length % LENGTH_LIMIT;
    [n / 0x100_0000, n / 0x1_0000 % 0x100, n / 0x100 % 0x100, n % 0x100]
  }

  function Field(s: Bytes): Bytes {
    Header(|s|) + s
  }

  function Encoded(fields: seq<Bytes>): Bytes {
    if fields == [] then [] else Field(fields[0]) + Encoded(fields[1..])
  }

  function Payload(f: Fields): Bytes {
    Encoded(FieldList(f))
  }

  lemma {:induction false} EncodedConcat(front: seq<Bytes>, back: seq<Bytes>)
    ensures Encoded(front + back) == Encoded(front) + Encoded(back)
  {
    if front == [] {
      assert front + back == back;
    } else {
      assert (front + back)[1..] == front[1..] + back;
      EncodedConcat(front[1..], back);
    }
  }

  lemma EncodedFirst(s: Bytes, rest: seq<Bytes>)
    ensures Encoded([s] + rest) == Field(s) + Encoded(rest)
  {
    assert ([s] + rest)[1..] == rest;
  }

  /** The order on the wire: version and ID, then the agent and the recipient, then key, nonce and ciphertext. */
  lemma PayloadLayout(f: Fields)
    ensures Payload(f) ==
            Field(f.schemaVersion) + (Field(f.bootstrapId) + (Field(f.agentName) + (Field(f.recipientFingerprint) +
            (Field(f.encryptedKey) + (Field(f.nonce) + (Field(f.ciphertext) + []))))))
  {
    var key, nonce, ct := [f.encryptedKey], [f.nonce], [f.ciphertext];
    var tail := key + (nonce + (ct + []));
    EncodedFirst(f.ciphertext, []);
    EncodedFirst(f.nonce, ct + []);
    EncodedFirst(f.encryptedKey, nonce + (ct + []));
    EncodedFirst(f.recipientFingerprint, tail);
    EncodedFirst(f.agentName, [f.recipientFingerprint] + tail);
    EncodedFirst(f.bootstrapId, [f.agentName] + ([f.recipientFingerprint] + tail));
    EncodedFirst(f.schemaVersion, [f.bootstrapId] + ([f.agentName] + ([f.recipientFingerprint] + tail)));
    assert FieldList(f) ==
           [f.schemaVersion] + ([f.bootstrapId] + ([f.agentName] + ([f.recipientFingerprint] + tail)));
  }

  /** Appends the seven fields to a buffer, one after the other. */
  method ConstructSignedPayload(schemaVersion: Bytes, bootstrapId: Bytes, encryptedKey: Bytes, nonce: Bytes,
                                ciphertext: Bytes, agentName: Bytes, recipientFingerprint: Bytes)
    returns (buffer: Bytes)
    ensures buffer == Payload(Fields(schemaVersion, bootstrapId, agentName, recipientFingerprint,
                                     encryptedKey, nonce, ciphertext))
  {
    var f := Fields(schemaVersion, bootstrapId, agentName, recipientFingerprint, encryptedKey, nonce, ciphertext);
    buffer := [];
    var i := 0;
    while i < 7
      invariant 0 <= i <= 7 && buffer == Encoded(FieldList(f)[..i])
    {
      var s := FieldList(f)[i];
      buffer := buffer + Header(|s|);
      buffer := buffer + s;
      EncodedConcat(FieldList(f)[..i], [s]);
      assert FieldList(f)[..i] + [s] == FieldList(f)[..i + 1];
      i := i + 1;
    }
    assert FieldList(f)[..7] == FieldList(f);
  }

  // ----- Decoding -----

  function HeaderValue(h: Bytes): nat
    requires |h| == 4
  {
    var a: nat, b: nat, c: nat, d: nat := h[0], h[1], h[2], h[3];
    ((a * 0x100 + b) * 0x100 + c) * 0x100 + d
  }

  /** Reads exactly `n` length-prefixed fields and nothing else. */
  function Decoded(n: nat, b: Bytes): Option<seq<Bytes>> {
    if n == 0 then
      if b == [] then Some([]) else None
    else if |b| < 4 then None
    else
      var end := 4 + HeaderValue(b[..4]);
      if |b| < end then None
      else
        var rest := Decoded(n - 1, b[end..]);
        if rest.None? then None else Some([b[4..end]] + rest.value)
  }

  function Parse(b: Bytes): Option<Fields> {
    var fs := Decoded(7, b);
    if fs.None? || |fs.value| != 7 then None
    else Some(Fields(fs.value[0], fs.value[1], fs.value[2], fs.value[3], fs.value[4], fs.value[5], fs.value[6]))
  }

  lemma HeaderRoundTrip(length: nat)
    ensures HeaderValue(Header(length)) == length % LENGTH_LIMIT
  {
    var n := length % LENGTH_LIMIT;
    var a, b, c := n / 0x100, n / 0x1_0000, n / 0x100_0000;
    assert n == a * 0x100 + n % 0x100;
    assert a == b * 0x100 + a % 0x100;
    assert b == c * 0x100 + b % 0x100;
  }

  ghost predicate Short(fields: seq<Bytes>) {
    forall s | s in fields :: |s| < LENGTH_LIMIT
  }

  /** The decoder takes a short field off the front and goes on with what follows it. */
  lemma DecodeFirst(n: nat, s: Bytes, rest: Bytes)
    requires n > 0 && |s| < LENGTH_LIMIT && Decoded(n - 1, rest).Some?
    ensures Decoded(n, Field(s) + rest) == Some([s] + Decoded(n - 1, rest).value)
  {
    HeaderRoundTrip(|s|);
    var b := Field(s) + rest;
    assert b[..4] == Header(|s|);
    var end := 4 + HeaderValue(b[..4]);
    assert end == 4 + |s|;
    assert b[4..end] == s && b[end..] == rest;
  }

  /** The decoder inverts the encoder on any number of fields that fit their headers. */
  lemma {:induction false} DecodeEncode(fields: seq<Bytes>)
    requires Short(fields)
    ensures Decoded(|fields|, Encoded(fields)) == Some(fields)
  {
    if fields != [] {
      assert fields[0] in fields;
      DecodeEncode(fields[1..]);
      DecodeFirst(|fields|, fields[0], Encoded(fields[1..]));
      assert [fields[0]] + fields[1..] == fields;
    }
  }

  /** Whatever the decoder returns fits its headers. */
  lemma {:induction false} DecodedIsShort(n: nat, b: Bytes)
    requires Decoded(n, b).Some?
    ensures |Decoded(n, b).value| == n && Short(Decoded(n, b).value)
    decreases n
  {
    if n > 0 {
      DecodedIsShort(n - 1, b[4 + HeaderValue(b[..4])..]);
    }
  }

  ghost predicate Fits(f: Fields) {
    Short(FieldList(f))
  }

  /** Parsing a payload gives back its fields exactly when every length fits in 32 bits. */
  lemma PayloadRoundTrip(f: Fields)
    ensures Parse(Payload(f)) == Some(f) <==> Fits(f)
  {
    if Fits(f) {
      DecodeEncode(FieldList(f));
    }
    if Parse(Payload(f)) == Some(f) {
      DecodedIsShort(7, Payload(f));
      assert Decoded(7, Payload(f)).value == FieldList(f);
    }
  }

  /** Two bundles that fit and sign the same bytes agree on all seven fields. */
  lemma PayloadInjective(f: Fields, g: Fields)
    requires Fits(f) && Fits(g) && Payload(f) == Payload(g)
    ensures f == g
  {
    PayloadRoundTrip(f);
    PayloadRoundTrip(g);
  }

  /** Beyond that length the header wraps, and different fields can produce the same bytes. */
  lemma LongFieldsCollide()
    ensures exists f, g :: f != g && Payload(f) == Payload(g)
  {
    var zeros: Bytes := seq(LENGTH_LIMIT, _ => 0);
    WrappedFields(zeros, []);
    WrappedFields([], zeros);
    var f, g := FirstAndLast(zeros, []), FirstAndLast([], zeros);
    assert f.schemaVersion != g.schemaVersion;
    assert Payload(f) == Payload(g);
  }

  function FirstAndLast(first: Bytes, last: Bytes): Fields {
    Fields(first, [], [], [], [], [], last)
  }

  /** All-zero fields whose lengths wrap to zero leave nothing but zeros, in whichever field they are. */
  lemma WrappedFields(first: Bytes, last: Bytes)
    requires Zero(first) && Zero(last) && |first| % LENGTH_LIMIT == 0 && |last| % LENGTH_LIMIT == 0
    ensures Payload(FirstAndLast(first, last)) == seq(28 + |first| + |last|, _ => 0)
  {
    var fields := FieldList(FirstAndLast(first, last));
    ZeroFields(fields);
    TotalOfSeven(fields);
    assert |Payload(FirstAndLast(first, last))| == 28 + |first| + |last|;
  }

  ghost predicate Zero(b: Bytes) {
    forall i | 0 <= i < |b| :: b[i] == 0
  }

  function TotalLength(fields: seq<Bytes>): nat {
    if fields == [] then 0 else |fields[0]| + TotalLength(fields[1..])
  }

  lemma TotalOfSeven(fs: seq<Bytes>)
    requires |fs| == 7
    ensures TotalLength(fs) == |fs[0]| + |fs[1]| + |fs[2]| + |fs[3]| + |fs[4]| + |fs[5]| + |fs[6]|
  {
    var r1 := fs[1..];
    var r2, r3 := r1[1..], r1[1..][1..];
    var r4, r5 := r3[1..], r3[1..][1..];
    var r6 := r5[1..];
    assert TotalLength(r1) == |r1[0]| + TotalLength(r2) && TotalLength(r2) == |r2[0]| + TotalLength(r3);
    assert TotalLength(r3) == |r3[0]| + TotalLength(r4) && TotalLength(r4) == |r4[0]| + TotalLength(r5);
    assert TotalLength(r5) == |r5[0]| + TotalLength(r6) && TotalLength(r6) == |r6[0]|;
  }

  lemma {:induction false} ZeroFields(fields: seq<Bytes>)
    requires forall s | s in fields :: Zero(s) && |s| % LENGTH_LIMIT == 0
    ensures Zero(Encoded(fields)) && |Encoded(fields)| == 4 * |fields| + TotalLength(fields)
  {
    if fields != [] {
      assert fields[0] in fields;
      ZeroFields(fields[1..]);
      assert Zero(Header(|fields[0]|));
    }
  }

  // ----- Associated data -----

  function AssociatedData(schemaVersion: Bytes, bootstrapId: Bytes): Bytes {
    schemaVersion + [BAR] + bootstrapId
  }

  /** A schema version without '|' makes the associated data say which version and ID it binds. */
  lemma AssociatedDataInjective(s: Bytes, id: Bytes, s': Bytes, id': Bytes)
    requires BAR !in s && BAR !in s' && AssociatedData(s, id) == AssociatedData(s', id')
    ensures s == s' && id == id'
  {
    var a := AssociatedData(s, id);
    assert a[|s|] == BAR && a[|s'|] == BAR;
    assert a[..|s|] == s && a[..|s'|] == s';
    assert forall i | 0 <= i < |s| :: a[i] == s[i] && a[i] != BAR;
    assert forall i | 0 <= i < |s'| :: a[i] == s'[i] && a[i] != BAR;
    assert |s| == |s'|;
    assert a[|s| + 1..] == id && a[|s'| + 1..] == id';
  }

  ghost predicate Confusable(s: Bytes, id: Bytes) {
    exists s', id' :: BAR !in s' && s' != s && AssociatedData(s, id) == AssociatedData(s', id')
  }

  /** Exactly the schema versions that contain a '|' can be taken for one that does not. */
  lemma ConfusableExactlyWithBar(s: Bytes, id: Bytes)
    ensures Confusable(s, id) <==> BAR in s
  {
    if BAR in s {
      var k := FirstBar(s);
      var s', id' := s[..k], s[k + 1..] + [BAR] + id;
      assert AssociatedData(s', id') == AssociatedData(s, id) by {
        assert s == s[..k] + [BAR] + s[k + 1..];
      }
    } else if Confusable(s, id) {
      var s', id' :| BAR !in s' && s' != s && AssociatedData(s, id) == AssociatedData(s', id');
      AssociatedDataInjective(s, id, s', id');
    }
  }

  lemma FirstBar(s: Bytes) returns (k: nat)
    requires BAR in s
    ensures k < |s| && s[k] == BAR && BAR !in s[..k]
  {
    k := 0;
    while s[k] != BAR
      invariant k < |s| && BAR !in s[..k]
      decreases |s| - k
    {
      assert s[..k + 1] == s[..k] + [s[k]];
      assert s == s[..|s|];
      k := k + 1;
    }
  }
}
