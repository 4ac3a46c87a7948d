/** The payment-notification handler (`POST /api/payfast/notify`): it
    rebuilds the signature string from the received form fields, hashes it
    with the merchant key appended, and answers 200, 400 or 500.

    The MD5 hex digest is a parameter `md5Hex`: nothing here depends on what
    MD5 computes.  The merchant key is the environment value, `None` when it
    is unset. */
module PayfastNotify {
  import opened Text
  import opened Wrappers
  import opened Seqs
  import opened FormFields
  import UriComponent

  /** What `request.formData()` produced: the entries, or a failure to read
      the body (which throws inside the handler). */
  datatype Request = FormBody(entries: Payload) | UnreadableBody

  datatype Body = Success | Error(message: string)

  datatype Response = Response(status: nat, body: Body)

  const InvalidSignature: Response := Response(400, Error("Invalid signature"))
  const ServerError: Response := Response(500, Error("Internal server error"))
  const Accepted: Response := Response(200, Success)

  predicate IsSignatureField(f: Field) {
    f.key == "signature"
  }

  predicate IsSignedField(f: Field) {
    f.key != "signature"
  }

  // ---------------------------------------------------------------------
  // The signature string.

  /** The fields the signature covers: all but `signature`, in order. */
  function SignedFields(p: Payload): (r: Payload)
    ensures forall i :: 0 <= i < |r| ==> r[i].key != "signature"
    ensures !HasKey(p, "signature") ==> r == p
  {
    if p == [] then []
    else if IsSignedField(p[0]) then [p[0]] + SignedFields(p[1..])
    else SignedFields(p[1..])
  }

  /** `SignedFields` is the filter the handler applies. */
  lemma {:induction false} SignedFieldsIsFilter(p: Payload)
    ensures SignedFields(p) == Filter(p, IsSignedField)
  {
    if p != [] {
      SignedFieldsIsFilter(p[1..]);
    }
  }

  /** The signed fields keep the order they were received in, and only the
      `signature` fields are dropped. */
  lemma SignedFieldsKeepOthers(p: Payload)
    ensures IsSubsequence(SignedFields(p), p)
    ensures |SignedFields(p)| + |Filter(p, IsSignatureField)| == |p|
  {
    SignedFieldsIsFilter(p);
    FilterIsSubsequence(p, IsSignedField);
    FilterComplementCount(p, IsSignedField, IsSignatureField);
  }

  /** `key=encodeURIComponent(value)`; the key is not encoded. */
  function RenderField(f: Field): string {
    f.key + "=" + UriComponent.Encode(f.value)
  }

  function RenderAll(p: Payload): (r: seq<string>)
    ensures |r| == |p|
    ensures forall i :: 0 <= i < |p| ==> r[i] == RenderField(p[i])
  {
    if p == [] then [] else [RenderField(p[0])] + RenderAll(p[1..])
  }

  function SignatureString(p: Payload): string {
    Join(RenderAll(SignedFields(p)), "&")
  }

  /** `signatureString + merchantKey`: no separator, and an unset key
      becomes the text "undefined" as JavaScript's `+` makes it. */
  function HashInput(p: Payload, merchantKey: Option<string>): (r: string)
    ensures StartsWith(r, SignatureString(p))
    ensures merchantKey.Some? ==> r[|SignatureString(p)|..] == merchantKey.value
    ensures merchantKey.None? ==> r[|SignatureString(p)|..] == "undefined"
  {
    SignatureString(p) + merchantKey.GetOr("undefined")
  }

  /** The handler.  It answers 200 exactly when the body was readable and its
      `signature` field equals the digest of the hash input; a readable body
      with a missing or different signature gets 400, an unreadable one 500. */
  function Notify(req: Request, merchantKey: Option<string>, md5Hex: string -> string): (r: Response)
    ensures r.status == 200 <==>
      req.FormBody? &&
      Lookup(FromEntries(req.entries), "signature") == Some(md5Hex(HashInput(FromEntries(req.entries), merchantKey)))
    ensures r.status == 200 ==> r.body == Success
    ensures r.status in {200, 400, 500}
    ensures r.status == 500 <==> req.UnreadableBody?
    ensures r.status == 400 ==> r.body == Error("Invalid signature")
    ensures r.status == 500 ==> r.body == Error("Internal server error")
    ensures req.FormBody? && !HasKey(req.entries, "signature") ==> r == InvalidSignature
  {
    match req
    case UnreadableBody => ServerError
    case FormBody(entries) =>
      var data := FromEntries(entries);
      var signature := Lookup(data, "signature");
      var generated := md5Hex(HashInput(data, merchantKey));
      if signature != Some(generated) then InvalidSignature else Accepted
  }

  // ---------------------------------------------------------------------
  // Properties of the signature string.

  /** No `&` or `=` occurs inside an encoded value, so a value ends at the
      first `&` after its `=`. */
  lemma SplitAtFirstSeparator(a: string, x: string, b: string, y: string, sep: char)
    requires forall i :: 0 <= i < |a| ==> a[i] != sep
    requires forall i :: 0 <= i < |b| ==> b[i] != sep
    requires a + [sep] + x == b + [sep] + y
    ensures a == b && x == y
  {
    var l := a + [sep] + x;
    assert l[|a|] == sep && l[|b|] == sep;
    if |a| != |b| {
      assert false;
    }
    assert a == (a + [sep] + x)[..|a|];
    assert b == (b + [sep] + y)[..|b|];
    assert x == (a + [sep] + x)[|a| + 1..];
    assert y == (b + [sep] + y)[|b| + 1..];
  }

  predicate SameKeys(p: Payload, q: Payload) {
    |p| == |q| && forall i :: 0 <= i < |p| ==> p[i].key == q[i].key
  }

  lemma SameKeysTail(p: Payload, q: Payload)
    requires SameKeys(p, q) && p != []
    ensures SameKeys(p[1..], q[1..])
  {
    forall i | 0 <= i < |p| - 1 ensures p[1..][i].key == q[1..][i].key {
      assert p[1..][i] == p[i + 1] && q[1..][i] == q[i + 1];
    }
  }

  lemma SameKeysCons(f: Field, g: Field, p: Payload, q: Payload)
    requires f.key == g.key && SameKeys(p, q)
    ensures SameKeys([f] + p, [g] + q)
  {
    forall i | 0 <= i < |p| + 1 ensures ([f] + p)[i].key == ([g] + q)[i].key {
      if i > 0 {
        assert ([f] + p)[i] == p[i - 1] && ([g] + q)[i] == q[i - 1];
      }
    }
  }

  lemma ConsEqual(f: Field, g: Field, p: Payload, q: Payload)
    requires [f] + p == [g] + q
    ensures f == g && p == q
  {
    assert f == ([f] + p)[0] && g == ([g] + q)[0];
    assert p == ([f] + p)[1..] && q == ([g] + q)[1..];
  }

  lemma PrefixCancel(k: string, a: string, b: string)
    requires k + a == k + b
    ensures a == b
  {
    assert a == (k + a)[|k|..];
    assert b == (k + b)[|k|..];
  }

  lemma JoinRenderedCons(p: Payload)
    requires |p| > 1
    ensures Join(RenderAll(p), "&")
         == p[0].key + "=" + (UriComponent.Encode(p[0].value) + "&" + Join(RenderAll(p[1..]), "&"))
  {
    var r := RenderAll(p);
    assert r[1..] == RenderAll(p[1..]);
    JoinCons(r, "&");
    Regroup(p[0].key + "=", UriComponent.Encode(p[0].value), "&", Join(r[1..], "&"));
  }

  lemma JoinCons(parts: seq<string>, sep: string)
    requires |parts| > 1
    ensures Join(parts, sep) == parts[0] + sep + Join(parts[1..], sep)
  {
  }

  lemma Regroup(a: string, e: string, s: string, j: string)
    ensures a + e + s + j == a + (e + s + j)
  {
  }

  /** Field lists with the same keys and the same rendering are equal. */
  lemma {:induction false} RenderingDeterminesValues(p: Payload, q: Payload)
    requires SameKeys(p, q)
    requires Join(RenderAll(p), "&") == Join(RenderAll(q), "&")
    ensures p == q
  {
    if p != [] {
      var a := UriComponent.Encode(p[0].value);
      var b := UriComponent.Encode(q[0].value);
      if |p| == 1 {
        PrefixCancel(p[0].key + "=", a, b);
      } else {
        var x := Join(RenderAll(p[1..]), "&");
        var y := Join(RenderAll(q[1..]), "&");
        JoinRenderedCons(p);
        JoinRenderedCons(q);
        PrefixCancel(p[0].key + "=", a + "&" + x, b + "&" + y);
        SplitAtFirstSeparator(a, x, b, y, '&');
        SameKeysTail(p, q);
        RenderingDeterminesValues(p[1..], q[1..]);
        assert p == [p[0]] + p[1..];
        assert q == [q[0]] + q[1..];
      }
      UriComponent.EncodeInjective(p[0].value, q[0].value);
    }
  }

  lemma {:induction false} SignedFieldsKeepSameKeys(p: Payload, q: Payload)
    requires SameKeys(p, q)
    ensures SameKeys(SignedFields(p), SignedFields(q))
  {
    if p != [] {
      SameKeysTail(p, q);
      SignedFieldsKeepSameKeys(p[1..], q[1..]);
      SignedFieldsSameKeysStep(p, q);
    }
  }

  lemma SignedFieldsSameKeysStep(p: Payload, q: Payload)
    requires SameKeys(p, q) && p != []
    requires SameKeys(SignedFields(p[1..]), SignedFields(q[1..]))
    ensures SameKeys(SignedFields(p), SignedFields(q))
  {
    SignedFieldsCons(p);
    SignedFieldsCons(q);
    if IsSignedField(p[0]) {
      SameKeysCons(p[0], q[0], SignedFields(p[1..]), SignedFields(q[1..]));
    }
  }

  lemma SignedFieldsCons(p: Payload)
    requires p != []
    ensures SignedFields(p) == if IsSignedField(p[0]) then [p[0]] + SignedFields(p[1..]) else SignedFields(p[1..])
  {
  }

  /** Equal signed parts of two same-keyed payloads agree on every field
      the signature covers. */
  lemma {:induction false} EqualSignedFieldsAgree(p: Payload, q: Payload, i: nat)
    requires SameKeys(p, q)
    requires SignedFields(p) == SignedFields(q)
    requires i < |p| && p[i].key != "signature"
    ensures p[i] == q[i]
    decreases i, 1
  {
    if i == 0 {
      EqualSignedFieldsHead(p, q);
    } else {
      EqualSignedFieldsLater(p, q, i);
    }
  }

  lemma {:induction false} EqualSignedFieldsLater(p: Payload, q: Payload, i: nat)
    requires SameKeys(p, q)
    requires SignedFields(p) == SignedFields(q)
    requires 0 < i < |p| && p[i].key != "signature"
    ensures p[i] == q[i]
    decreases i, 0
  {
    EqualSignedFieldsShift(p, q, i);
    EqualSignedFieldsAgree(p[1..], q[1..], i - 1);
  }

  /** The tails meet the requirements at the previous index. */
  lemma EqualSignedFieldsShift(p: Payload, q: Payload, i: nat)
    requires SameKeys(p, q)
    requires SignedFields(p) == SignedFields(q)
    requires 0 < i < |p| && p[i].key != "signature"
    ensures SameKeys(p[1..], q[1..]) && SignedFields(p[1..]) == SignedFields(q[1..])
    ensures i - 1 < |p[1..]| && p[1..][i - 1] == p[i] && q[1..][i - 1] == q[i]
  {
    EqualSignedFieldsTail(p, q);
  }

  lemma EqualSignedFieldsHead(p: Payload, q: Payload)
    requires SameKeys(p, q) && p != [] && IsSignedField(p[0])
    requires SignedFields(p) == SignedFields(q)
    ensures p[0] == q[0]
  {
    SignedFieldsCons(p);
    SignedFieldsCons(q);
    ConsEqual(p[0], q[0], SignedFields(p[1..]), SignedFields(q[1..]));
  }

  lemma EqualSignedFieldsTail(p: Payload, q: Payload)
    requires SameKeys(p, q) && p != []
    requires SignedFields(p) == SignedFields(q)
    ensures SameKeys(p[1..], q[1..])
    ensures SignedFields(p[1..]) == SignedFields(q[1..])
  {
    SameKeysTail(p, q);
    SignedFieldsCons(p);
    SignedFieldsCons(q);
    if IsSignedField(p[0]) {
      ConsEqual(p[0], q[0], SignedFields(p[1..]), SignedFields(q[1..]));
    }
  }

  /** Tamper sensitivity of the signature string: two payloads with the same
      keys in the same order, differing in the value of any field other than
      `signature`, have different signature strings. */
  lemma TamperedValueChangesSignatureString(p: Payload, q: Payload, i: nat)
    requires SameKeys(p, q)
    requires i < |p| && p[i].key != "signature" && p[i].value != q[i].value
    ensures SignatureString(p) != SignatureString(q)
  {
    if SignatureString(p) == SignatureString(q) {
      SignedFieldsKeepSameKeys(p, q);
      RenderingDeterminesValues(SignedFields(p), SignedFields(q));
      EqualSignedFieldsAgree(p, q, i);
    }
  }

  /** The signature field is not covered: its position and value do not
      affect the signature string. */
  lemma SignatureFieldIgnored(p: Payload, q: Payload, v: string)
    ensures SignatureString(p + [Field("signature", v)] + q) == SignatureString(p + q)
  {
    SignatureFieldDropped(p, q, v);
    SignedFieldsIsFilter(p + [Field("signature", v)] + q);
    SignedFieldsIsFilter(p + q);
  }

  lemma SignatureFieldDropped(p: Payload, q: Payload, v: string)
    ensures Filter(p + [Field("signature", v)] + q, IsSignedField) == Filter(p + q, IsSignedField)
  {
    FilterSkipsRejected(p, Field("signature", v), q, IsSignedField);
  }

  /** What a gateway sends: the fields followed by their signature. */
  function Sign(p: Payload, merchantKey: Option<string>, md5Hex: string -> string): Payload {
    p + [Field("signature", md5Hex(HashInput(p, merchantKey)))]
  }

  /** Fields with distinct keys followed by a signature: the verdict
      depends on the signature alone, accepted exactly when it is the digest
      of the fields' signature string with the merchant key appended. */
  lemma AppendedSignatureVerdict(p: Payload, sig: string, merchantKey: Option<string>, md5Hex: string -> string)
    requires DistinctKeys(p) && !HasKey(p, "signature")
    ensures Notify(FormBody(p + [Field("signature", sig)]), merchantKey, md5Hex) ==
      if sig == md5Hex(HashInput(p, merchantKey)) then Accepted else InvalidSignature
  {
    var s := Field("signature", sig);
    var signed := p + [s];
    assert DistinctKeys(signed) by {
      forall i, j | 0 <= i < j < |signed| ensures signed[i].key != signed[j].key {
        if j == |p| {
          assert signed[i] == p[i];
        }
      }
    }
    FromEntriesOfDistinct(signed);
    SignatureFieldIgnored(p, [], sig);
    assert p + [s] + [] == signed;
    assert p + [] == p;
    assert Lookup(signed, "signature") == Some(sig) by {
      LookupAfterMissing(p, s);
    }
  }

  /** A correctly signed notification with distinct keys is accepted, for
      every hash function: signing and verifying are partners. */
  lemma SignedNotificationAccepted(p: Payload, merchantKey: Option<string>, md5Hex: string -> string)
    requires DistinctKeys(p) && !HasKey(p, "signature")
    ensures Notify(FormBody(Sign(p, merchantKey, md5Hex)), merchantKey, md5Hex) == Accepted
  {
    AppendedSignatureVerdict(p, md5Hex(HashInput(p, merchantKey)), merchantKey, md5Hex);
  }

  /** Three unsigned fields give their renderings joined by "&". */
  lemma ThreeFieldString(a: Field, b: Field, c: Field)
    requires a.key != "signature" && b.key != "signature" && c.key != "signature"
    ensures SignatureString([a, b, c]) == RenderField(a) + "&" + (RenderField(b) + "&" + RenderField(c))
  {
    UnsignedThree(a, b, c);
    RenderThree(a, b, c);
    JoinThree(RenderField(a), RenderField(b), RenderField(c), "&");
  }

  lemma UnsignedThree(a: Field, b: Field, c: Field)
    requires a.key != "signature" && b.key != "signature" && c.key != "signature"
    ensures SignedFields([a, b, c]) == [a, b, c]
  {
    assert !HasKey([a, b, c], "signature");
  }

  lemma RenderThree(a: Field, b: Field, c: Field)
    ensures RenderAll([a, b, c]) == [RenderField(a), RenderField(b), RenderField(c)]
  {
  }

  lemma JoinThree(x: string, y: string, z: string, sep: string)
    ensures Join([x, y, z], sep) == x + sep + (y + sep + z)
  {
    assert [x, y, z][1..] == [y, z];
    assert [y, z][1..] == [z];
    assert Join([y, z], sep) == y + sep + z;
  }

  /** The signature string of the worked example: the "@" of the e-mail
      address is the only character encoded. */
  lemma ExampleSignatureString(id: string, amount: string, email: string)
    requires id == "MSI-1000" && amount == "50.00" && email == "a@b.com"
    ensures SignatureString([Field("m_payment_id", id), Field("amount", amount), Field("email_address", email)])
      == "m_payment_id=MSI-1000" + "&" + ("amount=50.00" + "&" + "email_address=a%40b.com")
  {
    ThreeFieldString(Field("m_payment_id", id), Field("amount", amount), Field("email_address", email));
    RenderExampleId(id);
    RenderExampleAmount(amount);
    RenderExampleEmail(email);
  }

  lemma RenderExampleId(id: string)
    requires id == "MSI-1000"
    ensures RenderField(Field("m_payment_id", id)) == "m_payment_id=MSI-1000"
  {
    ExampleIdUnreserved(id);
    UriComponent.EncodeUnreserved(id);
  }

  lemma ExampleIdUnreserved(id: string)
    requires id == "MSI-1000"
    ensures forall i :: 0 <= i < |id| ==> UriComponent.IsUnreserved(id[i])
  {
  }

  lemma RenderExampleAmount(amount: string)
    requires amount == "50.00"
    ensures RenderField(Field("amount", amount)) == "amount=50.00"
  {
    UriComponent.EncodeUnreserved(amount);
  }

  lemma RenderExampleEmail(email: string)
    requires email == "a@b.com"
    ensures RenderField(Field("email_address", email)) == "email_address=a%40b.com"
  {
    UriComponent.EncodeExampleEmail(email);
  }

  /** The worked example: payment id "MSI-1000", amount "50.00" and e-mail
      "a@b.com" under the merchant key "test" are accepted exactly with the
      digest of "m_payment_id=MSI-1000&amount=50.00&email_address=a%40b.com"
      followed by "test". */
  lemma WorkedExample(id: string, amount: string, email: string, sig: string, md5Hex: string -> string)
    requires id == "MSI-1000" && amount == "50.00" && email == "a@b.com"
    ensures var fields := [Field("m_payment_id", id), Field("amount", amount), Field("email_address", email)];
      (Notify(FormBody(fields + [Field("signature", sig)]), Some("test"), md5Hex) == Accepted
       <==> sig == md5Hex("m_payment_id=MSI-1000" + "&" + ("amount=50.00" + "&" + "email_address=a%40b.com") + "test"))
  {
    var fields := [Field("m_payment_id", id), Field("amount", amount), Field("email_address", email)];
    ExampleSignatureString(id, amount, email);
    assert DistinctKeys(fields) && !HasKey(fields, "signature") by {
      assert fields[0].key != fields[1].key && fields[0].key != fields[2].key && fields[1].key != fields[2].key;
    }
    AppendedSignatureVerdict(fields, sig, Some("test"), md5Hex);
  }

  lemma {:induction false} LookupAfterMissing(p: Payload, f: Field)
    requires !HasKey(p, f.key)
    ensures Lookup(p + [f], f.key) == Some(f.value)
  {
    if p != [] {
      assert (p + [f])[1..] == p[1..] + [f];
      assert !HasKey(p[1..], f.key);
      LookupAfterMissing(p[1..], f);
    }
  }
}
