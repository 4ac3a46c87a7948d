/** The application e-mail endpoint (`app/api/applications/route.ts`): the
    JSON body is split into the recipient, the application type and the
    remaining fields, which become one HTML paragraph each.  Sending the
    mail is a parameter: whether `sendMail` succeeded. */
module ApplicationsRoute {
  import opened Text
  import opened Wrappers
  import opened Seqs
  import opened FormFields

  // ---------------------------------------------------------------------
  // Key formatting.

  /** `key.replace(/([A-Z])/g, ' $1')`: a space before every capital. */
  function SpaceCapitals(k: string): (r: string)
    ensures |r| >= |k|
  {
    if k == [] then []
    else (if IsUpper(k[0]) then " " + [k[0]] else [k[0]]) + SpaceCapitals(k[1..])
  }

  /** `.replace(/^./, str => str.toUpperCase())`: the first character
      upper-cased, unless it is a line terminator, which `.` does not
      match. */
  function UpperFirstMatch(s: string): (r: string)
    ensures |r| == |s|
  {
    if s != [] && !IsLineTerminator(s[0]) then [ToUpperChar(s[0])] + s[1..] else s
  }

  function FormatKey(k: string): string {
    UpperFirstMatch(SpaceCapitals(k))
  }

  /** `s.charAt(0).toUpperCase() + s.slice(1)`, used for the subject. */
  function Capitalize(s: string): (r: string)
    ensures |r| == |s|
    ensures s != [] ==> r[0] == ToUpperChar(s[0]) && r[1..] == s[1..]
  {
    if s == [] then [] else [ToUpperChar(s[0])] + s[1..]
  }

  /** The two ways of upper-casing the first character agree: a line
      terminator has no upper case. */
  lemma UpperFirstMatchIsCapitalize(s: string)
    ensures UpperFirstMatch(s) == Capitalize(s)
  {
  }

  /** Undoes `FormatKey` on camel-case keys: lower-case the first
      character, then drop the spaces. */
  function UnformatKey(s: string): string {
    RemoveSpaces(if s == [] then [] else [ToLowerChar(s[0])] + s[1..])
  }

  function RemoveSpaces(s: string): (r: string)
    ensures |r| <= |s|
  {
    if s == [] then [] else (if s[0] == ' ' then [] else [s[0]]) + RemoveSpaces(s[1..])
  }

  predicate IsAsciiAlphanumeric(c: char) {
    IsUpper(c) || IsLower(c) || IsDigit(c)
  }

  /** A JavaScript-style camel-case name: ASCII letters and digits, not
      starting with a capital.  Every key the site posts is one. */
  predicate IsCamelKey(k: string) {
    (k == [] || !IsUpper(k[0])) && forall i :: 0 <= i < |k| ==> IsAsciiAlphanumeric(k[i])
  }

  lemma {:induction false} RemoveSpacesOfSpaced(k: string)
    requires forall i :: 0 <= i < |k| ==> k[i] != ' '
    ensures RemoveSpaces(SpaceCapitals(k)) == k
  {
    if k != [] {
      RemoveSpacesOfSpaced(k[1..]);
      var head := if IsUpper(k[0]) then " " + [k[0]] else [k[0]];
      RemoveSpacesAppend(head, SpaceCapitals(k[1..]));
      if IsUpper(k[0]) {
        assert RemoveSpaces(head) == RemoveSpaces([k[0]]);
      }
      assert [k[0]] + k[1..] == k;
    }
  }

  lemma {:induction false} RemoveSpacesAppend(a: string, b: string)
    ensures RemoveSpaces(a + b) == RemoveSpaces(a) + RemoveSpaces(b)
  {
    if a == [] {
      assert a + b == b;
    } else {
      assert (a + b)[0] == a[0];
      assert (a + b)[1..] == a[1..] + b;
      RemoveSpacesAppend(a[1..], b);
    }
  }

  /** Formatting loses nothing on camel-case keys. */
  lemma UnformatFormatKey(k: string)
    requires IsCamelKey(k)
    ensures UnformatKey(FormatKey(k)) == k
  {
    var spaced := SpaceCapitals(k);
    assert forall i :: 0 <= i < |k| ==> k[i] != ' ' by {
      forall i | 0 <= i < |k| ensures k[i] != ' ' {
        assert IsAsciiAlphanumeric(k[i]);
      }
    }
    RemoveSpacesOfSpaced(k);
    if k != [] {
      assert spaced[0] == k[0];
      var f := FormatKey(k);
      var lowered := [ToLowerChar(f[0])] + f[1..];
      assert lowered == spaced;
    }
  }

  /** So distinct camel-case keys give distinct labels. */
  lemma FormatKeyInjective(k1: string, k2: string)
    requires IsCamelKey(k1) && IsCamelKey(k2)
    requires FormatKey(k1) == FormatKey(k2)
    ensures k1 == k2
  {
    UnformatFormatKey(k1);
    UnformatFormatKey(k2);
  }

  /** "mathGrade" becomes "Math Grade", and "name" becomes "Name". */
  lemma FormatKeyExamples(a: string, b: string)
    requires a == "mathGrade" && b == "name"
    ensures FormatKey(a) == "Math Grade"
    ensures FormatKey(b) == "Name"
  {
    SpacedMathGrade(a);
    SpaceCapitalsOfLower(b);
  }

  lemma SpacedMathGrade(a: string)
    requires a == "mathGrade"
    ensures SpaceCapitals(a) == "math Grade"
  {
    assert a == "math" + a[4..];
    SpacedGrade(a[4..]);
    SpaceCapitalsAppend("math", a[4..]);
    SpaceCapitalsOfLower("math");
  }

  lemma SpacedGrade(g: string)
    requires g == "Grade"
    ensures SpaceCapitals(g) == " Grade"
  {
    SpaceCapitalsOfLower("rade");
  }

  /** Text without capitals is left alone. */
  lemma {:induction false} SpaceCapitalsOfLower(s: string)
    requires forall i :: 0 <= i < |s| ==> !IsUpper(s[i])
    ensures SpaceCapitals(s) == s
  {
    if s != [] {
      SpaceCapitalsOfLower(s[1..]);
      assert [s[0]] + s[1..] == s;
    }
  }

  lemma {:induction false} SpaceCapitalsAppend(a: string, b: string)
    ensures SpaceCapitals(a + b) == SpaceCapitals(a) + SpaceCapitals(b)
  {
    if a == [] {
      assert a + b == b;
    } else {
      assert (a + b)[0] == a[0];
      assert (a + b)[1..] == a[1..] + b;
      SpaceCapitalsAppend(a[1..], b);
    }
  }

  /** One space is inserted per capital. */
  lemma {:induction false} SpaceCapitalsLength(k: string)
    ensures |SpaceCapitals(k)| == |k| + |Filter(k, IsUpper)|
  {
    if k != [] {
      SpaceCapitalsLength(k[1..]);
    }
  }

  /** Every capital of `r` has a space right before it. */
  predicate CapitalsFollowSpaces(r: string) {
    forall i :: 0 <= i < |r| && IsUpper(r[i]) ==> 0 < i && r[i - 1] == ' '
  }

  /** Every space of `r` has a capital right after it. */
  predicate SpacesPrecedeCapitals(r: string) {
    forall i :: 0 <= i < |r| && r[i] == ' ' ==> i + 1 < |r| && IsUpper(r[i + 1])
  }

  /** Every capital of the result has a space right before it. */
  lemma {:induction false} SpaceBeforeEveryCapital(k: string)
    ensures CapitalsFollowSpaces(SpaceCapitals(k))
  {
    if k != [] {
      SpaceBeforeEveryCapital(k[1..]);
      var head := if IsUpper(k[0]) then " " + [k[0]] else [k[0]];
      var rest := SpaceCapitals(k[1..]);
      var r := SpaceCapitals(k);
      assert r == head + rest;
      forall i | 0 <= i < |r| && IsUpper(r[i]) ensures 0 < i && r[i - 1] == ' ' {
        if i >= |head| {
          var j := i - |head|;
          assert IsUpper(rest[j]) && r[i] == rest[j];
          if j > 0 {
            assert r[i - 1] == rest[j - 1];
          }
        } else {
          assert r[i] == head[i];
          assert r[0] == head[0];
        }
      }
    }
  }

  /** On a key without spaces, every space of the result comes right before
      a capital: no space is inserted anywhere else. */
  lemma {:induction false} SpacesOnlyBeforeCapitals(k: string)
    requires forall i :: 0 <= i < |k| ==> k[i] != ' '
    ensures SpacesPrecedeCapitals(SpaceCapitals(k))
  {
    if k != [] {
      SpacesOnlyBeforeCapitals(k[1..]);
      var head := if IsUpper(k[0]) then " " + [k[0]] else [k[0]];
      var rest := SpaceCapitals(k[1..]);
      var r := SpaceCapitals(k);
      assert r == head + rest;
      assert k[0] != ' ';
      forall i | 0 <= i < |r| && r[i] == ' ' ensures i + 1 < |r| && IsUpper(r[i + 1]) {
        if i >= |head| {
          var j := i - |head|;
          assert rest[j] == r[i] == ' ';
          assert j + 1 < |rest| && IsUpper(rest[j + 1]);
          assert r[i + 1] == rest[j + 1];
        } else {
          assert r[i] == head[i];
          assert IsUpper(k[0]) && i == 0 && r[1] == k[0];
        }
      }
    }
  }

  /** `replace(/([A-Z])/g, ' $1')` on a key without spaces, pinned down:
      one space per capital, each right before its capital and nowhere
      else, and removing the spaces gives the key back. */
  lemma SpaceCapitalsPlacement(k: string)
    requires forall i :: 0 <= i < |k| ==> k[i] != ' '
    ensures |SpaceCapitals(k)| == |k| + |Filter(k, IsUpper)|
    ensures CapitalsFollowSpaces(SpaceCapitals(k))
    ensures SpacesPrecedeCapitals(SpaceCapitals(k))
    ensures RemoveSpaces(SpaceCapitals(k)) == k
  {
    SpaceCapitalsLength(k);
    SpaceBeforeEveryCapital(k);
    SpacesOnlyBeforeCapitals(k);
    RemoveSpacesOfSpaced(k);
  }

  // ---------------------------------------------------------------------
  // The mail.

  /** JavaScript truthiness of a string that may be absent. */
  predicate Truthy(v: Option<string>) {
    v.Some? && v.value != ""
  }

  predicate IsFormField(f: Field) {
    f.key != "to" && f.key != "applicationType"
  }

  predicate HasTruthyValue(f: Field) {
    f.value != ""
  }

  /** `{ to, applicationType, ...formData } = data`: the rest object. */
  function RestFields(obj: Payload): (r: Payload)
    ensures IsSubsequence(r, obj)
    ensures !HasKey(r, "to") && !HasKey(r, "applicationType")
    ensures forall k :: k != "to" && k != "applicationType" ==> Lookup(r, k) == Lookup(obj, k)
  {
    FilterIsSubsequence(obj, IsFormField);
    RestFieldsLookup(obj);
    Filter(obj, IsFormField)
  }

  lemma {:induction false} RestFieldsLookup(obj: Payload)
    ensures var r := Filter(obj, IsFormField);
      && !HasKey(r, "to") && !HasKey(r, "applicationType")
      && forall k :: k != "to" && k != "applicationType" ==> Lookup(r, k) == Lookup(obj, k)
  {
    if obj != [] {
      RestFieldsLookup(obj[1..]);
      var r := Filter(obj, IsFormField);
      if IsFormField(obj[0]) {
        assert r == [obj[0]] + Filter(obj[1..], IsFormField);
        HasKeyCons(r);
        assert r[1..] == Filter(obj[1..], IsFormField);
      }
    }
  }

  function Paragraph(f: Field): string {
    "<p><strong>" + FormatKey(f.key) + ":</strong> " + f.value + "</p>"
  }

  function Paragraphs(fields: Payload): (r: seq<string>)
    ensures |r| == |fields|
    ensures forall i :: 0 <= i < |fields| ==> r[i] == Paragraph(fields[i])
  {
    if fields == [] then [] else [Paragraph(fields[0])] + Paragraphs(fields[1..])
  }

  /** The paragraphs `formatApplicationData` writes, in entry order: one for
      each field of the rest object whose value is non-empty. */
  function ShownFields(obj: Payload): (r: Payload)
    ensures forall i :: 0 <= i < |r| ==> HasTruthyValue(r[i]) && IsFormField(r[i])
  {
    Filter(RestFields(obj), HasTruthyValue)
  }

  /** `formatApplicationData()`. */
  function FormatApplicationData(obj: Payload): string {
    Join(Paragraphs(ShownFields(obj)), "")
  }

  const DefaultRecipient := "appmaniazar@gmail.co.za"

  datatype MailEnv = MailEnv(emailUser: Option<string>, defaultEmailTo: Option<string>)

  datatype Mail = Mail(from: string, to: string, subject: string, text: string, html: string)

  /** `to || process.env.DEFAULT_EMAIL_TO || 'appmaniazar@gmail.co.za'`. */
  function ChooseRecipient(to: Option<string>, env: MailEnv): (r: string)
    ensures Truthy(to) ==> r == to.value
    ensures !Truthy(to) && Truthy(env.defaultEmailTo) ==> r == env.defaultEmailTo.value
    ensures !Truthy(to) && !Truthy(env.defaultEmailTo) ==> r == DefaultRecipient
    ensures r != ""
  {
    if Truthy(to) then to.value
    else if Truthy(env.defaultEmailTo) then env.defaultEmailTo.value
    else DefaultRecipient
  }

  /** `a || b || ...` over possibly absent strings: the first truthy
      operand, or none when every operand is falsy. */
  function FirstTruthy(operands: seq<Option<string>>): (r: Option<string>)
    ensures r.Some? ==> r.value != "" && Some(r.value) in operands
    ensures r.None? ==> forall i :: 0 <= i < |operands| ==> !Truthy(operands[i])
  {
    if operands == [] then None
    else if Truthy(operands[0]) then operands[0]
    else FirstTruthy(operands[1..])
  }

  /** The recipient is what the `||` chain of the route evaluates to. */
  lemma ChooseRecipientIsFirstTruthy(to: Option<string>, env: MailEnv)
    ensures FirstTruthy([to, env.defaultEmailTo, Some(DefaultRecipient)]) == Some(ChooseRecipient(to, env))
  {
    var ops := [to, env.defaultEmailTo, Some(DefaultRecipient)];
    var last: seq<Option<string>> := [Some(DefaultRecipient)];
    assert ops[1..] == [env.defaultEmailTo] + last;
    assert ([env.defaultEmailTo] + last)[1..] == last;
    assert FirstTruthy(last) == Some(DefaultRecipient);
  }

  function Subject(applicationType: string): string {
    "New " + Capitalize(applicationType) + " Application from MSI Website"
  }

  function Html(applicationType: string, obj: Payload): string {
    "\n        <h2>New " + Capitalize(applicationType) + " Application</h2>\n        <div>"
      + FormatApplicationData(obj) + "</div>\n      "
  }

  function BuildMail(obj: Payload, applicationType: string, env: MailEnv): Mail {
    Mail("MSI Website <" + env.emailUser.GetOr("undefined") + ">",
         ChooseRecipient(Lookup(obj, "to"), env),
         Subject(applicationType),
         "New " + applicationType + " application received. Please check the details in the HTML version.",
         Html(applicationType, obj))
  }

  // ---------------------------------------------------------------------
  // The handler.

  /** The request body as `request.json()` sees it. */
  datatype RouteRequest = JsonObject(entries: Payload) | UnparsableJson

  datatype Reply = Submitted(message: string) | Failed(error: string)

  datatype RouteResponse = RouteResponse(status: nat, reply: Reply)

  const Accepted := RouteResponse(200, Submitted("Application submitted successfully"))
  const Rejected := RouteResponse(500, Failed("Failed to process application"))

  /** `POST`: the response and the mail handed to `sendMail`, if one was
      built.  Without an `applicationType` the subject cannot be built and
      the handler fails before sending. */
  function Post(req: RouteRequest, env: MailEnv, mailSent: bool): (r: (RouteResponse, Option<Mail>))
    ensures r.0 == Accepted || r.0 == Rejected
    ensures r.0 == Accepted <==>
      req.JsonObject? && HasKey(req.entries, "applicationType") && mailSent
    ensures r.1.Some? <==> req.JsonObject? && HasKey(req.entries, "applicationType")
    ensures r.1.Some? ==>
      var obj := FromEntries(req.entries);
      r.1.value == BuildMail(obj, Lookup(obj, "applicationType").value, env)
  {
    if req.UnparsableJson? then (Rejected, None)
    else
      var obj := FromEntries(req.entries);
      var applicationType := Lookup(obj, "applicationType");
      if applicationType.None? then (Rejected, None)
      else
        var mail := BuildMail(obj, applicationType.value, env);
        (if mailSent then Accepted else Rejected, Some(mail))
  }

  // ---------------------------------------------------------------------
  // What the mail says.

  /** The body holds exactly the non-empty form fields, each once, in entry
      order: `to` and `applicationType` never appear, and a field shows iff
      its value is non-empty. */
  lemma ShownFieldsIff(obj: Payload)
    ensures IsSubsequence(ShownFields(obj), obj)
    ensures forall i :: 0 <= i < |obj| ==>
      (obj[i] in ShownFields(obj) <==> IsFormField(obj[i]) && HasTruthyValue(obj[i]))
  {
    var rest := RestFields(obj);
    FilterIsSubsequence(rest, HasTruthyValue);
    SubsequenceTransitive(ShownFields(obj), rest, obj);
    forall i | 0 <= i < |obj| && IsFormField(obj[i]) && HasTruthyValue(obj[i])
      ensures obj[i] in ShownFields(obj)
    {
      assert obj[i] in rest;
    }
  }

  /** The subject names the type with its first letter upper-cased. */
  lemma SubjectShape(applicationType: string)
    requires applicationType != ""
    ensures var s := Subject(applicationType);
      && StartsWith(s, "New ")
      && s[4] == ToUpperChar(applicationType[0])
      && s[5..4 + |applicationType|] == applicationType[1..]
      && s[4 + |applicationType|..] == " Application from MSI Website"
  {
  }
}
