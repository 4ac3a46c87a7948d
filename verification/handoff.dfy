/** The get-involved page and the applications route together: what the
    page posts to `/api/applications` and what the route mails for it. */
module Handoff {
  import opened Wrappers
  import opened Seqs
  import opened FormFields
  import GetInvolved
  import opened ApplicationsRoute

  /** Setting `to` or `applicationType` leaves the rest object as it was,
      whether the key was already there or not. */
  lemma {:induction false} RestFieldsOfPut(p: Payload, f: Field)
    requires !IsFormField(f)
    ensures Filter(Put(p, f), IsFormField) == Filter(p, IsFormField)
  {
    if p != [] {
      if p[0].key == f.key {
        assert Put(p, f) == [f] + p[1..];
      } else {
        RestFieldsOfPut(p[1..], f);
        assert Put(p, f) == [p[0]] + Put(p[1..], f);
      }
    }
  }

  /** The body the page posts, as the route reads it back: the same
      entries, with the page's recipient and the application type. */
  lemma PostedBody(formData: Payload, kind: GetInvolved.ApplicationType)
    requires DistinctKeys(formData)
    ensures var body := Put(Put(formData, Field("to", GetInvolved.Recipient)),
                            Field("applicationType", GetInvolved.TypeName(kind)));
      && FromEntries(body) == body
      && Lookup(body, "to") == Some(GetInvolved.Recipient)
      && Lookup(body, "applicationType") == Some(GetInvolved.TypeName(kind))
      && RestFields(body) == RestFields(formData)
  {
    var to := Field("to", GetInvolved.Recipient);
    var typed := Field("applicationType", GetInvolved.TypeName(kind));
    PostedBodyLookups(formData, to, typed);
    PutDistinct(formData, to);
    PutDistinct(Put(formData, to), typed);
    FromEntriesOfDistinct(Put(Put(formData, to), typed));
    RestFieldsOfPut(Put(formData, to), typed);
    RestFieldsOfPut(formData, to);
  }

  lemma PostedBodyLookups(formData: Payload, to: Field, typed: Field)
    requires to.key == "to" && typed.key == "applicationType"
    ensures Lookup(Put(Put(formData, to), typed), "to") == Some(to.value)
    ensures Lookup(Put(Put(formData, to), typed), "applicationType") == Some(typed.value)
  {
    PutLookup(formData, to, "to");
    PutLookup(Put(formData, to), typed, "to");
    PutLookup(Put(formData, to), typed, "applicationType");
  }

  /** When the page posts an application, the route mails it to the
      page's recipient under the subject naming the capitalised
      application type, the mail shows exactly the non-empty fields the
      applicant filled in (never the added `to` and `applicationType`),
      and the answer is 200 exactly when the mail goes out. */
  lemma SubmittedApplicationIsMailed(st: GetInvolved.PageState, outcome: GetInvolved.FetchOutcome,
                                     env: MailEnv, mailSent: bool)
    requires DistinctKeys(st.formData)
    ensures var posted := GetInvolved.HandleSubmit(st, outcome).1;
      posted.Some? ==>
        var reply := Post(JsonObject(posted.value.body), env, mailSent);
        && reply.1.Some?
        && reply.1.value.to == GetInvolved.Recipient
        && reply.1.value.subject == Subject(GetInvolved.TypeName(st.applicationType))
        && ShownFields(FromEntries(posted.value.body)) == ShownFields(st.formData)
        && (reply.0 == Accepted <==> mailSent)
  {
    var posted := GetInvolved.HandleSubmit(st, outcome).1;
    if posted.Some? {
      var body := posted.value.body;
      assert body == GetInvolved.DataToSubmit(st);
      PostedBody(st.formData, st.applicationType);
      assert HasKey(body, "applicationType");
    }
  }
}
