/** The application page (`app/get-involved/page.tsx`): the PDF check on
    uploads, the tutor qualification test, and the submission gate with
    the request it posts.  The `fetch` round trip is a parameter, its
    outcome one of three. */
module GetInvolved {
  import opened Text
  import opened Wrappers
  import opened Decimal
  import opened FormFields

  datatype ApplicationType = Tutor | Volunteer | Student | Sponsor

  /** The `applicationType` string the page sends. */
  function TypeName(t: ApplicationType): string {
    match t
    case Tutor => "tutor"
    case Volunteer => "volunteer"
    case Student => "student"
    case Sponsor => "sponsor"
  }

  /** The part of a browser `File` the page looks at. */
  datatype UploadedFile = UploadedFile(name: string, mimeType: string)

  const PdfOnly := "Only PDF files are accepted"
  const GradesTooLow := "You must have at least Level 4 (50%) in Grade 12 Mathematics and Physical Sciences."
  const NoTertiary := "You must have completed Mathematics 1 & 2 or Physics/Chemistry 1 & 2 at a tertiary institution."
  const FixFileErrors := "Please fix the file errors before submitting."
  const SubmitFailed := "There was a problem submitting your application. Please try again."
  const Recipient := "appmaniazar@gmail.co.za"

  // ---------------------------------------------------------------------
  // PDF uploads.

  /** `name.split('.').pop()`: the text after the last dot, or the whole
      name when it has none. */
  function LastSegment(name: string): string
    decreases |name|
  {
    if name == [] then []
    else if name[|name| - 1] == '.' then []
    else LastSegment(name[..|name| - 1]) + [name[|name| - 1]]
  }

  /** The last segment is a dot-free suffix of the name, preceded by a dot
      unless it is the whole name. */
  lemma {:induction false} LastSegmentIsSuffix(name: string)
    ensures var r := LastSegment(name);
      && |r| <= |name| && r == name[|name| - |r|..]
      && (forall i :: 0 <= i < |r| ==> r[i] != '.')
      && (|r| < |name| ==> name[|name| - |r| - 1] == '.')
    decreases |name|
  {
    if name != [] && name[|name| - 1] != '.' {
      var init := name[..|name| - 1];
      LastSegmentIsSuffix(init);
      SuffixGrows(name, |LastSegment(init)|);
    }
  }

  /** A suffix of all but the last character, followed by the last
      character, is a suffix one longer. */
  lemma SuffixGrows(name: string, k: nat)
    requires k < |name|
    ensures name[..|name| - 1][|name| - 1 - k..] + [name[|name| - 1]] == name[|name| - k - 1..]
  {
    var lhs := name[..|name| - 1][|name| - 1 - k..] + [name[|name| - 1]];
    var rhs := name[|name| - k - 1..];
    assert |lhs| == |rhs|;
    forall i | 0 <= i < |lhs| ensures lhs[i] == rhs[i] {
      if i < k {
        assert lhs[i] == name[|name| - 1 - k + i];
      }
    }
  }

  /** `validatePdfFile`: no file is fine; a file must have the extension
      "pdf" in any ASCII case or the PDF media type. */
  predicate ValidatePdfFile(file: Option<UploadedFile>) {
    file.None? || ToLower(LastSegment(file.value.name)) == "pdf" || file.value.mimeType == "application/pdf"
  }

  /** The extension test accepts exactly the three letters p, d, f, each in
      either case, after the last dot (or as the whole name). */
  lemma PdfExtensionIff(name: string)
    ensures var e := LastSegment(name);
      ToLower(e) == "pdf" <==>
        |e| == 3 && (e[0] == 'p' || e[0] == 'P') && (e[1] == 'd' || e[1] == 'D') && (e[2] == 'f' || e[2] == 'F')
  {
    var e := LastSegment(name);
    if ToLower(e) == "pdf" {
      assert ToLowerChar(e[0]) == 'p' && ToLowerChar(e[1]) == 'd' && ToLowerChar(e[2]) == 'f';
    }
  }

  /** A name ending in ".pdf" passes whatever precedes it, and a name whose
      last dot is followed by anything else fails unless the media type is
      PDF. */
  lemma PdfNameExamples(stem: string, mimeType: string)
    ensures ValidatePdfFile(Some(UploadedFile(stem + ".pdf", mimeType)))
    ensures ValidatePdfFile(Some(UploadedFile(stem + ".docx", mimeType))) <==> mimeType == "application/pdf"
  {
    LastSegmentOfDotted(stem, "pdf");
    LastSegmentOfDotted(stem, "docx");
    assert stem + ".pdf" == stem + "." + "pdf";
    assert stem + ".docx" == stem + "." + "docx";
  }

  lemma {:induction false} LastSegmentOfDotted(stem: string, ext: string)
    requires forall i :: 0 <= i < |ext| ==> ext[i] != '.'
    ensures LastSegment(stem + "." + ext) == ext
    decreases |ext|
  {
    var s := stem + "." + ext;
    if ext == [] {
      assert s[|s| - 1] == '.';
    } else {
      var init := ext[..|ext| - 1];
      assert s[..|s| - 1] == stem + "." + init;
      assert s[|s| - 1] == ext[|ext| - 1];
      LastSegmentOfDotted(stem, init);
      assert init + [ext[|ext| - 1]] == ext;
    }
  }

  datatype Uploads = Uploads(
    files: map<string, Option<UploadedFile>>,
    fileErrors: map<string, Option<string>>)

  /** `handleFileChange`: a rejected file only records the error for its
      field; anything else is stored and its field's error cleared. */
  function HandleFileChange(u: Uploads, fieldName: string, file: Option<UploadedFile>): (r: Uploads)
    ensures !ValidatePdfFile(file) ==>
      r.files == u.files && r.fileErrors == u.fileErrors[fieldName := Some(PdfOnly)]
    ensures ValidatePdfFile(file) ==>
      r.files == u.files[fieldName := file] && r.fileErrors == u.fileErrors[fieldName := None]
  {
    if file.Some? && !ValidatePdfFile(file) then
      u.(fileErrors := u.fileErrors[fieldName := Some(PdfOnly)])
    else
      Uploads(u.files[fieldName := file], u.fileErrors[fieldName := None])
  }

  /** `Object.values(fileErrors).some(error => error !== null)`. */
  predicate HasFileErrors(u: Uploads) {
    exists k :: k in u.fileErrors && u.fileErrors[k].Some?
  }

  /** Only PDFs (or nothing) are ever stored: if every stored file passes
      the check before a change, it does after. */
  lemma FileChangeStoresOnlyPdfs(u: Uploads, fieldName: string, file: Option<UploadedFile>)
    requires forall k :: k in u.files ==> ValidatePdfFile(u.files[k])
    ensures var r := HandleFileChange(u, fieldName, file);
      forall k :: k in r.files ==> ValidatePdfFile(r.files[k])
  {
    var r := HandleFileChange(u, fieldName, file);
    forall k | k in r.files ensures ValidatePdfFile(r.files[k]) {
      if k != fieldName || !ValidatePdfFile(file) {
        assert r.files[k] == u.files[k];
      }
    }
  }

  /** A field's error is set exactly when its latest upload was rejected:
      after a change, the field is in error iff that file failed the check,
      and no other field's error moves. */
  lemma FileChangeErrorIff(u: Uploads, fieldName: string, file: Option<UploadedFile>)
    ensures var r := HandleFileChange(u, fieldName, file);
      && (r.fileErrors[fieldName].Some? <==> !ValidatePdfFile(file))
      && (forall k :: k != fieldName ==> (k in r.fileErrors <==> k in u.fileErrors))
      && (forall k :: k != fieldName && k in u.fileErrors ==> r.fileErrors[k] == u.fileErrors[k])
      && (forall k :: k != fieldName && k in u.files ==> k in r.files && r.files[k] == u.files[k])
  {
  }

  /** Choosing a valid file for the only field in error clears the gate. */
  lemma ValidUploadClearsLastError(u: Uploads, fieldName: string, file: Option<UploadedFile>)
    requires forall k :: k in u.fileErrors && k != fieldName ==> u.fileErrors[k].None?
    requires ValidatePdfFile(file)
    ensures !HasFileErrors(HandleFileChange(u, fieldName, file))
  {
  }

  // ---------------------------------------------------------------------
  // The tutor qualification test.

  /** `parseInt(grade || '0') < 50`: an empty grade reads as 0, and a grade
      with no leading digits is NaN, which the comparison lets through. */
  predicate GradeFails(grade: string) {
    var g := ParseInt(if grade == "" then "0" else grade);
    g.Some? && g.value < 50
  }

  datatype TutorFields = TutorFields(mathGrade: string, scienceGrade: string, tertiaryQualification: string)

  /** `checkTutorQualifications`: the verdict and the new
      `qualificationError`. */
  function CheckTutorQualifications(t: ApplicationType, form: TutorFields): (r: (bool, Option<string>))
    ensures r.0 <==> r.1.None?
    ensures t != Tutor ==> r.0
    ensures t == Tutor && (GradeFails(form.mathGrade) || GradeFails(form.scienceGrade)) ==> r.1 == Some(GradesTooLow)
    ensures t == Tutor && !GradeFails(form.mathGrade) && !GradeFails(form.scienceGrade) ==>
      (r.0 <==> form.tertiaryQualification != "") && (!r.0 ==> r.1 == Some(NoTertiary))
  {
    if t == Tutor && (GradeFails(form.mathGrade) || GradeFails(form.scienceGrade)) then (false, Some(GradesTooLow))
    else if t == Tutor && form.tertiaryQualification == "" then (false, Some(NoTertiary))
    else (true, None)
  }

  /** An empty grade reads as 0 and fails. */
  lemma EmptyGradeFails()
    ensures GradeFails("")
  {
    var zero := NatToString(0);
    ParseIntOfNatToString(0);
    ParseIntOfSameText("0", zero, Some(0));
  }

  /** A grade written in decimal fails exactly when it is below 50. */
  lemma DecimalGradeFailsIff(n: nat)
    ensures GradeFails(NatToString(n)) <==> n < 50
  {
    ParseIntOfNatToString(n);
    GradeFailsOfNumber(NatToString(n), n);
  }

  lemma GradeFailsOfNumber(grade: string, n: int)
    requires grade != "" && ParseInt(grade) == Some(n)
    ensures GradeFails(grade) <==> n < 50
  {
  }

  /** A grade with no leading digits is NaN and is not rejected. */
  lemma NonNumericGradePasses(grade: string)
    requires grade != [] && !IsWhitespace(grade[0]) && !IsDigit(grade[0])
    requires grade[0] != '-' && grade[0] != '+'
    ensures !GradeFails(grade)
  {
    TrimStartSkips("", grade);
    assert "" + grade == grade;
    assert DigitPrefix(grade) == "";
  }

  // ---------------------------------------------------------------------
  // Submission.

  datatype FetchOutcome = Delivered | Refused | NetworkFailure

  datatype PageState = PageState(
    applicationType: ApplicationType,
    formData: Payload,
    uploads: Uploads,
    qualificationError: Option<string>,
    submissionSuccess: bool,
    submissionError: Option<string>,
    isSubmitting: bool,
    showModal: bool)

  function TutorFieldsOf(formData: Payload): TutorFields {
    TutorFields(Lookup(formData, "mathGrade").GetOr(""), Lookup(formData, "scienceGrade").GetOr(""),
                Lookup(formData, "tertiaryQualification").GetOr(""))
  }

  /** `dataToSubmit`: the form fields, then `to` and `applicationType`. */
  function DataToSubmit(st: PageState): Payload {
    Put(Put(st.formData, Field("to", Recipient)), Field("applicationType", TypeName(st.applicationType)))
  }

  /** The JSON body sent to `/api/applications`. */
  datatype Posted = Posted(url: string, body: Payload)

  /** `handleSubmit` run to completion: the state it leaves and the request
      it sent, if it got that far. */
  function HandleSubmit(st: PageState, outcome: FetchOutcome): (r: (PageState, Option<Posted>))
    ensures var qualified := st.applicationType != Tutor || CheckTutorQualifications(Tutor, TutorFieldsOf(st.formData)).0;
      r.1.Some? <==> qualified && !HasFileErrors(st.uploads)
    ensures r.1.Some? ==> r.1.value == Posted("/api/applications", DataToSubmit(st))
    ensures r.1.Some? ==> !r.0.isSubmitting
    ensures r.1.Some? && outcome == Delivered ==> r.0.submissionSuccess && r.0.showModal
    ensures r.1.Some? && outcome != Delivered ==>
      r.0.submissionSuccess == st.submissionSuccess && r.0.showModal == st.showModal
    ensures r.1.Some? && outcome != Delivered ==> r.0.submissionError == Some(SubmitFailed)
    ensures r.1.Some? && outcome == Delivered ==> r.0.submissionError == None
    ensures st.applicationType == Tutor && !CheckTutorQualifications(Tutor, TutorFieldsOf(st.formData)).0 ==>
      r.0 == st.(qualificationError := CheckTutorQualifications(Tutor, TutorFieldsOf(st.formData)).1)
    ensures (st.applicationType != Tutor || CheckTutorQualifications(Tutor, TutorFieldsOf(st.formData)).0) &&
            HasFileErrors(st.uploads) ==>
      r.0.submissionError == Some(FixFileErrors) && r.0.isSubmitting == st.isSubmitting
    ensures r.0.formData == st.formData && r.0.uploads == st.uploads && r.0.applicationType == st.applicationType
  {
    var check := CheckTutorQualifications(st.applicationType, TutorFieldsOf(st.formData));
    var st1 := if st.applicationType == Tutor then st.(qualificationError := check.1) else st;
    if st.applicationType == Tutor && !check.0 then (st1, None)
    else if HasFileErrors(st.uploads) then (st1.(submissionError := Some(FixFileErrors)), None)
    else
      var sending := st1.(isSubmitting := true, submissionError := None);
      var posted := Posted("/api/applications", DataToSubmit(st));
      var done :=
        if outcome == Delivered then sending.(submissionSuccess := true, showModal := true)
        else sending.(submissionError := Some(SubmitFailed));
      (done.(isSubmitting := false), Some(posted))
  }

  /** The body carries every form field with its value, plus `to` and
      `applicationType`, provided the form has no fields of those names. */
  lemma SubmittedBody(st: PageState)
    requires !HasKey(st.formData, "to") && !HasKey(st.formData, "applicationType")
    ensures var body := DataToSubmit(st);
      && body == st.formData + [Field("to", Recipient), Field("applicationType", TypeName(st.applicationType))]
      && Lookup(body, "to") == Some(Recipient)
      && Lookup(body, "applicationType") == Some(TypeName(st.applicationType))
      && (forall k :: k != "to" && k != "applicationType" ==> Lookup(body, k) == Lookup(st.formData, k))
  {
    var to := Field("to", Recipient);
    var app := Field("applicationType", TypeName(st.applicationType));
    var f1 := Put(st.formData, to);
    PutFacts(st.formData, to);
    assert f1 == st.formData + [to];
    assert !HasKey(f1, "applicationType");
    PutFacts(f1, app);
    var body := f1 + [app];
    assert body == st.formData + [to, app];
    LookupAppend(st.formData, [to, app], "to");
    LookupAppend(st.formData, [to, app], "applicationType");
    forall k | k != "to" && k != "applicationType" ensures Lookup(body, k) == Lookup(st.formData, k) {
      LookupAppend(st.formData, [to, app], k);
    }
  }
}
