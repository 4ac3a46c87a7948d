/** The donation request builder (`components/PayFastForm.tsx`): the
    donor-field validation and, when it passes, the hidden form posted to
    the payment gateway.

    The environment (merchant id and key), `window.location.origin`,
    `Date.now()` and `NODE_ENV` are parameters.  The amount arrives already
    rendered by `parseFloat(amount).toFixed(2)`, as an opaque string. */
module PayfastForm {
  import opened Text
  import opened Wrappers
  import opened Decimal
  import opened FormFields

  datatype Frequency = Monthly | OnceOff

  datatype DonorForm = DonorForm(
    nameFirst: string,
    nameLast: string,
    emailAddress: string,
    cellNumber: string,
    emailAddressConfirm: string,
    isAnonymous: bool)

  /** The error record: field name to message. */
  type Errors = map<string, string>

  const FirstNameRequired := "First name is required"
  const LastNameRequired := "Last name is required"
  const CellRequired := "Cell number is required"
  const CellInvalid := "Please enter a valid 10-digit cell number"
  const EmailRequired := "Email is required"
  const ConfirmRequired := "Please confirm your email"
  const EmailsDiffer := "Emails do not match"

  /** The test `/^[0-9]{10}$/`. */
  predicate IsTenDigitCell(s: string) {
    |s| == 10 && AllDigits(s)
  }

  /** `validateForm`: each check writes its field's message, a later check on
      the same field overwriting an earlier one, and every failing field is
      reported. */
  function ValidateForm(f: DonorForm): (errors: Errors)
    ensures errors.Keys <= {"name_first", "name_last", "cell_number", "email_address", "email_address_confirm"}
    ensures "name_first" in errors <==> !f.isAnonymous && f.nameFirst == ""
    ensures "name_first" in errors ==> errors["name_first"] == FirstNameRequired
    ensures "name_last" in errors <==> !f.isAnonymous && f.nameLast == ""
    ensures "name_last" in errors ==> errors["name_last"] == LastNameRequired
    ensures "cell_number" in errors <==> !f.isAnonymous && !IsTenDigitCell(f.cellNumber)
    ensures "cell_number" in errors ==> errors["cell_number"] == CellInvalid
    ensures "email_address" in errors <==> f.emailAddress == ""
    ensures "email_address" in errors ==> errors["email_address"] == EmailRequired
    ensures "email_address_confirm" in errors <==>
      f.emailAddressConfirm == "" || f.emailAddress != f.emailAddressConfirm
    ensures "email_address_confirm" in errors ==>
      errors["email_address_confirm"] ==
        if f.emailAddress != f.emailAddressConfirm then EmailsDiffer else ConfirmRequired
  {
    var e0: Errors := map[];
    var e1 := if !f.isAnonymous && f.nameFirst == "" then e0["name_first" := FirstNameRequired] else e0;
    var e2 := if !f.isAnonymous && f.nameLast == "" then e1["name_last" := LastNameRequired] else e1;
    var e3 := if !f.isAnonymous && f.cellNumber == "" then e2["cell_number" := CellRequired] else e2;
    var e4 := if !f.isAnonymous && !IsTenDigitCell(f.cellNumber) then e3["cell_number" := CellInvalid] else e3;
    var e5 := if f.emailAddress == "" then e4["email_address" := EmailRequired] else e4;
    var e6 := if f.emailAddressConfirm == "" then e5["email_address_confirm" := ConfirmRequired] else e5;
    if f.emailAddress != f.emailAddressConfirm then e6["email_address_confirm" := EmailsDiffer] else e6
  }

  /** `Object.keys(newErrors).length === 0`. */
  predicate IsValid(f: DonorForm) {
    |ValidateForm(f)| == 0
  }

  /** The form is valid exactly when the e-mail is given and confirmed and,
      unless the donation is anonymous, both names are given and the cell
      number is ten digits.  An anonymous donor's personal fields are never
      looked at. */
  lemma ValidIff(f: DonorForm)
    ensures IsValid(f) <==>
      && (f.isAnonymous || (f.nameFirst != "" && f.nameLast != "" && IsTenDigitCell(f.cellNumber)))
      && f.emailAddress != ""
      && f.emailAddress == f.emailAddressConfirm
  {
    var errors := ValidateForm(f);
    if |errors| == 0 {
      assert errors == map[];
    } else {
      var k :| k in errors;
    }
  }

  /** The configuration `handleSubmit` reads from outside the component. */
  datatype Environment = Environment(
    merchantId: Option<string>,
    merchantKey: Option<string>,
    origin: string,
    nowMillis: nat,
    production: bool)

  const ProductionUrl := "https://www.payfast.co.za/eng/process"
  const SandboxUrl := "https://sandbox.payfast.co.za/eng/process"
  const Anonymous := " (Anonymous)"

  /** The text an unset environment value turns into on a hidden input. */
  function InputText(v: Option<string>): string {
    v.GetOr("undefined")
  }

  function ItemName(frequency: Frequency, anonymous: bool): string {
    "MSI Donation - " + (if frequency == Monthly then "Monthly" else "Once-off")
      + (if anonymous then Anonymous else "")
  }

  function ItemDescription(anonymous: bool): string {
    "Donation to Maths and Science Infinity" + (if anonymous then Anonymous else "")
  }

  function PaymentId(nowMillis: nat): string {
    "MSI-" + NatToString(nowMillis)
  }

  const BaseKeys: seq<string> := [
    "merchant_id", "merchant_key", "return_url", "cancel_url", "notify_url",
    "m_payment_id", "amount", "item_name", "item_description", "email_address" ]

  function BaseValues(f: DonorForm, frequency: Frequency, amount: string, env: Environment): seq<string> {
    [ InputText(env.merchantId),
      InputText(env.merchantKey),
      env.origin + "/donate/success",
      env.origin + "/donate",
      env.origin + "/api/payfast/notify",
      PaymentId(env.nowMillis),
      amount,
      ItemName(frequency, f.isAnonymous),
      ItemDescription(f.isAnonymous),
      f.emailAddress ]
  }

  /** Written only for a donor who is not anonymous. */
  const PersonalKeys: seq<string> := ["name_first", "name_last", "cell_number"]

  function PersonalValues(f: DonorForm): seq<string> {
    [f.nameFirst, f.nameLast, f.cellNumber]
  }

  const SubscriptionKeys: seq<string> := ["subscription_type", "subscription_frequency", "subscription_cycles"]

  function SubscriptionValues(frequency: Frequency): seq<string> {
    if frequency == Monthly then ["2", "3", "0"] else ["0", "0", "0"]
  }

  /** Written only for a monthly donation. */
  const RecurringKeys: seq<string> := ["recurring_amount", "frequency_unit", "cycles"]

  function RecurringValues(amount: string): seq<string> {
    [amount, "3", "0"]
  }

  /** The property names of `paymentData`, in insertion order. */
  function PaymentKeys(anonymous: bool, frequency: Frequency): seq<string> {
    BaseKeys + (if anonymous then [] else PersonalKeys)
      + SubscriptionKeys + (if frequency == Monthly then RecurringKeys else [])
  }

  /** The values, each as the hidden input will carry it, in the same
      order. */
  function PaymentValues(f: DonorForm, frequency: Frequency, amount: string, env: Environment): seq<string> {
    BaseValues(f, frequency, amount, env) + (if f.isAnonymous then [] else PersonalValues(f))
      + SubscriptionValues(frequency) + (if frequency == Monthly then RecurringValues(amount) else [])
  }

  /** The `paymentData` object. */
  function PaymentData(f: DonorForm, frequency: Frequency, amount: string, env: Environment): Payload {
    Zip(PaymentKeys(f.isAnonymous, frequency), PaymentValues(f, frequency, amount, env))
  }

  datatype HiddenInput = HiddenInput(name: string, value: string)

  /** The synthesised `<form method="POST">` that `handleSubmit` submits. */
  datatype FormPost = FormPost(httpMethod: string, action: string, inputs: seq<HiddenInput>)

  /** What a submit leaves behind: the error record shown next to the
      fields, and the form that was posted, if any. */
  datatype Submission = Submission(errors: Errors, post: Option<FormPost>)

  function Inputs(p: Payload): (r: seq<HiddenInput>)
    ensures |r| == |p|
    ensures forall i :: 0 <= i < |p| ==> r[i] == HiddenInput(p[i].key, p[i].value)
  {
    if p == [] then [] else [HiddenInput(p[0].key, p[0].value)] + Inputs(p[1..])
  }

  /** `handleSubmit`: nothing is posted unless the form is valid; otherwise
      one hidden input per payment field, in order, posted to the production
      or the sandbox gateway. */
  function HandleSubmit(f: DonorForm, frequency: Frequency, amount: string, env: Environment): (r: Submission)
    ensures r.errors == ValidateForm(f)
    ensures r.post.Some? <==> IsValid(f)
    ensures r.post.Some? ==> r.post.value.httpMethod == "POST"
    ensures r.post.Some? ==> r.post.value.action == if env.production then ProductionUrl else SandboxUrl
    ensures r.post.Some? ==>
      var data := PaymentData(f, frequency, amount, env);
      |r.post.value.inputs| == |data| &&
      forall i :: 0 <= i < |data| ==>
        r.post.value.inputs[i].name == data[i].key && r.post.value.inputs[i].value == data[i].value
  {
    var errors := ValidateForm(f);
    if |errors| != 0 then Submission(errors, None)
    else
      var action := if env.production then ProductionUrl else SandboxUrl;
      Submission(errors, Some(FormPost("POST", action, Inputs(PaymentData(f, frequency, amount, env)))))
  }

  // ---------------------------------------------------------------------
  // What the payment fields contain.

  /** No property is written twice. */
  lemma PaymentKeysDistinct(anonymous: bool, frequency: Frequency)
    ensures var ks := PaymentKeys(anonymous, frequency);
      forall a, b :: 0 <= a < b < |ks| ==> ks[a] != ks[b]
  {
  }

  /** Every property name occurs once, so the object has exactly these
      fields and each lookup finds the one written. */
  lemma PaymentDataKeysDistinct(f: DonorForm, frequency: Frequency, amount: string, env: Environment)
    ensures DistinctKeys(PaymentData(f, frequency, amount, env))
  {
    PaymentKeysDistinct(f.isAnonymous, frequency);
    ZipFacts(PaymentKeys(f.isAnonymous, frequency), PaymentValues(f, frequency, amount, env));
  }

  /** The `i`-th property written is read back with the `i`-th value. */
  lemma PaymentLookup(f: DonorForm, frequency: Frequency, amount: string, env: Environment, i: nat)
    requires i < |PaymentKeys(f.isAnonymous, frequency)|
    ensures Lookup(PaymentData(f, frequency, amount, env), PaymentKeys(f.isAnonymous, frequency)[i])
      == Some(PaymentValues(f, frequency, amount, env)[i])
  {
    PaymentKeysDistinct(f.isAnonymous, frequency);
    ZipLookup(PaymentKeys(f.isAnonymous, frequency), PaymentValues(f, frequency, amount, env), i);
  }

  /** The ten base fields open the object, in order. */
  lemma BaseIndex(f: DonorForm, frequency: Frequency, amount: string, env: Environment, i: nat)
    requires i < |BaseKeys|
    ensures PaymentKeys(f.isAnonymous, frequency)[i] == BaseKeys[i]
    ensures PaymentValues(f, frequency, amount, env)[i] == BaseValues(f, frequency, amount, env)[i]
  {
  }

  lemma BaseLookup(f: DonorForm, frequency: Frequency, amount: string, env: Environment, i: nat)
    requires i < |BaseKeys|
    ensures Lookup(PaymentData(f, frequency, amount, env), BaseKeys[i]) == Some(BaseValues(f, frequency, amount, env)[i])
  {
    BaseIndex(f, frequency, amount, env, i);
    PaymentLookup(f, frequency, amount, env, i);
  }

  lemma BaseKeyNames()
    ensures BaseKeys[0] == "merchant_id" && BaseKeys[1] == "merchant_key"
    ensures BaseKeys[2] == "return_url" && BaseKeys[3] == "cancel_url" && BaseKeys[4] == "notify_url"
    ensures BaseKeys[5] == "m_payment_id" && BaseKeys[6] == "amount" && BaseKeys[9] == "email_address"
    ensures BaseKeys[7] == "item_name" && BaseKeys[8] == "item_description"
  {
  }

  lemma BaseValueTexts(f: DonorForm, frequency: Frequency, amount: string, env: Environment)
    ensures var vs := BaseValues(f, frequency, amount, env);
      && vs[0] == InputText(env.merchantId) && vs[1] == InputText(env.merchantKey)
      && vs[2] == env.origin + "/donate/success" && vs[3] == env.origin + "/donate"
      && vs[4] == env.origin + "/api/payfast/notify"
      && vs[5] == PaymentId(env.nowMillis) && vs[6] == amount && vs[9] == f.emailAddress
      && vs[7] == ItemName(frequency, f.isAnonymous) && vs[8] == ItemDescription(f.isAnonymous)
  {
  }

  /** The merchant credentials go out as configured, an unset one as the
      text "undefined". */
  lemma PaymentDataMerchant(f: DonorForm, frequency: Frequency, amount: string, env: Environment)
    ensures Lookup(PaymentData(f, frequency, amount, env), "merchant_id") == Some(InputText(env.merchantId))
    ensures Lookup(PaymentData(f, frequency, amount, env), "merchant_key") == Some(InputText(env.merchantKey))
  {
    BaseKeyNames();
    BaseValueTexts(f, frequency, amount, env);
    BaseLookup(f, frequency, amount, env, 0);
    BaseLookup(f, frequency, amount, env, 1);
  }

  /** The three callback URLs hang off the page's origin. */
  lemma PaymentDataCallbacks(f: DonorForm, frequency: Frequency, amount: string, env: Environment)
    ensures Lookup(PaymentData(f, frequency, amount, env), "return_url") == Some(env.origin + "/donate/success")
    ensures Lookup(PaymentData(f, frequency, amount, env), "cancel_url") == Some(env.origin + "/donate")
    ensures Lookup(PaymentData(f, frequency, amount, env), "notify_url") == Some(env.origin + "/api/payfast/notify")
  {
    BaseKeyNames();
    BaseValueTexts(f, frequency, amount, env);
    BaseLookup(f, frequency, amount, env, 2);
    BaseLookup(f, frequency, amount, env, 3);
    BaseLookup(f, frequency, amount, env, 4);
  }

  /** The id is "MSI-" and the timestamp, the amount is the formatted one,
      and the e-mail address is always sent. */
  lemma PaymentDataPayment(f: DonorForm, frequency: Frequency, amount: string, env: Environment)
    ensures Lookup(PaymentData(f, frequency, amount, env), "m_payment_id") == Some("MSI-" + NatToString(env.nowMillis))
    ensures Lookup(PaymentData(f, frequency, amount, env), "amount") == Some(amount)
    ensures Lookup(PaymentData(f, frequency, amount, env), "email_address") == Some(f.emailAddress)
  {
    BaseKeyNames();
    BaseValueTexts(f, frequency, amount, env);
    BaseLookup(f, frequency, amount, env, 5);
    BaseLookup(f, frequency, amount, env, 6);
    BaseLookup(f, frequency, amount, env, 9);
  }

  /** The item name names the frequency and, like the description, is marked
      " (Anonymous)" exactly for anonymous donations. */
  lemma PaymentDataItem(f: DonorForm, frequency: Frequency, amount: string, env: Environment)
    ensures Lookup(PaymentData(f, frequency, amount, env), "item_name") == Some(
      "MSI Donation - " + (if frequency == Monthly then "Monthly" else "Once-off")
      + (if f.isAnonymous then " (Anonymous)" else ""))
    ensures Lookup(PaymentData(f, frequency, amount, env), "item_description") == Some(
      "Donation to Maths and Science Infinity" + (if f.isAnonymous then " (Anonymous)" else ""))
  {
    BaseKeyNames();
    BaseValueTexts(f, frequency, amount, env);
    BaseLookup(f, frequency, amount, env, 7);
    BaseLookup(f, frequency, amount, env, 8);
  }

  /** A property is present exactly when its name is among the keys. */
  lemma PaymentHasKey(f: DonorForm, frequency: Frequency, amount: string, env: Environment, k: string)
    ensures HasKey(PaymentData(f, frequency, amount, env), k) <==> k in PaymentKeys(f.isAnonymous, frequency)
  {
    ZipFacts(PaymentKeys(f.isAnonymous, frequency), PaymentValues(f, frequency, amount, env));
  }

  /** The personal fields follow the ten base ones when they are written. */
  lemma PersonalIndex(f: DonorForm, frequency: Frequency, amount: string, env: Environment, i: nat)
    requires !f.isAnonymous && i < |PersonalKeys|
    ensures PaymentKeys(f.isAnonymous, frequency)[10 + i] == PersonalKeys[i]
    ensures PaymentValues(f, frequency, amount, env)[10 + i] == PersonalValues(f)[i]
  {
  }

  lemma PersonalLookup(f: DonorForm, frequency: Frequency, amount: string, env: Environment, i: nat)
    requires !f.isAnonymous && i < |PersonalKeys|
    ensures Lookup(PaymentData(f, frequency, amount, env), PersonalKeys[i]) == Some(PersonalValues(f)[i])
  {
    PersonalIndex(f, frequency, amount, env, i);
    PaymentLookup(f, frequency, amount, env, 10 + i);
  }

  lemma PersonalNames(f: DonorForm)
    ensures PersonalKeys[0] == "name_first" && PersonalKeys[1] == "name_last" && PersonalKeys[2] == "cell_number"
    ensures PersonalValues(f)[0] == f.nameFirst && PersonalValues(f)[1] == f.nameLast
    ensures PersonalValues(f)[2] == f.cellNumber
  {
  }

  lemma PersonalKeysOmitted(frequency: Frequency)
    ensures "name_first" !in PaymentKeys(true, frequency)
    ensures "name_last" !in PaymentKeys(true, frequency)
    ensures "cell_number" !in PaymentKeys(true, frequency)
  {
  }

  /** Personal fields are sent, with the donor's values, exactly when the
      donation is not anonymous. */
  lemma PaymentDataPersonal(f: DonorForm, frequency: Frequency, amount: string, env: Environment)
    ensures var data := PaymentData(f, frequency, amount, env);
      && (HasKey(data, "name_first") <==> !f.isAnonymous)
      && (HasKey(data, "name_last") <==> !f.isAnonymous)
      && (HasKey(data, "cell_number") <==> !f.isAnonymous)
    ensures !f.isAnonymous ==>
      && Lookup(PaymentData(f, frequency, amount, env), "name_first") == Some(f.nameFirst)
      && Lookup(PaymentData(f, frequency, amount, env), "name_last") == Some(f.nameLast)
      && Lookup(PaymentData(f, frequency, amount, env), "cell_number") == Some(f.cellNumber)
  {
    if f.isAnonymous {
      PersonalKeysOmitted(frequency);
      PaymentHasKey(f, frequency, amount, env, "name_first");
      PaymentHasKey(f, frequency, amount, env, "name_last");
      PaymentHasKey(f, frequency, amount, env, "cell_number");
    } else {
      PersonalNames(f);
      PersonalLookup(f, frequency, amount, env, 0);
      PersonalLookup(f, frequency, amount, env, 1);
      PersonalLookup(f, frequency, amount, env, 2);
    }
  }

  /** The three subscription fields come right after the personal ones. */
  lemma SubscriptionIndex(f: DonorForm, frequency: Frequency, amount: string, env: Environment, i: nat)
    requires i < |SubscriptionKeys|
    ensures var n := if f.isAnonymous then 10 else 13;
      && PaymentKeys(f.isAnonymous, frequency)[n + i] == SubscriptionKeys[i]
      && PaymentValues(f, frequency, amount, env)[n + i] == SubscriptionValues(frequency)[i]
  {
  }

  lemma SubscriptionLookup(f: DonorForm, frequency: Frequency, amount: string, env: Environment, i: nat)
    requires i < |SubscriptionKeys|
    ensures Lookup(PaymentData(f, frequency, amount, env), SubscriptionKeys[i]) == Some(SubscriptionValues(frequency)[i])
  {
    SubscriptionIndex(f, frequency, amount, env, i);
    PaymentLookup(f, frequency, amount, env, (if f.isAnonymous then 10 else 13) + i);
  }

  lemma SubscriptionNames(frequency: Frequency)
    ensures SubscriptionKeys[0] == "subscription_type" && SubscriptionKeys[1] == "subscription_frequency"
    ensures SubscriptionKeys[2] == "subscription_cycles"
    ensures SubscriptionValues(frequency)[0] == (if frequency == Monthly then "2" else "0")
    ensures SubscriptionValues(frequency)[1] == (if frequency == Monthly then "3" else "0")
    ensures SubscriptionValues(frequency)[2] == "0"
  {
  }

  /** Every donation states its subscription type: 2 and monthly (3) for a
      monthly donation, 0 and 0 for a once-off one; cycles are 0 either
      way. */
  lemma PaymentDataSubscription(f: DonorForm, frequency: Frequency, amount: string, env: Environment)
    ensures Lookup(PaymentData(f, frequency, amount, env), "subscription_type")
      == Some(if frequency == Monthly then "2" else "0")
    ensures Lookup(PaymentData(f, frequency, amount, env), "subscription_frequency")
      == Some(if frequency == Monthly then "3" else "0")
    ensures Lookup(PaymentData(f, frequency, amount, env), "subscription_cycles") == Some("0")
  {
    SubscriptionNames(frequency);
    SubscriptionLookup(f, frequency, amount, env, 0);
    SubscriptionLookup(f, frequency, amount, env, 1);
    SubscriptionLookup(f, frequency, amount, env, 2);
  }

  /** The recurring-billing fields close the object of a monthly donation. */
  lemma RecurringIndex(f: DonorForm, frequency: Frequency, amount: string, env: Environment, i: nat)
    requires frequency == Monthly && i < |RecurringKeys|
    ensures var n := if f.isAnonymous then 13 else 16;
      && PaymentKeys(f.isAnonymous, frequency)[n + i] == RecurringKeys[i]
      && PaymentValues(f, frequency, amount, env)[n + i] == RecurringValues(amount)[i]
  {
  }

  lemma RecurringLookup(f: DonorForm, frequency: Frequency, amount: string, env: Environment, i: nat)
    requires frequency == Monthly && i < |RecurringKeys|
    ensures Lookup(PaymentData(f, frequency, amount, env), RecurringKeys[i]) == Some(RecurringValues(amount)[i])
  {
    RecurringIndex(f, frequency, amount, env, i);
    PaymentLookup(f, frequency, amount, env, (if f.isAnonymous then 13 else 16) + i);
  }

  lemma RecurringNames(amount: string)
    ensures RecurringKeys[0] == "recurring_amount" && RecurringKeys[1] == "frequency_unit" && RecurringKeys[2] == "cycles"
    ensures RecurringValues(amount)[0] == amount && RecurringValues(amount)[1] == "3" && RecurringValues(amount)[2] == "0"
  {
  }

  lemma RecurringKeysOmitted(anonymous: bool)
    ensures "recurring_amount" !in PaymentKeys(anonymous, OnceOff)
    ensures "frequency_unit" !in PaymentKeys(anonymous, OnceOff)
    ensures "cycles" !in PaymentKeys(anonymous, OnceOff)
  {
  }

  /** Monthly donations carry the recurring-billing fields; once-off ones
      leave them out. */
  lemma PaymentDataRecurring(f: DonorForm, frequency: Frequency, amount: string, env: Environment)
    ensures var data := PaymentData(f, frequency, amount, env);
      && (HasKey(data, "recurring_amount") <==> frequency == Monthly)
      && (HasKey(data, "frequency_unit") <==> frequency == Monthly)
      && (HasKey(data, "cycles") <==> frequency == Monthly)
    ensures frequency == Monthly ==>
      && Lookup(PaymentData(f, frequency, amount, env), "recurring_amount") == Some(amount)
      && Lookup(PaymentData(f, frequency, amount, env), "frequency_unit") == Some("3")
      && Lookup(PaymentData(f, frequency, amount, env), "cycles") == Some("0")
  {
    if frequency == Monthly {
      RecurringNames(amount);
      RecurringLookup(f, frequency, amount, env, 0);
      RecurringLookup(f, frequency, amount, env, 1);
      RecurringLookup(f, frequency, amount, env, 2);
    } else {
      RecurringKeysOmitted(f.isAnonymous);
      PaymentHasKey(f, frequency, amount, env, "recurring_amount");
      PaymentHasKey(f, frequency, amount, env, "frequency_unit");
      PaymentHasKey(f, frequency, amount, env, "cycles");
    }
  }

  /** Payment ids taken at different instants differ. */
  lemma PaymentIdsDiffer(t1: nat, t2: nat)
    requires t1 != t2
    ensures PaymentId(t1) != PaymentId(t2)
  {
    if PaymentId(t1) == PaymentId(t2) {
      assert NatToString(t1) == PaymentId(t1)[4..];
      assert NatToString(t2) == PaymentId(t2)[4..];
      NatToStringInjective(t1, t2);
    }
  }
}
