/** The donate page's state (`app/donate/page.tsx`): the custom-amount
    filter, the "Continue to Payment" enablement and the two modals the
    button leads through.  Each handler is a function from state to state. */
module DonatePage {
  import opened Text
  import opened Wrappers
  import opened Decimal
  import opened PayfastForm

  datatype DonationType = Money | Other

  datatype PageState = PageState(
    amount: string,
    errorMessage: string,
    selectedAmount: Option<string>,
    donationType: DonationType,
    showFrequencyModal: bool,
    donationFrequency: Option<Frequency>,
    showFeatureModal: bool)

  const Initial := PageState("", "", None, Money, false, None, false)

  const OnlyNumbers := "Only numbers are allowed"
  const MustBePositive := "Amount must be greater than 0"

  // ---------------------------------------------------------------------
  // The pattern `^\d*\.?\d*$` and the sign of `parseFloat`.

  /** The regular expression as written: digits, at most one dot, digits. */
  predicate MatchesAmountRegex(s: string) {
    exists k :: 0 <= k <= |s| && AllDigits(s[..k]) &&
      (AllDigits(s[k..]) || (k < |s| && s[k] == '.' && AllDigits(s[k + 1..])))
  }

  /** The same language described character by character: only digits and
      dots, and no second dot. */
  predicate IsAmountText(s: string) {
    && (forall i :: 0 <= i < |s| ==> IsDigit(s[i]) || s[i] == '.')
    && (forall i, j :: 0 <= i < j < |s| && s[i] == '.' ==> s[j] != '.')
  }

  lemma AmountRegexIff(s: string)
    ensures MatchesAmountRegex(s) <==> IsAmountText(s)
  {
    if MatchesAmountRegex(s) {
      RegexGivesAmountText(s);
    }
    if IsAmountText(s) {
      AmountTextMatchesRegex(s);
    }
  }

  lemma RegexGivesAmountText(s: string)
    requires MatchesAmountRegex(s)
    ensures IsAmountText(s)
  {
    var k :| 0 <= k <= |s| && AllDigits(s[..k]) &&
      (AllDigits(s[k..]) || (k < |s| && s[k] == '.' && AllDigits(s[k + 1..])));
    if AllDigits(s[k..]) {
      forall i | 0 <= i < |s| ensures IsDigit(s[i]) {
        if i < k {
          assert s[..k][i] == s[i];
        } else {
          assert s[k..][i - k] == s[i];
        }
      }
    } else {
      assert s == s[..k] + "." + s[k + 1..];
      DottedAmountText(s[..k], s[k + 1..]);
    }
  }

  lemma DottedAmountText(a: string, b: string)
    requires AllDigits(a) && AllDigits(b)
    ensures IsAmountText(a + "." + b)
  {
  }

  lemma AmountTextMatchesRegex(s: string)
    requires IsAmountText(s)
    ensures MatchesAmountRegex(s)
  {
    if k :| 0 <= k < |s| && s[k] == '.' {
      assert AllDigits(s[..k]) by {
        forall i | 0 <= i < k ensures IsDigit(s[..k][i]) {
          assert s[..k][i] == s[i];
        }
      }
      var rest := s[k + 1..];
      assert AllDigits(rest) by {
        forall i | 0 <= i < |rest| ensures IsDigit(rest[i]) {
          assert rest[i] == s[k + 1 + i];
        }
      }
    } else {
      assert AllDigits(s[..|s|]) by {
        assert s[..|s|] == s;
      }
      assert AllDigits(s[|s|..]);
    }
  }

  /** `parseFloat(value) > 0` for text of the amount pattern: the number is
      positive exactly when some digit is not zero (see
      `Decimal.ValuePositiveIff`). */
  predicate IsPositiveAmount(s: string) {
    HasNonzeroDigit(s)
  }

  /** `parseFloat(amount) <= 0` for text of the amount pattern: there is a
      number (some digit) and it is zero.  A text without digits parses to
      NaN, for which the comparison is false. */
  predicate IsNonPositiveAmount(s: string) {
    (exists i :: 0 <= i < |s| && IsDigit(s[i])) && !HasNonzeroDigit(s)
  }

  // ---------------------------------------------------------------------
  // Handlers.

  /** `handleCustomAmount`: a change of the custom-amount input to `value`. */
  function CustomAmount(st: PageState, value: string): (r: PageState)
    ensures !IsAmountText(value) ==> r == st.(errorMessage := OnlyNumbers)
    ensures IsAmountText(value) && (value == "" || IsPositiveAmount(value)) ==>
      r == st.(amount := value, errorMessage := "", selectedAmount := None)
    ensures IsAmountText(value) && value != "" && !IsPositiveAmount(value) ==>
      r == st.(amount := "", errorMessage := MustBePositive)
  {
    AmountRegexIff(value);
    if MatchesAmountRegex(value) then
      if value == "" || IsPositiveAmount(value) then
        st.(amount := value, errorMessage := "", selectedAmount := None)
      else
        st.(amount := "", errorMessage := MustBePositive)
    else
      st.(errorMessage := OnlyNumbers)
  }

  /** "0", "0.00" and "." match the pattern but are not positive: the
      amount is reset and the error shown. */
  lemma ZeroAmountsRejected(st: PageState, value: string)
    requires value == "0" || value == "0.00" || value == "."
    ensures CustomAmount(st, value).amount == ""
    ensures CustomAmount(st, value).errorMessage == MustBePositive
  {
    assert IsAmountText(value);
    assert !HasNonzeroDigit(value);
  }

  /** Letters, a minus sign or a second dot leave the amount alone. */
  lemma NonNumericInputKeepsAmount(st: PageState, value: string)
    requires value == "-5" || value == "1.2.3" || value == "abc"
    ensures CustomAmount(st, value).amount == st.amount
    ensures CustomAmount(st, value).errorMessage == OnlyNumbers
  {
    assert !IsAmountText(value) by {
      if value == "1.2.3" {
        assert value[1] == '.' && value[3] == '.';
      } else {
        assert !(IsDigit(value[0]) || value[0] == '.');
      }
    }
  }

  /** The `disabled` expression of "Continue to Payment". */
  predicate ContinueDisabled(st: PageState) {
    st.amount == "" || IsNonPositiveAmount(st.amount)
  }

  /** `handlePaymentClick`. */
  function PaymentClick(st: PageState): (r: PageState)
    ensures r.showFrequencyModal
    ensures r.(showFrequencyModal := st.showFrequencyModal) == st
  {
    st.(showFrequencyModal := true)
  }

  /** `handleFrequencySelect`. */
  function FrequencySelect(st: PageState, frequency: Frequency): (r: PageState)
    ensures r.donationFrequency == Some(frequency)
    ensures !r.showFrequencyModal && r.showFeatureModal
    ensures r.(donationFrequency := st.donationFrequency, showFrequencyModal := st.showFrequencyModal,
               showFeatureModal := st.showFeatureModal) == st
  {
    st.(donationFrequency := Some(frequency), showFrequencyModal := false, showFeatureModal := true)
  }

  /** Everything the page reacts to. */
  datatype Event =
    | AmountInput(value: string)
    | ChooseDonationType(kind: DonationType)
    | ContinueClick
    | ChooseFrequency(frequency: Frequency)
    | CloseFrequencyModal
    | CloseFeatureModal

  function Step(st: PageState, e: Event): PageState {
    match e
    case AmountInput(value) => CustomAmount(st, value)
    case ChooseDonationType(kind) => st.(donationType := kind)
    case ContinueClick => if ContinueDisabled(st) then st else PaymentClick(st)
    case ChooseFrequency(frequency) => if st.showFrequencyModal then FrequencySelect(st, frequency) else st
    case CloseFrequencyModal => st.(showFrequencyModal := false)
    case CloseFeatureModal => st.(showFeatureModal := false)
  }

  function Run(st: PageState, events: seq<Event>): PageState
    decreases |events|
  {
    if events == [] then st else Run(Step(st, events[0]), events[1..])
  }

  // ---------------------------------------------------------------------
  // What every reachable state satisfies.

  /** The amount is empty or positive text of the amount pattern, no preset
      amount is ever selected, and the coming-soon modal is only shown once
      a frequency has been chosen. */
  predicate Reachable(st: PageState) {
    && (st.amount == "" || (IsAmountText(st.amount) && IsPositiveAmount(st.amount)))
    && st.selectedAmount == None
    && (st.showFeatureModal ==> st.donationFrequency.Some?)
  }

  lemma StepKeepsReachable(st: PageState, e: Event)
    requires Reachable(st)
    ensures Reachable(Step(st, e))
  {
  }

  lemma {:induction false} RunKeepsReachable(st: PageState, events: seq<Event>)
    requires Reachable(st)
    ensures Reachable(Run(st, events))
    decreases |events|
  {
    if events != [] {
      StepKeepsReachable(st, events[0]);
      RunKeepsReachable(Step(st, events[0]), events[1..]);
    }
  }

  /** On any state the page can reach, the button is disabled exactly when
      no amount has been entered. */
  lemma ContinueDisabledIffEmpty(events: seq<Event>)
    ensures var st := Run(Initial, events);
      ContinueDisabled(st) <==> st.amount == ""
  {
    RunKeepsReachable(Initial, events);
  }

  /** A click on "Continue to Payment" opens the frequency modal exactly when
      an amount has been entered, and touches nothing else. */
  lemma ContinueOpensFrequencyModal(events: seq<Event>)
    ensures var st := Run(Initial, events);
      var after := Step(st, ContinueClick);
      && (after.showFrequencyModal <==> st.showFrequencyModal || st.amount != "")
      && after.(showFrequencyModal := st.showFrequencyModal) == st
  {
    ContinueDisabledIffEmpty(events);
  }
}
