# MSI website core, modelled in Dafny

This project models the small pure routines inside the Maths and Science Infinity (MSI) website and proves properties about them. The site is a Next.js/TypeScript app. It has nine such routines:

- **PayFast notify verifier** (`POST /api/payfast/notify`). It rebuilds the signature string from the received fields, dropping `signature`, writing each pair as `key=encodeURIComponent(value)` and joining them with `&`. It appends the merchant key, hashes the result with MD5 and answers 200, 400 or 500.
- **Donation form** (`PayFastForm`). It validates the donor fields and builds the hidden form that is posted to the gateway.
- **Donate page**. It filters the typed amount, enables the Continue button and runs the frequency modal and the coming-soon modal.
- **Get-involved page**. It checks uploads are PDFs, checks a tutor's qualifications and decides whether to submit.
- **Applications e-mail route**. It chooses the recipient and the subject, and formats the body as one paragraph per field.
- **Blog index**: a stable sort, newest first, and a lookup by slug.
- **Gallery**: the category filter and the enlarged-image overlay.
- **Header**: the path each nav item links to, the highlighting tests, the menu toggle and the scroll flag.
- **Impact counters**: the number each counter runs up to and the text it shows.

Everything is an immutable datatype with pure functions. Each UI handler is a function from one state to the next. Time, environment variables, the page origin, the MD5 digest, the outcome of `fetch` and whether `sendMail` succeeded are all parameters.

Modules, one per file:

- Shared building blocks:
  - `Wrappers`: `Option`.
  - `Text`: characters, ASCII case mapping, `join`.
  - `Decimal`: numerals, `String(n)` and `parseInt`.
  - `Seqs`: filter and subsequence.
  - `FormFields`: ordered key/value payloads, `Object.fromEntries` and property assignment.
  - `UriComponent`: `encodeURIComponent`, with a decoder to prove it is invertible.
- One module per source file: `PayfastNotify`, `PayfastForm`, `DonatePage`, `GetInvolved`, `ApplicationsRoute`, `Blog`, `Gallery`, `Header` and `Impact`.
- `Handoff`: the get-involved page and the applications route together.

## Model

| member | source | states |
|---|---|---|
| FormFields.Lookup | app/api/payfast/notify/route.ts:10 | Reading a property gives nothing exactly when no field has that key. Otherwise it gives a value that is stored under that key. |
| FormFields.LookupAt | app/api/payfast/notify/route.ts:10 | When keys are distinct, reading the key of any field gives that field's value. |
| FormFields.PutFacts | app/get-involved/page.tsx:145-149 | Assigning a property replaces the value of an existing key in place, or appends a new key at the end. Every other key reads as before, and distinct keys stay distinct. |
| FormFields.Put | app/get-involved/page.tsx:145-149 | Assigning one property. PutFacts states its effect. |
| FormFields.FromEntries | app/api/payfast/notify/route.ts:7 | `Object.fromEntries` gives an object with distinct keys. It has the same key set as the entries, and each key holds the last value given for it. |
| FormFields.FromEntriesOfDistinct | app/api/payfast/notify/route.ts:7 | On entries with distinct keys, `Object.fromEntries` changes neither the order nor the values. |
| FormFields.LookupAppend | app/get-involved/page.tsx:145-149 | Reading from two payloads joined together finds the key in the first payload if it is there, and otherwise in the second. |
| FormFields.Zip | components/PayFastForm.tsx:62-94 | An object literal: its i-th field is the i-th name with the i-th value. |
| Text.ToLower | components/Header.tsx:170 | `toLowerCase` on ASCII letters: the length is kept and each character is lowered on its own. |
| Text.ToLowerChar | components/Header.tsx:170 | A capital A-Z becomes a lower-case letter that `ToUpperChar` maps back to that capital. Any other character is kept. |
| Text.ToUpperChar | app/api/applications/route.ts:26-39 | A lower-case a-z becomes a capital. Any other character is kept. |
| Text.UpperCaseInverse | app/api/applications/route.ts:26-39 | Lowering undoes upper-casing and upper-casing undoes lowering, so the two maps pair the 26 capitals with the 26 lower-case letters. |
| Text.JoinEnds | app/api/payfast/notify/route.ts:18 | The joined text starts with the first piece and ends with the last, so no separator leads or trails. |
| Text.JoinSnoc | app/api/payfast/notify/route.ts:18 | One more piece adds exactly one separator and that piece. |
| Decimal.NatToString | components/PayFastForm.tsx:69 | `String(n)` is a non-empty digit string with no leading zero. |
| Decimal.ValueOfNatToString | components/PayFastForm.tsx:69 | Reading the digits of `String(n)` back gives `n`. |
| Decimal.NatToStringInjective | components/PayFastForm.tsx:69 | Different numbers render differently. |
| Decimal.ValuePositiveIff | app/donate/page.tsx:58 | A digit string denotes a positive number exactly when it has a non-zero digit. |
| Decimal.ParseInt | app/get-involved/page.tsx:109-110 | `parseInt` with no radix: skip leading white space, read an optional sign, then "0x" with hex digits or decimal digits up to the first other character. None stands for NaN. ParseIntReadsNumber, ParseIntOfDigits and ParseIntOfIntToString state what it returns. |
| Decimal.ParseIntReadsNumber | app/get-involved/page.tsx:109-110 | `parseInt` skips leading white space and reads back a signed rendered integer, whatever non-numeral text follows. |
| Text.TrimStart | app/get-involved/page.tsx:109-110 | `parseInt` skips a leading white-space run, as does a leading `\s+`: what remains is a suffix of the text, strictly shorter when the text starts with white space, and it does not start with white space. |
| Text.TrimStartDropsWhitespace | app/get-involved/page.tsx:109-110 | Everything the trim drops is white space. |
| Decimal.IntToString | components/Impact.tsx:25 | `String(v)` starts with a minus sign exactly when `v` is negative. The rest is a non-empty run of digits. |
| Decimal.ParseIntOfDigits | components/Impact.tsx:10 | On a string of digits alone, `parseInt` gives the value of all of them. On the empty string it gives NaN. |
| Decimal.ParseIntOfIntToString | components/Impact.tsx:23-25 | `parseInt` reads back any rendered integer followed by text that does not continue the numeral. |
| UriComponent.EncodeChar | app/api/payfast/notify/route.ts:17 | An unreserved character is kept as it is. Any other character becomes `%` triplets, one for each of its UTF-8 bytes. |
| UriComponent.Utf8 | app/api/payfast/notify/route.ts:17 | A character takes one to four UTF-8 bytes, and one byte exactly when it is ASCII. |
| UriComponent.Encode | app/api/payfast/notify/route.ts:17 | The encoding is never shorter than the input and never contains `&` or `=`. |
| UriComponent.Utf8RoundTrip | app/api/payfast/notify/route.ts:17 | Decoding the UTF-8 bytes of a character gives the character back. |
| UriComponent.DecodeEncode | app/api/payfast/notify/route.ts:17 | Decoding `encodeURIComponent(s)` gives `s` back. |
| UriComponent.EncodeInjective | app/api/payfast/notify/route.ts:17 | Different values encode differently. |
| UriComponent.EncodeUnreserved | app/api/payfast/notify/route.ts:17 | Text made only of unreserved characters is left unchanged. |
| UriComponent.EncodeAppend | app/api/payfast/notify/route.ts:17 | Encoding works piece by piece: encoding two joined texts is the same as encoding each and joining the results. |
| UriComponent.EncodeExampleEmail | app/api/payfast/notify/route.ts:17 | "a@b.com" encodes as "a%40b.com". |
| PayfastNotify.SignedFields | app/api/payfast/notify/route.ts:15-16 | No signed field is named `signature`, and without a `signature` field every field is kept. |
| PayfastNotify.SignedFieldsIsFilter | app/api/payfast/notify/route.ts:15-16 | The signed fields are exactly the received fields filtered by "key is not `signature`". |
| PayfastNotify.SignedFieldsKeepOthers | app/api/payfast/notify/route.ts:15-16 | The signed fields keep the received order. Only `signature` fields are removed: the signed fields and the `signature` fields together account for every received field. |
| PayfastNotify.RenderAll | app/api/payfast/notify/route.ts:17 | There is one `key=encoded value` piece per field, in field order. |
| PayfastNotify.RenderField | app/api/payfast/notify/route.ts:17 | One field as `key=` followed by its encoded value. RenderingDeterminesValues states that renderings determine the values. |
| PayfastNotify.SignatureString | app/api/payfast/notify/route.ts:15-18 | The signed fields rendered and joined by `&`. The SignedFields and SignatureField lemmas state which fields it covers. |
| PayfastNotify.HashInput | app/api/payfast/notify/route.ts:11-24 | The hash input is the signature string followed directly by the merchant key, with no separator. An unset key is appended as "undefined". |
| PayfastNotify.Notify | app/api/payfast/notify/route.ts:4-54 | 200 `{success: true}` exactly when the body is readable and its `signature` equals the digest of the hash input. Any other readable body gets 400 "Invalid signature". An unreadable body gets 500 "Internal server error". A body without `signature` always gets 400. |
| PayfastNotify.RenderingDeterminesValues | app/api/payfast/notify/route.ts:17-18 | Two payloads with the same key sequence and the same joined rendering are equal. |
| PayfastNotify.EqualSignedFieldsAgree | app/api/payfast/notify/route.ts:15-16 | If two payloads with the same keys have the same signed fields, they agree at every non-signature position. |
| PayfastNotify.TamperedValueChangesSignatureString | app/api/payfast/notify/route.ts:15-18 | Changing the value of any non-signature field changes the signature string. |
| PayfastNotify.SignatureFieldIgnored | app/api/payfast/notify/route.ts:16 | Where a `signature` field sits, and what it holds, does not affect the signature string. |
| PayfastNotify.SignatureFieldDropped | app/api/payfast/notify/route.ts:16 | A `signature` field inserted anywhere is removed from the signed fields. |
| PayfastNotify.AppendedSignatureVerdict | app/api/payfast/notify/route.ts:10-49 | For distinct fields followed by a signature, the answer is 200 exactly when the signature is the digest of the fields' hash input, and 400 otherwise. |
| PayfastNotify.SignedNotificationAccepted | app/api/payfast/notify/route.ts:15-49 | A notification signed the way the handler checks is accepted, whatever the hash function. |
| PayfastNotify.ThreeFieldString | app/api/payfast/notify/route.ts:15-18 | Three unsigned fields give their renderings joined by `&`. |
| PayfastNotify.ExampleSignatureString | app/api/payfast/notify/route.ts:15-18 | The worked example: `m_payment_id` MSI-1000, `amount` 50.00 and `email_address` a@b.com give "m_payment_id=MSI-1000&amount=50.00&email_address=a%40b.com". |
| PayfastNotify.WorkedExample | app/api/payfast/notify/route.ts:15-30 | That example with the merchant key "test" is accepted exactly when its signature is the digest of the string followed by "test". |
| PayfastForm.ValidateForm | components/PayFastForm.tsx:28-44 | For each field: when the error is set, and which message wins (a later check overwrites an earlier one). The three personal fields are not checked when the donor is anonymous. An empty cell gets the 10-digit message. Different e-mails get "Emails do not match". |
| PayfastForm.ValidIff | components/PayFastForm.tsx:46-47 | The form is valid exactly when the e-mail is given and matches its confirmation, and, unless the donor is anonymous, both names are given and the cell number is ten digits. |
| PayfastForm.IsValid | components/PayFastForm.tsx:46-47 | The form is valid when the error record is empty. ValidIff characterises it field by field. |
| PayfastForm.Inputs | components/PayFastForm.tsx:103-109 | There is one hidden input per payment field, in insertion order, with that field's name and value. |
| PayfastForm.HandleSubmit | components/PayFastForm.tsx:50-109 | The error record is the validation result, and a form is posted exactly when it is valid. The form uses POST, targets the production URL in production and the sandbox URL otherwise, and carries the payment fields in order. |
| PayfastForm.PaymentDataKeysDistinct | components/PayFastForm.tsx:63-94 | No payment field is written twice. |
| PayfastForm.PaymentKeysDistinct | components/PayFastForm.tsx:63-94 | In every combination of anonymity and frequency, the property names of the payment object are pairwise different. |
| PayfastForm.PaymentLookup | components/PayFastForm.tsx:63-94 | Looking up the `i`-th property name in the payment fields gives the `i`-th value written. |
| PayfastForm.PaymentHasKey | components/PayFastForm.tsx:63-94 | A payment field is present exactly when its name is one of the property names written for that anonymity and frequency. |
| PayfastForm.PaymentData | components/PayFastForm.tsx:62-94 | The `paymentData` object: property names and values zipped in insertion order. The PaymentData lemmas state each property. |
| PayfastForm.PaymentDataMerchant | components/PayFastForm.tsx:56-57 | `merchant_id` and `merchant_key` carry the configured values, an unset one as "undefined". |
| PayfastForm.PaymentDataCallbacks | components/PayFastForm.tsx:58-60 | The return, cancel and notify URLs are the origin followed by `/donate/success`, `/donate` and `/api/payfast/notify`. |
| PayfastForm.PaymentDataPayment | components/PayFastForm.tsx:69-73 | `m_payment_id` is "MSI-" followed by the timestamp, `amount` is the given amount, and `email_address` is always sent. |
| PayfastForm.PaymentDataItem | components/PayFastForm.tsx:71-72 | `item_name` names Monthly or Once-off. Both `item_name` and `item_description` gain " (Anonymous)" exactly for anonymous donors. |
| PayfastForm.ItemName | components/PayFastForm.tsx:71 | "MSI Donation - ", then Monthly or Once-off, then " (Anonymous)" for anonymous donors. PaymentDataItem states it reaches `item_name`. |
| PayfastForm.PaymentDataPersonal | components/PayFastForm.tsx:74-79 | `name_first`, `name_last` and `cell_number` are present exactly when the donor is not anonymous, and then carry the donor's values. |
| PayfastForm.PaymentDataSubscription | components/PayFastForm.tsx:81-93 | Every donation sends `subscription_type` and `subscription_frequency` (2 and 3 when monthly, 0 and 0 when once-off) and `subscription_cycles` 0. |
| PayfastForm.PaymentDataRecurring | components/PayFastForm.tsx:81-88 | `recurring_amount`, `frequency_unit` and `cycles` are present exactly for monthly donations, and then carry the amount, 3 and 0. |
| PayfastForm.PaymentIdsDiffer | components/PayFastForm.tsx:69 | Different timestamps give different payment ids. |
| PayfastForm.PaymentId | components/PayFastForm.tsx:69 | "MSI-" then the timestamp. PaymentIdsDiffer states that ids of different timestamps differ. |
| DonatePage.AmountRegexIff | app/donate/page.tsx:57 | `^\d*\.?\d*$` matches exactly the texts made of digits and at most one dot. |
| DonatePage.RegexGivesAmountText | app/donate/page.tsx:57 | Every text the pattern matches is digits with at most one dot. |
| DonatePage.AmountTextMatchesRegex | app/donate/page.tsx:57 | Every text of digits with at most one dot matches the pattern. |
| DonatePage.DottedAmountText | app/donate/page.tsx:57 | Digits, a dot, then digits is an amount text. |
| DonatePage.CustomAmount | app/donate/page.tsx:53-70 | Text outside the pattern keeps the amount and sets "Only numbers are allowed". An empty or positive amount is taken as typed, clearing the error and the preset. A non-positive amount clears the amount and sets "Amount must be greater than 0". |
| DonatePage.ZeroAmountsRejected | app/donate/page.tsx:62-64 | "0", "0.00" and "." clear the amount with the positive-amount message. |
| DonatePage.NonNumericInputKeepsAmount | app/donate/page.tsx:66-69 | "-5", "1.2.3" and "abc" keep the amount and set the numbers-only message. |
| DonatePage.PaymentClick | app/donate/page.tsx:72-74 | The click opens the frequency modal and changes nothing else. |
| DonatePage.FrequencySelect | app/donate/page.tsx:76-80 | Choosing records the frequency, closes the frequency modal and opens the coming-soon modal. Nothing else changes. |
| DonatePage.StepKeepsReachable | app/donate/page.tsx:35-80 | Every handler keeps the invariant: the amount is empty or a positive amount text, no preset is selected, and the coming-soon modal only shows after a frequency has been chosen. |
| DonatePage.RunKeepsReachable | app/donate/page.tsx:35-80 | The invariant holds after any sequence of events. |
| DonatePage.Step | app/donate/page.tsx:35-80 | One UI event dispatched to its handler. StepKeepsReachable states the invariant it keeps. |
| DonatePage.ContinueDisabledIffEmpty | app/donate/page.tsx:159-162 | In every state reachable from the initial one, Continue is disabled exactly when the amount is empty. |
| DonatePage.ContinueDisabled | app/donate/page.tsx:161 | The `disabled` expression of Continue: no amount, or an amount that is not positive. ContinueDisabledIffEmpty simplifies it in reachable states. |
| DonatePage.ContinueOpensFrequencyModal | app/donate/page.tsx:159-167 | In a reachable state, Continue opens the frequency modal exactly when an amount is present (or the modal is already open), and it changes nothing else. |
| GetInvolved.LastSegmentIsSuffix | app/get-involved/page.tsx:88 | `split('.').pop()` is the dot-free end of the name. Unless it is the whole name, a dot comes just before it. |
| GetInvolved.LastSegmentOfDotted | app/get-involved/page.tsx:88 | A name ending in a dot and a dot-free extension gives that extension. |
| GetInvolved.LastSegment | app/get-involved/page.tsx:88 | `split('.').pop()`. LastSegmentIsSuffix and LastSegmentOfDotted state what it returns. |
| GetInvolved.ValidatePdfFile | app/get-involved/page.tsx:84-91 | No file passes. A file passes when its extension lower-cases to "pdf" or its type is `application/pdf`. PdfExtensionIff and PdfNameExamples state which names pass. |
| GetInvolved.PdfExtensionIff | app/get-involved/page.tsx:88-89 | The extension test accepts exactly p, d, f, each in either case. |
| GetInvolved.PdfNameExamples | app/get-involved/page.tsx:84-91 | A ".pdf" name is always accepted. A ".docx" name is accepted only when the media type is PDF. |
| GetInvolved.HandleFileChange | app/get-involved/page.tsx:94-102 | A rejected file sets only that field's error to "Only PDF files are accepted" and leaves the files unchanged. An accepted file, or no file, is stored under its field and clears that field's error. |
| GetInvolved.FileChangeStoresOnlyPdfs | app/get-involved/page.tsx:94-101 | Stored files always pass the PDF check. |
| GetInvolved.FileChangeErrorIff | app/get-involved/page.tsx:94-101 | After a change, the field is in error exactly when the file was rejected. Every other field's file and error are untouched. |
| GetInvolved.ValidUploadClearsLastError | app/get-involved/page.tsx:100-134 | A valid file for the only field in error clears the file-error gate. |
| GetInvolved.CheckTutorQualifications | app/get-involved/page.tsx:108-124 | The verdict is true exactly when the error is cleared, and it is always true for non-tutors. A tutor with a grade below 50 gets the Level 4 message. Only when both grades pass does an empty tertiary qualification fail, with its own message. |
| GetInvolved.GradeFails | app/get-involved/page.tsx:109-113 | `parseInt` of the grade, or of '0' when the grade is empty, is below 50. EmptyGradeFails, DecimalGradeFailsIff and NonNumericGradePasses state which grades fail. |
| GetInvolved.EmptyGradeFails | app/get-involved/page.tsx:109-113 | An empty grade counts as 0 and fails. |
| GetInvolved.DecimalGradeFailsIff | app/get-involved/page.tsx:109-113 | A grade written in decimal fails exactly when it is below 50. |
| GetInvolved.NonNumericGradePasses | app/get-involved/page.tsx:109-113 | A grade with no leading digit is NaN, and the `< 50` test lets it through. |
| GetInvolved.HandleSubmit | app/get-involved/page.tsx:126-172 | A request is sent exactly when the tutor check passes and no file has an error, and the tutor check runs first. The body is the form plus `to` and `applicationType`. Success and the modal follow delivery, and a failed fetch sets the retry message. `isSubmitting` is false again afterwards. |
| GetInvolved.SubmittedBody | app/get-involved/page.tsx:145-149 | The body carries every form field unchanged, then `to` set to the fixed recipient, then the application type. |
| ApplicationsRoute.SpaceCapitals | app/api/applications/route.ts:25 | Inserting spaces never shortens the key. SpaceCapitalsPlacement states where the spaces go. |
| ApplicationsRoute.SpaceCapitalsLength | app/api/applications/route.ts:25 | The label is longer than the key by exactly the number of capitals in it. |
| ApplicationsRoute.SpaceBeforeEveryCapital | app/api/applications/route.ts:25 | Every capital in the result has a space right before it. |
| ApplicationsRoute.SpacesOnlyBeforeCapitals | app/api/applications/route.ts:25 | On a key without spaces, every space in the result has a capital right after it. |
| ApplicationsRoute.SpaceCapitalsPlacement | app/api/applications/route.ts:25 | On a key without spaces, there is one space per capital, right before that capital and nowhere else, and removing the spaces gives the key back. |
| ApplicationsRoute.UpperFirstMatch | app/api/applications/route.ts:26 | Upper-casing the first match keeps the length (case mapping is ASCII-only). |
| ApplicationsRoute.FormatKey | app/api/applications/route.ts:25-26 | The label of a key: spaces before capitals, then the first character upper-cased. UnformatFormatKey, FormatKeyInjective and FormatKeyExamples state its properties. |
| ApplicationsRoute.Capitalize | app/api/applications/route.ts:39 | `charAt(0).toUpperCase() + slice(1)` upper-cases the first character and keeps the rest. |
| ApplicationsRoute.UpperFirstMatchIsCapitalize | app/api/applications/route.ts:26-39 | The key's `/^./` upper-casing and the subject's `charAt(0)` upper-casing agree. |
| ApplicationsRoute.RemoveSpacesOfSpaced | app/api/applications/route.ts:25 | Removing the inserted spaces gives the key back. |
| ApplicationsRoute.UnformatFormatKey | app/api/applications/route.ts:25-26 | A camel-case key of ASCII letters and digits can be recovered from its label. |
| ApplicationsRoute.FormatKeyInjective | app/api/applications/route.ts:25-26 | Different camel-case keys of ASCII letters and digits get different labels. |
| ApplicationsRoute.FormatKeyExamples | app/api/applications/route.ts:25-26 | "mathGrade" is labelled "Math Grade" and "name" is labelled "Name". |
| ApplicationsRoute.SpaceCapitalsOfLower | app/api/applications/route.ts:25 | A key without capitals gets no spaces. |
| ApplicationsRoute.RestFields | app/api/applications/route.ts:7 | The rest object is an in-order selection of the body without `to` and `applicationType`. Every other key reads as in the body. |
| ApplicationsRoute.RestFieldsLookup | app/api/applications/route.ts:7 | The rest object has no `to` and no `applicationType`. Every other key reads as in the body. |
| ApplicationsRoute.Paragraphs | app/api/applications/route.ts:28 | There is one `<p><strong>Label:</strong> value</p>` per shown field, in order. |
| ApplicationsRoute.ShownFields | app/api/applications/route.ts:22-23 | Every shown field has a non-empty value and is neither `to` nor `applicationType`. |
| ApplicationsRoute.ShownFieldsIff | app/api/applications/route.ts:7-23 | The shown fields are an in-order selection of the body. A field is shown exactly when it is a form field with a non-empty value. |
| ApplicationsRoute.FormatApplicationData | app/api/applications/route.ts:19-33 | The paragraphs of the shown fields, joined with nothing between them. Paragraphs and ShownFieldsIff state what they hold. |
| ApplicationsRoute.ChooseRecipient | app/api/applications/route.ts:38 | The recipient is `to` if non-empty, else DEFAULT_EMAIL_TO if non-empty, else the fixed address. It is never empty. |
| ApplicationsRoute.FirstTruthy | app/api/applications/route.ts:38 | A chain of JavaScript logical ORs gives its first non-empty operand, or nothing when every operand is absent or empty. |
| ApplicationsRoute.ChooseRecipientIsFirstTruthy | app/api/applications/route.ts:38 | The recipient is the first truthy operand of the chain: `to`, then DEFAULT_EMAIL_TO, then the fixed address. |
| ApplicationsRoute.SubjectShape | app/api/applications/route.ts:39 | The subject is "New ", then the type with its first letter upper-cased, then " Application from MSI Website". |
| ApplicationsRoute.Subject | app/api/applications/route.ts:39 | The subject line. SubjectShape states its shape. |
| ApplicationsRoute.Html | app/api/applications/route.ts:41-44 | The heading with the capitalised type, then the formatted fields in a `div`. |
| ApplicationsRoute.BuildMail | app/api/applications/route.ts:36-45 | The mail options: sender from EMAIL_USER, the chosen recipient, the subject, the plain text and the HTML. Handoff.SubmittedApplicationIsMailed states what a posted application yields. |
| ApplicationsRoute.Post | app/api/applications/route.ts:4-60 | 200 exactly when the body parses, has `applicationType` and the mail is sent; 500 otherwise. A mail is built exactly when the body parses and has `applicationType`, and it is built from the parsed object. |
| Handoff.RestFieldsOfPut | app/get-involved/page.tsx:145-149 | Adding `to` or `applicationType` leaves the route's rest object as it was. |
| Handoff.PostedBody | app/get-involved/page.tsx:145-149 | The route reads the page's body back unchanged. It contains the page's recipient and type, and its rest object is the page's form. |
| Handoff.SubmittedApplicationIsMailed | app/api/applications/route.ts:7-48 | When the page posts, the route mails the fixed recipient under the capitalised type's subject. The mail shows exactly the applicant's non-empty fields, and the answer is 200 exactly when the mail goes out. |
| Blog.Insert | lib/blog.ts:159-161 | Inserting adds exactly the one post. |
| Blog.SortNewestFirst | lib/blog.ts:159-161 | The sort is a permutation. |
| Blog.InsertKeepsOrder | lib/blog.ts:159-161 | Inserting into a newest-first list keeps it newest first. |
| Blog.SortIsNewestFirst | lib/blog.ts:159-161 | The sorted list is newest first. |
| Blog.InsertKeepsDateOrder | lib/blog.ts:159-161 | An inserted post comes first among the posts of its date. |
| Blog.SortIsStable | lib/blog.ts:159-161 | Posts of the same date keep their original relative order. |
| Blog.SortOfSorted | lib/blog.ts:159-161 | Sorting a newest-first list changes nothing. |
| Blog.SortIdempotent | lib/blog.ts:159-161 | Sorting twice is the same as sorting once. |
| Blog.GetBlogPosts | lib/blog.ts:158-162 | The result is a permutation of the posts, newest first and stable. |
| Blog.BlogPostsAlreadyInOrder | lib/blog.ts:18-162 | The three posts are already in order, so the in-place sort leaves `BLOG_POSTS` as written. |
| Blog.FirstWithSlug | lib/blog.ts:165 | It finds the position of the first post with the slug, or reports that there is none. |
| Blog.FindBySlug | lib/blog.ts:164-166 | It returns null exactly when no post has the slug. Otherwise it returns the first post that has it. |
| Blog.BlogPostSlugsDistinct | lib/blog.ts:18-156 | The slugs are pairwise distinct. |
| Blog.FindOwnSlug | lib/blog.ts:164-166 | With distinct slugs, every post is found by its own slug. |
| Blog.FindUnaffectedBySort | lib/blog.ts:158-166 | With distinct slugs, looking up after the sort finds the same post as before it. |
| Blog.FindInReordering | lib/blog.ts:164-166 | With distinct slugs, any reordering of the same posts answers every slug lookup the same way. |
| Gallery.FilteredImages | app/gallery/page.tsx:249-251 | "all" gives the whole list. Any other category gives images of that category only, and all of them. |
| Gallery.FilteredIsOrderedSelection | app/gallery/page.tsx:251 | The filtered list is a subsequence of the images. Any in-order selection of that category that is at least as long is that list. |
| Gallery.AllIsSubsequence | app/gallery/page.tsx:249-250 | "all" is trivially an in-order selection. |
| Gallery.AchievementsIsEmpty | app/gallery/page.tsx:20-240 | No image is filed under "achievements", so that tab is empty. |
| Gallery.ImageIdsDistinct | app/gallery/page.tsx:23-240 | Image ids, used as list keys, are pairwise distinct. |
| Gallery.TabsPartition | app/gallery/page.tsx:249-251 | Events, classes and workshops split the images between them. |
| Gallery.Step | app/gallery/page.tsx:292-370 | Clicking an image selects it. The backdrop and the close button clear the selection. A click on the enlarged image changes nothing. A category button sets the category and nothing else, so an open image stays open. No other event changes the category. |
| Gallery.RunSelectsOnlyImages | app/gallery/page.tsx:318-348 | Whatever is enlarged is always one of the gallery's images. |
| Header.DashWhitespaceHasNoSpace | components/Header.tsx:170 | `replace(/\s+/g, '-')` leaves no white space. |
| Header.TrimRun | components/Header.tsx:170 | A leading run of white space is dropped entirely, up to the first non-space. |
| Header.NavPath | components/Header.tsx:170 | Every item path starts with "/" and contains no white space. |
| Header.DashWhitespace | components/Header.tsx:170 | `replace(/\s+/g, '-')`. DashWhitespaceHasNoSpace, DashWhitespaceOfPlain, DashWhitespaceOfRun and DashWhitespaceAppend state what it does. |
| Header.DashWhitespaceOfPlain | components/Header.tsx:170 | Text without white space is unchanged. |
| Header.DashWhitespaceAppend | components/Header.tsx:170 | The replacement works piece by piece at word boundaries. |
| Header.DashWhitespaceOfRun | components/Header.tsx:170 | A whole run of white space becomes one "-". |
| Header.TwoWordPath | components/Header.tsx:170 | Two words separated by white space are joined by one "-". |
| Header.NavPathExamples | components/Header.tsx:170 | "Get Involved" links to "/get-involved" and "Home" links to "/". |
| Header.OneWordNavPath | components/Header.tsx:170 | A one-word item other than Home links to "/" followed by its lower-cased text. |
| Header.PlainNavPathShape | components/Header.tsx:170 | Such a path is one character longer than the item, and its second character is the item's first letter in lower case. |
| Header.NavPathKey | components/Header.tsx:116-170 | Gives the length and initial of every nav item's path. |
| Header.AtMostOneActive | components/Header.tsx:116-171 | No two nav items share a path, so at most one link is highlighted. |
| Header.IsActive | components/Header.tsx:171 | A nav link is highlighted exactly when the path name equals its item path. |
| Header.ResourcesLabelHighlighted | components/Header.tsx:147 | The Resources label is red on any path name starting with "/resources". |
| Header.ResourceItemHighlighted | components/Header.tsx:160 | A resource link is red exactly on its own href. |
| Header.ResourceItemImpliesLabel | components/Header.tsx:110-160 | A highlighted resource link always comes with a highlighted Resources label. |
| Header.ToggleMenu | components/Header.tsx:106-108 | The toggle flips `isOpen` and leaves `isScrolled` alone. |
| Header.ToggleTwice | components/Header.tsx:106-108 | Toggling twice restores the state. |
| Header.HandleScroll | components/Header.tsx:61-69 | `isScrolled` becomes `scrollY > 0`. The state is written exactly when that value changes. |
| Header.ScrollSettles | components/Header.tsx:61-69 | A second scroll at the same offset writes nothing. |
| Impact.Digits | components/Impact.tsx:10 | Removing the non-digits leaves only digits. |
| Impact.Suffix | components/Impact.tsx:24 | "+" if the text contains "+", else "%" if it contains "%", else nothing, so "+" wins. |
| Impact.FinalNumber | components/Impact.tsx:10 | `parseInt` of the stat text with the non-digits removed. FinalNumberValue states its value. |
| Impact.Display | components/Impact.tsx:23-25 | The rounded count followed by the suffix. DisplayReadsBack and SettlesOnStatText state what it shows. |
| Impact.FinalNumberValue | components/Impact.tsx:10 | The target is the value of the text's digits, read in order as one numeral. It is NaN exactly when the text has no digit. |
| Impact.FinalNumberIgnoresNonDigits | components/Impact.tsx:10 | A non-digit anywhere in the text does not change the target. |
| Impact.DisplayReadsBack | components/Impact.tsx:23-25 | `parseInt` reads the shown count back from the shown text. |
| Impact.SettlesOnStatText | components/Impact.tsx:10-25 | A stat written as a plain number followed by "+", "%" or nothing runs to that number and, once settled, shows exactly the stat text. |
| Impact.DigitsOfStatText | components/Impact.tsx:10 | The digits of a plain number followed by "+", "%" or nothing are that number's digits. |
| Impact.SuffixOfStatText | components/Impact.tsx:24 | The suffix of such a stat text is the suffix it was written with. |
| Impact.StatsSettle | components/Impact.tsx:10-49 | The four counters run to 5000, 50, 100 and 90 and settle on "5000+", "50+", "100+" and "90%". |

## Left out

- MD5 (RFC 1321) is a parameter `md5Hex: string -> string`. Nothing here depends on what it computes, so no collision or preimage reasoning appears.
- I/O and framework plumbing are not modelled: `request.formData()` and `request.json()`, `fetch`, nodemailer's `sendMail`, `NextResponse`, `document.createElement` and `form.submit`, and console logging. Each becomes a parameter (the request variant, the fetch outcome, whether the mail was sent) or a returned value (the response, the posted form, the mail). The notification body's entries are all strings. A multipart `File` entry, which the signature string would render as "%5Bobject%20File%5D", is not modelled.
- Environment and browser values are parameters: `process.env`, `NODE_ENV`, `Date.now()`, `window.location.origin` and `window.scrollY`.
- The notification's fields after verification (`payment_status` and the rest) are only logged, so they are left out.
- Floating point is left out: `parseFloat(amount).toFixed(2)`, `Math.round` and the framer-motion spring.
- PayfastForm.HandleSubmit: takes the amount already formatted as an opaque string, because `toFixed(2)` is floating-point formatting.
- DonatePage.CustomAmount: models `parseFloat(v) > 0` on pattern-matching text as "has a non-zero digit". The two differ only on inputs long enough to underflow.
- Impact.DisplayReadsBack: takes the rounded spring value as an integer parameter. The animation that produces it is not modelled. Read-back is exact for every integer, whereas JavaScript's `String` uses exponent notation from 1e21 and `parseInt` rounds above 2^53. The counters stay at most 5000.
- FormFields.FromEntries: does not move integer-like keys to the front, as JavaScript objects do. Every key in this site's payloads is a word.
- ApplicationsRoute.Post: treats the JSON body as an object of string values. `JSON.parse` of a non-object, and non-string values, are not modelled. A body that fails to parse is one case.
- UriComponent.Encode: covers every Unicode scalar value. A lone surrogate, which makes `encodeURIComponent` throw, cannot be a Dafny `char`.
- GetInvolved.PdfExtensionIff: lower-cases ASCII letters only. `toLowerCase` is Unicode-aware, but only the letters p, d and f matter to the comparison.
- Header.NavPath: lower-cases ASCII letters only. Every nav item is ASCII.
- Text.ToLower: lowers ASCII letters only and keeps the length. JavaScript's `toLowerCase` covers all of Unicode and can change the length ('İ' becomes two code units). Every text the site lowers (nav items, file extensions) is ASCII or only compared with "pdf".
- Text.ToLowerChar: maps A-Z only. Other letters, such as 'É', are kept, whereas `toLowerCase` lowers them.
- Text.ToUpperChar: maps a-z only. Other letters, such as 'é', are kept, whereas `toUpperCase` raises them ('ß' even becomes "SS").
- ApplicationsRoute.UpperFirstMatch: upper-cases ASCII only, so the length is kept. Every key the site posts is ASCII camel case.
- ApplicationsRoute.Capitalize: upper-cases an ASCII first letter only. Every application type the site posts ("tutor", "volunteer", "student", "sponsor") is ASCII.
- ApplicationsRoute.SubjectShape: the first letter is upper-cased as ASCII. For a type such as "ßx", JavaScript would give "SSx" and shift the rest. The site's types are ASCII.
- ApplicationsRoute.UnformatFormatKey: holds for camel-case keys of ASCII letters and digits. For "éa" and "Éa", JavaScript gives both the label "Éa", so the keys are restricted to ASCII, as all the site's keys are.
- ApplicationsRoute.FormatKeyInjective: holds for camel-case keys of ASCII letters and digits only, for the reason just given.
- Decimal.ParseInt: reads an exact unbounded integer. JavaScript's `parseInt` returns a double, which rounds above 2^53. The site's grades, stats and timestamps stay far below that.
- Decimal.ParseIntReadsNumber: exact read-back holds for every integer in the model. In JavaScript it holds only up to 2^53. The site's grades are two or three digits.
- Decimal.ParseIntOfDigits: gives the exact value of any digit string. `parseInt` rounds digit strings above 2^53, and the site's stats have at most four digits.
- Decimal.IntToString: renders every integer as plain digits. JavaScript's `String` switches to exponent notation from 1e21 ("1e+21"). The site renders only counters up to 5000 and millisecond timestamps.
- Decimal.ParseIntOfIntToString: read-back holds for every integer. In JavaScript it fails from 1e21, where "1e+21" reads back as 1, and loses precision above 2^53. The site's values are far below both.
- Impact.FinalNumberValue: the exact value of any digit run. `parseInt` rounds above 2^53, and the four stats are at most 5000.
- Impact.SettlesOnStatText: stated for every natural number. In JavaScript it fails from 1e21 on, where the display switches to exponent notation. The four stats are at most 5000.
- Blog.NotOlder: front-matter dates are (year, month, day) triples, compared as `getTime()` orders valid ISO dates. Date parsing is not modelled.
- Blog post bodies, excerpts, tags and images are not modelled. Neither are gallery image sources, titles and descriptions. None of them affects any routine.
- The get-involved `handleInputChange` is a plain field assignment and is covered by `FormFields.Put`. The header's body-overflow effect and its scroll-listener throttling only touch the DOM.
- The presentational files are not part of this model: app/page.tsx, the blog pages, components/Gallery.tsx, components/Partners.tsx, the become-a-tutor stub, and app/api/contact/route.ts, which only logs and replies. lib/gallery-data.ts duplicates the gallery page's image list and is not used.
- The code has no minimum donation amount, e-mail format check or next-billing date. It appends the merchant key with no passphrase or separator. The model adds none of these.
