# movidersms: a verified model of the SMS sender

`movidersms` is a small Go client for the Movider SMS API. Its core lives in `sender.go` and is a short pipeline that runs before any network traffic:

- `SendMessageRequest.Validate` checks the recipients and the text.
- `makeValidPhoneNumbers` rewrites the recipient numbers in place into international form: country code 63, no `+`.
- `Sender.isAllowedPhone` gates the send on the first recipient.
- `SendMessageRequest.Encode` builds the `application/x-www-form-urlencoded` body.
- `Sender.SendMessage` ties these together, posts the body and turns a provider error in the decoded response into the call's error.

This project models that core in Dafny and proves what each part promises.

Modules, one file each:

- `Wrappers` (`wrappers.dfy`): `Option` and `Result`.
- `Utf8` (`utf8.dfy`): the UTF-8 encoding of a string. Go's `len` on a string counts these bytes, so the 15-character limit is a 15-byte limit.
- `GoStrings` (`go_strings.dfy`): the functions of Go's `strings` package that the sender uses:
  - `TrimSpace`, with `unicode.IsSpace`, Unicode's White_Space set;
  - `HasPrefix`;
  - `Replace(s, "+", "", 1)`, as `RemoveFirst`;
  - `Join`;
  - `Split`, the inverse of `Join`.
- `UrlQuery` (`url_query.dfy`): `url.QueryEscape` on the UTF-8 bytes of the text, and its inverse `QueryUnescape`:
  - unreserved characters are copied;
  - a space becomes `+`;
  - any other byte becomes `%XY` with upper-case hex digits.
- `Messages` (`messages.dfy`): the constants `MoviderAPIURL` and `MaxPhoneLength`, the request, response and provider-error records, and the error values.
- `Validation` (`validation.dfy`): `Validate` as a function returning an optional error, with one lemma per outcome.
- `Encoding` (`encoding.dfy`): `Encode`, through a model of `fmt.Sprintf` restricted to `%s` verbs, and `DecodeBody`, a reader for the same layout, with the round trip between them.
- `Normalization` (`normalization.dfy`):
  - `MakeValidPhoneNumbers` works in place on an `array<string>`, as the Go function works on the caller's slice;
  - `Normalize` on sequences is its specification.
- `Delivery` (`delivery.dfy`):
  - the `Sender` record and `NewSender`;
  - `IsAllowedPhone`;
  - `Deliver`, the specification of the whole call;
  - the method `SendMessage`, which normalises the caller's array in place and returns Go's result pair.

The phone-number library and the network are parameters, not code:

- `PhoneFormatter` is any function from (number, region) to an E.164 text or an error. It stands for `phonenumbers.Parse` followed by `phonenumbers.Format(…, E164)`.
- `Exchange` is any function from the HTTP request to a decoded `SendMessageResponse` or an error. The request itself is modelled by `PostRequest`: the verb, the sender's URL, the two headers and the encoded body. `Exchange` stands for what is done with it: `http.NewRequest`'s own check of the URL, `http.Client.Do`, `io.ReadAll` and `json.Unmarshal`.

Every lemma about these two holds for all of their behaviours. The test vector of `makeValidPhoneNumbers` states what the library must return for its three inputs as preconditions.

`SendMessage` has one extra out-parameter, `posted`. It is the request handed to `Exchange`, or `None` when the call ends before a request is built, so "no request is sent" can be stated. Because a failure of `http.NewRequest` is part of `Exchange`, `posted` holds the request in that case too, although Go then makes no HTTP call.

Two points where the code decides what a reader of its messages might expect otherwise:

- The message of `ErrInvalidDestination` (sender.go:25) counts the limit in characters, but the check is on `len(dest)` (sender.go:91), which counts UTF-8 bytes. The model follows the code: the limit is 15 bytes.
- `Validate` checks the recipients in one pass (sender.go:86-94): for each entry, blank is checked before length, and the first offending entry decides. An entry of 16 spaces therefore gives `ErrNoDestination`, not `ErrInvalidDestination`.

## Model

| member | source | states |
|---|---|---|
| Utf8.EncodeChar | sender.go:91 | a character takes 1 to 4 bytes; exactly one, equal to its code, when it is ASCII; otherwise every byte is at least 0x80 |
| Utf8.Bytes | sender.go:91 | a string has at least as many UTF-8 bytes as characters |
| Utf8.ByteLen | sender.go:91 | Go's `len(dest)`: the number of UTF-8 bytes, never less than the number of characters; ByteLenAscii says when the two are equal |
| Utf8.ByteLenAscii | sender.go:91 | Go's `len` equals the number of characters exactly when every character is ASCII |
| Utf8.BytesAscii | sender.go:104 | an ASCII string's bytes are its character codes, one for one |
| GoStrings.IsSpace | sender.go:88 | the definition of `unicode.IsSpace` as Unicode's White_Space set; it has no contract of its own, and TrimSpace's contract is stated in terms of it |
| GoStrings.TrimSpace | sender.go:88 | the result is the slice of the input between leading and trailing white space, starts and ends with a non-space, and is empty exactly when the input is all white space |
| GoStrings.HasPrefix | sender.go:62 | the definition of `strings.HasPrefix`; it has no contract of its own, and NormalizeOne and NormalizeKeepsPrefixed state what the "63" test decides |
| GoStrings.IndexOf | sender.go:71-76 | -1 exactly when the character is absent, otherwise the position of its first occurrence |
| GoStrings.RemoveFirst | sender.go:71-76 | the string with its first occurrence of the character deleted, or the string itself when it has none |
| GoStrings.Join | sender.go:105 | joining one element gives that element |
| GoStrings.Split | sender.go:105 | the inverse of Join: at least one piece, none containing the separator |
| GoStrings.NotInJoin | sender.go:105 | a character in neither the elements nor the separator is not in the join |
| GoStrings.SplitJoin | sender.go:105 | splitting the comma-join of recipients that contain no comma gives back the recipients |
| UrlQuery.HexDigit | sender.go:104 | the escape digit is a hexadecimal digit whose value is the nibble |
| UrlQuery.EscapeByte | sender.go:104 | the escape of a byte never contains '&' |
| UrlQuery.EscapeBytes | sender.go:104 | an escaped text never contains '&', so it cannot break the body's fields |
| UrlQuery.QueryEscape | sender.go:104 | the escaped text never contains '&'; QueryRoundTrip and QueryEscapePlainText characterise it further |
| UrlQuery.UnescapeEscape | sender.go:104 | unescaping an escaped byte sequence gives it back |
| UrlQuery.QueryRoundTrip | sender.go:104 | QueryUnescape(QueryEscape(s)) is the UTF-8 bytes of s |
| UrlQuery.EscapePlainBytes | sender.go:104 | on bytes that are letters, digits or spaces, escaping keeps the length, gives '+' for each space and copies every other byte |
| UrlQuery.QueryEscapePlainText | sender_test.go:52-67 | on letters, digits and spaces the escape has the same length, has '+' for each space and keeps every other character |
| Validation.FirstUnacceptableUnique | sender.go:86-94 | the first offending recipient is unique |
| Validation.CheckDestinations | sender.go:86-94 | no error exactly when every recipient is non-blank and at most 15 bytes; otherwise the error of the first offending entry, blank giving ErrNoDestination before length giving ErrInvalidDestination |
| Validation.Validate | sender.go:82-100 | a valid request has a recipient; the result is nil or one of the three sentinel errors |
| Validation.ValidateNoDestination | sender.go:83-90 | ErrNoDestination exactly when there are no recipients or the first offending recipient is blank |
| Validation.ValidateInvalidDestination | sender.go:86-94 | ErrInvalidDestination exactly when the first offending recipient is non-blank and longer than 15 bytes |
| Validation.ValidateNoText | sender.go:95-97 | ErrNoText exactly when there are recipients, all pass, and the text is blank |
| Validation.ValidateAccepts | sender.go:82-100 | nil exactly when there are recipients, all pass, and the text is not blank |
| Validation.DigitsAcceptable | sender.go:86-94 | a number of 1 to 15 decimal digits passes both recipient checks |
| Validation.ValidateBlankDestinationExamples | sender_test.go:93-132 | no recipients, "" or runs of spaces as recipient give ErrNoDestination |
| Validation.ValidateLongDestinationExample | sender_test.go:133-140 | a 16-digit recipient gives ErrInvalidDestination |
| Validation.ValidateBlankTextExamples | sender_test.go:141-164 | a good recipient with an empty or all-space text gives ErrNoText |
| Validation.ValidateGoodRequestExample | sender_test.go:165-172 | a good recipient with "test only" is valid |
| Encoding.Sprintf | sender.go:106 | the definition of `fmt.Sprintf` for `%s` verbs; it has no contract of its own, and SprintfLiteral, SprintfVerb and SprintfFour characterise it |
| Encoding.SprintfLiteral | sender.go:106 | a piece of format without '%' is copied to the output as it is |
| Encoding.SprintfVerb | sender.go:106 | a `%s` is replaced by the next argument, which is consumed |
| Encoding.SprintfFour | sender.go:106 | a %s-only format with four verbs between '%'-free pieces puts the four arguments in order between the pieces |
| Encoding.FillBodyTemplate | sender.go:103-106 | the body template takes key, secret, recipients and text in that order |
| Encoding.Encode | sender.go:102-107 | the body is `api_key=` key `&api_secret=` secret `&to=` comma-joined recipients `&text=` escaped text, with only the text escaped |
| Encoding.EncodeDecode | sender.go:102-107 | when key and secret hold no '&' and the recipients no '&' or ',', the body decodes back to key, secret, recipients and the text's bytes |
| Encoding.EncodeWithExampleCredentials | sender_test.go:25-27 | with credentials "apikey"/"apisecret" the body begins `api_key=apikey&api_secret=apisecret` |
| Encoding.EncodeOneWordExample | sender_test.go:36-43 | the exact body for one recipient and "test" |
| Encoding.EncodeTwoRecipientsExample | sender_test.go:44-51 | the exact body for two recipients, comma-joined |
| Encoding.EncodeTwoWordsExample | sender_test.go:52-59 | the exact body for "test only": `text=test+only` |
| Encoding.EncodeThreeWordsExample | sender_test.go:60-67 | the exact body for "test only now": `text=test+only+now` |
| Normalization.NormalizeOne | sender.go:62-76 | a number starting with "63" is kept; otherwise it fails exactly when the library fails, with its error, and else becomes the E.164 text without its leading '+' |
| Normalization.NormalizeOneRemovesFirstPlus | sender.go:66-74 | for any text the formatter returns, an entry without the "63" prefix becomes that text with its first '+' removed, or the text itself when it has none |
| Normalization.Normalize | sender.go:61-80 | keeps the number of entries and every entry that starts with "63" |
| Normalization.NormalizeSucceeds | sender.go:61-80 | no error exactly when every entry normalises, and then each entry is replaced by its normalised form |
| Normalization.NormalizeAll | sender.go:61-80 | a list whose entries all normalise is replaced entry by entry by their normalised forms, without error |
| Normalization.NormalizeStopsAtFirstError | sender.go:67-70 | the error is the first failing entry's; earlier entries are rewritten, that one and all later ones untouched |
| Normalization.NormalizeKeepsPrefixed | sender.go:63-65 | a list of numbers that all start with "63" is left as it is, without error |
| Normalization.NormalizeIdempotent | sender.go:61-80 | normalising again changes nothing once a first pass succeeded with "63" numbers |
| Normalization.NormalizeStopsAt | sender.go:61-80 | the normalisation is determined by the index where it stops: rewritten prefix, failing entry, untouched rest |
| Normalization.NormalizeTestVector | sender_test.go:188-210 | the test's four numbers become the four expected numbers, given the library's E.164 texts for the three that need parsing |
| Normalization.MakeValidPhoneNumbers | sender.go:61-80 | the array afterwards holds Normalize of its old contents, and the returned error is Normalize's |
| Delivery.NewSender | sender.go:44-52 | the URL is `https://api.movider.co/v1/sms`; credentials and allow-list are as given |
| Delivery.Listed | sender.go:189-195 | true exactly when the number is an element of the list |
| Delivery.IsAllowedPhone | sender.go:184-198 | an empty allow-list allows every number; otherwise exactly the listed ones |
| Delivery.Prepare | sender.go:128-158 | without a request to post, the call has not succeeded; any request to post is a POST to the sender's URL |
| Delivery.PostRequest | sender.go:148-158 | the definition of the request: verb POST, the given URL, the `accept` and `content-type` headers, the given body; it has no contract of its own, and Prepare and SendMessagePosts state which request goes out |
| Delivery.Deliver | sender.go:125-182 | a successful outcome carries a response without a provider error |
| Delivery.SendMessage | sender.go:125-182 | returns Deliver's pair for the old recipients, posts exactly Posted's request, and leaves the recipients normalised in place once validation passes |
| Delivery.SendMessageInvalid | sender.go:134-136 | a validation error is returned as is, nothing is posted and the recipients are untouched |
| Delivery.SendMessageParseError | sender.go:138-140 | a parse error is returned, nothing is posted, and the recipients are partly rewritten as Normalize says |
| Delivery.SendMessageSkipped | sender.go:142-146 | (nil, nil) exactly when the checks pass and the first normalised recipient is not allowed; nothing is posted then |
| Delivery.OpenSenderNeverSkips | sender.go:184-187 | with an empty allow-list the call never ends in the silent no-op |
| Delivery.SendMessagePosts | sender.go:148-158 | a request goes out exactly when the checks pass and the first recipient is allowed, and it carries the encoding of the normalised recipients |
| Delivery.SendMessageProviderError | sender.go:177-179 | a decoded response with a provider error makes that error the result |
| Delivery.SendMessageSent | sender.go:177-181 | a response is returned exactly when a request was posted and the provider answered without error |
| Delivery.PostedBodyDecodes | sender.go:148-152 | the posted body decodes to the credentials, the normalised recipients and the text's bytes |

## Left out

- Sending the request is left to the `Exchange` parameter: `http.Client.Do`, `io.ReadAll` and `json.Unmarshal` (sender.go:161-175) are network I/O and a foreign decoder. The request they receive (verb, URL, headers, body; sender.go:148-158) is modelled, as `PostRequest`. A failure of `http.NewRequest` (sender.go:153-155) is also left to `Exchange` and folded into the same `Transport` error as the other three, because the model does not parse URLs.
- `SendMessageResponse.RemainingBalance` is a `float64` and is not modelled.
- The `phonenumbers` library is the `PhoneFormatter` parameter. Its parsing rules are not part of this model.
- The `context.Context` argument and the `log.Println` line (sender.go:126, 143) are cancellation and logging, with no effect on the result.
- `Error.Error()` (sender.go:115-117) and the texts of the three sentinel errors are string formatting. The errors are datatype constructors.
- Encode: returns a `string`, not a `[]byte`. Strings are sequences of Unicode characters, so strings holding invalid UTF-8 cannot be expressed.
- Encoding.Sprintf: models only `%s` verbs with enough arguments, which is all the body template uses.
- Encoding.DecodeBody and UrlQuery.QueryUnescape are reference readers used to state the round trips. They are not operations of the library.
- `cmd/main.go` reads environment variables and makes a single call; `sender_integration_test.go` runs against the live provider. Neither is modelled.
- Go's distinction between a nil and an empty recipient slice does not exist here: both are the empty sequence, which `Validate` treats the same way.
