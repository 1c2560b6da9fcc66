/**
 * The sender and its SendMessage pipeline: validate, normalise the numbers,
 * apply the allow-list, encode, post, and read the provider's answer.
 */
module Delivery {
  import opened Wrappers
  import opened Messages
  import opened Validation
  import opened Encoding
  import opened Normalization

  /** A configured sender; NewSender builds it and nothing changes it afterwards. */
  datatype Sender = Sender(apiUrl: string, creds: Credentials, allowedRecipients: seq<string>)

  /** NewSender: the SMS endpoint under the provider's API, with the given credentials and allow-list. */
  function NewSender(creds: Credentials, allowedRecipients: seq<string>): (s: Sender)
    ensures s.apiUrl == "https://api.movider.co/v1/sms"
    ensures s.creds == creds && s.allowedRecipients == allowedRecipients
  {
    Sender(MoviderAPIURL + "/sms", creds, allowedRecipients)
  }

  /** Whether `phone` equals some entry of `list`, scanning from the front. */
  function Listed(list: seq<string>, phone: string): (r: bool)
    ensures r <==> phone in list
  {
    if list == [] then false
    else if list[0] == phone then true
    else
      assert list == [list[0]] + list[1..];
      Listed(list[1..], phone)
  }

  /** isAllowedPhone: an empty allow-list admits every number; otherwise only listed ones. */
  function IsAllowedPhone(s: Sender, phone: string): (r: bool)
    ensures |s.allowedRecipients| == 0 ==> r
    ensures |s.allowedRecipients| > 0 ==> (r <==> phone in s.allowedRecipients)
  {
    if |s.allowedRecipients| == 0 then true
    else Listed(s.allowedRecipients, phone)
  }

  /** The request SendMessage hands to the HTTP client. */
  datatype HttpRequest = HttpRequest(verb: string, url: string, headers: seq<(string, string)>, body: string)

  /** A form POST to `url`, asking for a JSON answer. */
  function PostRequest(url: string, body: string): HttpRequest {
    HttpRequest("POST", url,
      [("accept", "application/json"), ("content-type", "application/x-www-form-urlencoded")], body)
  }

  /**
   * Building, sending and decoding the request: the decoded response, or
   * why there is none (the HTTP client, the body read or the JSON decoder
   * failed). The network is not part of this model; callers supply it.
   */
  type Exchange = HttpRequest -> Result<SendMessageResponse, string>

  /** How a call to SendMessage ends. */
  datatype Outcome =
    | Failed(err: Error)                   // (nil, err)
    | Skipped                              // (nil, nil): first recipient not allowed
    | Sent(response: SendMessageResponse)  // (response, nil)

  /** The pair of values SendMessage returns for an outcome. */
  function Returned(o: Outcome): (Option<SendMessageResponse>, Option<Error>) {
    match o
    case Failed(e) => (None, Some(e))
    case Skipped => (None, None)
    case Sent(response) => (Some(response), None)
  }

  /** Where SendMessage stands before any network traffic: finished, or with a request to post. */
  datatype Stage = Stop(outcome: Outcome) | Post(request: HttpRequest)

  /**
   * The part of SendMessage before the network: validation, normalisation
   * of the recipients, the allow-list check on the first normalised
   * recipient, and the encoded request to post.
   */
  function Prepare(s: Sender, recipients: seq<string>, message: string, format: PhoneFormatter): (r: Stage)
    ensures r.Stop? ==> !r.outcome.Sent?
    ensures r.Post? ==> r.request.verb == "POST" && r.request.url == s.apiUrl
  {
    var req := SendMessageRequest(s.creds, recipients, message);
    match Validate(req)
    case Some(e) => Stop(Failed(e))
    case None =>
      var normalized := Normalize(recipients, format);
      if normalized.err.Some? then Stop(Failed(PhoneParse(normalized.err.value)))
      else if !IsAllowedPhone(s, normalized.phones[0]) then Stop(Skipped)
      else Post(PostRequest(s.apiUrl, Encode(req.(to := normalized.phones))))
  }

  /** The request SendMessage posts, if it gets that far. */
  function Posted(s: Sender, recipients: seq<string>, message: string, format: PhoneFormatter): Option<HttpRequest> {
    match Prepare(s, recipients, message, format)
    case Stop(_) => None
    case Post(request) => Some(request)
  }

  /** The whole of SendMessage: the pre-network stage, then the provider's answer. */
  function Deliver(s: Sender, recipients: seq<string>, message: string, format: PhoneFormatter, exchange: Exchange): (o: Outcome)
    ensures o.Sent? ==> o.response.error == None
  {
    match Prepare(s, recipients, message, format)
    case Stop(outcome) => outcome
    case Post(request) =>
      match exchange(request)
      case Failure(cause) => Failed(Transport(cause))
      case Success(response) =>
        if response.error.Some? then Failed(Provider(response.error.value)) else Sent(response)
  }

  /** The recipients as SendMessage leaves them: normalised in place once validation passes. */
  function RecipientsAfter(s: Sender, recipients: seq<string>, message: string, format: PhoneFormatter): seq<string> {
    if Validate(SendMessageRequest(s.creds, recipients, message)).Some? then recipients
    else Normalize(recipients, format).phones
  }

  /**
   * SendMessage. The request shares the caller's recipient slice, so the
   * normalisation rewrites the caller's numbers. `posted` is the request
   * handed to the network, if any.
   */
  method SendMessage(s: Sender, recipient: array<string>, message: string, format: PhoneFormatter, exchange: Exchange)
    returns (response: Option<SendMessageResponse>, err: Option<Error>, posted: Option<HttpRequest>)
    modifies recipient
    ensures (response, err) == Returned(Deliver(s, old(recipient[..]), message, format, exchange))
    ensures posted == Posted(s, old(recipient[..]), message, format)
    ensures recipient[..] == RecipientsAfter(s, old(recipient[..]), message, format)
  {
    var smreq := SendMessageRequest(s.creds, recipient[..], message);
    var invalid := Validate(smreq);
    if invalid.Some? {
      return None, invalid, None;
    }
    var parseErr := MakeValidPhoneNumbers(recipient, format);
    if parseErr.Some? {
      return None, Some(PhoneParse(parseErr.value)), None;
    }
    smreq := smreq.(to := recipient[..]);
    if !IsAllowedPhone(s, smreq.to[0]) {
      return None, None, None;
    }
    var request := PostRequest(s.apiUrl, Encode(smreq));
    posted := Some(request);
    match exchange(request) {
      case Failure(cause) =>
        return None, Some(Transport(cause)), posted;
      case Success(smres) =>
        if smres.error.Some? {
          return None, Some(Provider(smres.error.value)), posted;
        }
        return Some(smres), None, posted;
    }
  }

  /** A request that fails validation ends with that error: nothing is posted and the numbers are untouched. */
  lemma SendMessageInvalid(s: Sender, recipients: seq<string>, message: string, format: PhoneFormatter, exchange: Exchange)
    requires Validate(SendMessageRequest(s.creds, recipients, message)).Some?
    ensures Deliver(s, recipients, message, format, exchange) ==
      Failed(Validate(SendMessageRequest(s.creds, recipients, message)).value)
    ensures Posted(s, recipients, message, format) == None
    ensures RecipientsAfter(s, recipients, message, format) == recipients
  {
  }

  /**
   * A parse error while normalising ends with that error and nothing is
   * posted; the numbers before the failing one are already rewritten.
   */
  lemma SendMessageParseError(s: Sender, recipients: seq<string>, message: string, format: PhoneFormatter, exchange: Exchange)
    requires Validate(SendMessageRequest(s.creds, recipients, message)) == None
    requires Normalize(recipients, format).err.Some?
    ensures Deliver(s, recipients, message, format, exchange) == Failed(PhoneParse(Normalize(recipients, format).err.value))
    ensures Posted(s, recipients, message, format) == None
    ensures RecipientsAfter(s, recipients, message, format) == Normalize(recipients, format).phones
  {
  }

  /** The recipients pass validation and normalisation. */
  predicate Prepared(s: Sender, recipients: seq<string>, message: string, format: PhoneFormatter) {
    Validate(SendMessageRequest(s.creds, recipients, message)) == None && Normalize(recipients, format).err == None
  }

  /**
   * SendMessage returns (nil, nil) exactly when the checks pass and the first
   * normalised recipient is not allowed; it then posts nothing.
   */
  lemma SendMessageSkipped(s: Sender, recipients: seq<string>, message: string, format: PhoneFormatter, exchange: Exchange)
    ensures Deliver(s, recipients, message, format, exchange) == Skipped <==>
      Prepared(s, recipients, message, format) && !IsAllowedPhone(s, Normalize(recipients, format).phones[0])
    ensures Deliver(s, recipients, message, format, exchange) == Skipped ==> Posted(s, recipients, message, format) == None
  {
  }

  /** With an empty allow-list SendMessage never skips silently. */
  lemma OpenSenderNeverSkips(s: Sender, recipients: seq<string>, message: string, format: PhoneFormatter, exchange: Exchange)
    requires |s.allowedRecipients| == 0
    ensures Deliver(s, recipients, message, format, exchange) != Skipped
  {
  }

  /**
   * A request goes out exactly when the checks pass and the first normalised
   * recipient is allowed: a form POST to the sender's URL whose body encodes
   * the normalised recipients.
   */
  lemma SendMessagePosts(s: Sender, recipients: seq<string>, message: string, format: PhoneFormatter)
    ensures Posted(s, recipients, message, format).Some? <==>
      Prepared(s, recipients, message, format) && IsAllowedPhone(s, Normalize(recipients, format).phones[0])
    ensures Posted(s, recipients, message, format).Some? ==>
      Posted(s, recipients, message, format).value ==
        PostRequest(s.apiUrl, Encode(SendMessageRequest(s.creds, Normalize(recipients, format).phones, message)))
  {
  }

  /** A decoded response carrying a provider error ends with that error. */
  lemma SendMessageProviderError(s: Sender, recipients: seq<string>, message: string, format: PhoneFormatter,
                                 exchange: Exchange, request: HttpRequest, pe: ProviderError)
    requires Posted(s, recipients, message, format) == Some(request)
    requires exchange(request).Success? && exchange(request).value.error == Some(pe)
    ensures Deliver(s, recipients, message, format, exchange) == Failed(Provider(pe))
  {
  }

  /** SendMessage returns a response exactly when it posted and the provider answered without error. */
  lemma SendMessageSent(s: Sender, recipients: seq<string>, message: string, format: PhoneFormatter,
                        exchange: Exchange, response: SendMessageResponse)
    ensures Deliver(s, recipients, message, format, exchange) == Sent(response) <==>
      Posted(s, recipients, message, format).Some? &&
      exchange(Posted(s, recipients, message, format).value) == Success(response) && response.error == None
  {
  }

  /**
   * What the provider receives: when the credentials hold no '&' and the
   * normalised numbers hold no '&' or ',', the posted body decodes back to
   * the credentials, the normalised numbers and the UTF-8 bytes of the text.
   */
  lemma PostedBodyDecodes(s: Sender, recipients: seq<string>, message: string, format: PhoneFormatter, request: HttpRequest)
    requires Posted(s, recipients, message, format) == Some(request)
    requires '&' !in s.creds.apiKey && '&' !in s.creds.apiSecret
    requires forall i :: 0 <= i < |recipients| ==>
      '&' !in Normalize(recipients, format).phones[i] && ',' !in Normalize(recipients, format).phones[i]
    ensures DecodeBody(request.body) ==
      Some(FormFields(s.creds.apiKey, s.creds.apiSecret, Normalize(recipients, format).phones, Utf8.Bytes(message)))
  {
    var phones := Normalize(recipients, format).phones;
    SendMessagePosts(s, recipients, message, format);
    EncodeDecode(SendMessageRequest(s.creds, phones, message));
  }
}
