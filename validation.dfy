/** SendMessageRequest.Validate: the checks made before anything is sent. */
module Validation {
  import opened Wrappers
  import opened Utf8
  import opened GoStrings
  import opened Messages

  /** A recipient that passes both per-entry checks: not blank, at most MaxPhoneLength bytes. */
  predicate Acceptable(dest: string) {
    !IsBlank(dest) && ByteLen(dest) <= MaxPhoneLength
  }

  /** Entry `k` is the first recipient that fails a check. */
  predicate FirstUnacceptable(to: seq<string>, k: int) {
    0 <= k < |to| && !Acceptable(to[k]) && forall j :: 0 <= j < k ==> Acceptable(to[j])
  }

  /** The first offending entry is unique. */
  lemma FirstUnacceptableUnique(to: seq<string>, k: int, m: int)
    requires FirstUnacceptable(to, k) && FirstUnacceptable(to, m)
    ensures k == m
  {
  }

  /** The error an offending entry produces: emptiness is checked before length. */
  function DestinationError(dest: string): Error {
    if IsBlank(dest) then NoDestination else InvalidDestination
  }

  /**
   * The loop of Validate over the recipients, in order: an entry that trims
   * to empty is ErrNoDestination, else one longer than MaxPhoneLength bytes is
   * ErrInvalidDestination; the first offending entry decides.
   */
  function CheckDestinations(to: seq<string>): (r: Option<Error>)
    ensures r == None <==> forall i :: 0 <= i < |to| ==> Acceptable(to[i])
    ensures r != None ==> (exists k :: FirstUnacceptable(to, k) && r == Some(DestinationError(to[k])))
  {
    if to == [] then None
    else if TrimSpace(to[0]) == "" then
      assert FirstUnacceptable(to, 0);
      Some(NoDestination)
    else if ByteLen(to[0]) > MaxPhoneLength then
      assert FirstUnacceptable(to, 0);
      Some(InvalidDestination)
    else
      var r := CheckDestinations(to[1..]);
      assert Acceptable(to[0]);
      assert forall i :: 1 <= i < |to| ==> to[i] == to[1..][i - 1];
      if r != None then
        var k :| FirstUnacceptable(to[1..], k) && r == Some(DestinationError(to[1..][k]));
        assert FirstUnacceptable(to, k + 1);
        r
      else r
  }

  /**
   * SendMessageRequest.Validate: no recipients is ErrNoDestination, then the
   * recipients are checked in order, then a text that trims to empty is
   * ErrNoText; None means the request is valid.
   */
  function Validate(req: SendMessageRequest): (r: Option<Error>)
    ensures r == None ==> |req.to| > 0
    ensures r in {None, Some(NoDestination), Some(InvalidDestination), Some(NoText)}
  {
    if |req.to| == 0 then Some(NoDestination)
    else
      var dest := CheckDestinations(req.to);
      if dest != None then dest
      else if TrimSpace(req.text) == "" then Some(NoText)
      else None
  }

  /** ErrNoDestination: no recipients, or the first offending entry is blank. */
  lemma ValidateNoDestination(req: SendMessageRequest)
    ensures Validate(req) == Some(NoDestination) <==>
      |req.to| == 0 || exists k :: FirstUnacceptable(req.to, k) && IsBlank(req.to[k])
  {
    if |req.to| > 0 && exists k :: FirstUnacceptable(req.to, k) && IsBlank(req.to[k]) {
      var k :| FirstUnacceptable(req.to, k) && IsBlank(req.to[k]);
      var m :| FirstUnacceptable(req.to, m) && CheckDestinations(req.to) == Some(DestinationError(req.to[m]));
      FirstUnacceptableUnique(req.to, k, m);
    }
  }

  /** ErrInvalidDestination: the first offending entry is not blank but longer than 15 bytes. */
  lemma ValidateInvalidDestination(req: SendMessageRequest)
    ensures Validate(req) == Some(InvalidDestination) <==>
      exists k :: FirstUnacceptable(req.to, k) && !IsBlank(req.to[k]) && ByteLen(req.to[k]) > MaxPhoneLength
  {
    if exists k :: FirstUnacceptable(req.to, k) && !IsBlank(req.to[k]) && ByteLen(req.to[k]) > MaxPhoneLength {
      var k :| FirstUnacceptable(req.to, k) && !IsBlank(req.to[k]);
      var m :| FirstUnacceptable(req.to, m) && CheckDestinations(req.to) == Some(DestinationError(req.to[m]));
      FirstUnacceptableUnique(req.to, k, m);
    }
  }

  /** ErrNoText: every recipient passes and the text is blank. */
  lemma ValidateNoText(req: SendMessageRequest)
    ensures Validate(req) == Some(NoText) <==>
      |req.to| > 0 && (forall i :: 0 <= i < |req.to| ==> Acceptable(req.to[i])) && IsBlank(req.text)
  {
  }

  /** Validate accepts exactly the requests with acceptable recipients and a non-blank text. */
  lemma ValidateAccepts(req: SendMessageRequest)
    ensures Validate(req) == None <==>
      |req.to| > 0 && (forall i :: 0 <= i < |req.to| ==> Acceptable(req.to[i])) && !IsBlank(req.text)
  {
  }

  /** A number of 1 to 15 decimal digits passes the per-entry checks. */
  lemma DigitsAcceptable(dest: string)
    requires 0 < |dest| <= MaxPhoneLength
    requires forall i :: 0 <= i < |dest| ==> '0' <= dest[i] <= '9'
    ensures Acceptable(dest)
  {
    ByteLenAscii(dest);
    assert !IsSpace(dest[0]);
  }

  // The validation table of the package's own tests. The strings are
  // parameters fixed by the requires clauses, which keeps the verifier from
  // evaluating the checks on literal arguments character by character.

  /** No recipients, an empty one, or one made of spaces: ErrNoDestination. */
  lemma ValidateBlankDestinationExamples(creds: Credentials, text: string, d0: string, d1: string, d6: string)
    requires text == "test" && d0 == "" && d1 == " " && d6 == "      "
    ensures Validate(SendMessageRequest(creds, [], text)) == Some(NoDestination)
    ensures Validate(SendMessageRequest(creds, [d0], text)) == Some(NoDestination)
    ensures Validate(SendMessageRequest(creds, [d1], text)) == Some(NoDestination)
    ensures Validate(SendMessageRequest(creds, [d6], text)) == Some(NoDestination)
  {
    forall d | d in {d0, d1, d6} ensures CheckDestinations([d]) == Some(NoDestination) {
      assert IsBlank(d);
      assert TrimSpace(d) == "";
    }
  }

  /** A 16-digit recipient: ErrInvalidDestination. */
  lemma ValidateLongDestinationExample(creds: Credentials, text: string, dest: string)
    requires text == "test" && dest == "1234567890123456"
    ensures Validate(SendMessageRequest(creds, [dest], text)) == Some(InvalidDestination)
  {
    ByteLenAscii(dest);
    assert !IsBlank(dest) by { assert !IsSpace(dest[0]); }
  }

  /** A good recipient with an empty or all-space text: ErrNoText. */
  lemma ValidateBlankTextExamples(creds: Credentials, phone: string, t0: string, t1: string, t6: string)
    requires phone == "639123456789"
    requires t0 == "" && t1 == " " && t6 == "      "
    ensures Validate(SendMessageRequest(creds, [phone], t0)) == Some(NoText)
    ensures Validate(SendMessageRequest(creds, [phone], t1)) == Some(NoText)
    ensures Validate(SendMessageRequest(creds, [phone], t6)) == Some(NoText)
  {
    DigitsAcceptable(phone);
    assert CheckDestinations([phone]) == None;
    assert IsBlank(t0) && IsBlank(t1) && IsBlank(t6);
  }

  /** A good recipient and the text "test only": valid. */
  lemma ValidateGoodRequestExample(creds: Credentials, phone: string, text: string)
    requires phone == "639123456789" && text == "test only"
    ensures Validate(SendMessageRequest(creds, [phone], text)) == None
  {
    DigitsAcceptable(phone);
    assert CheckDestinations([phone]) == None;
    assert !IsBlank(text) by { assert !IsSpace(text[0]); }
  }
}
