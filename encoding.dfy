/**
 * SendMessageRequest.Encode: the application/x-www-form-urlencoded body of
 * the provider request, and a decoder for that body layout.
 */
module Encoding {
  import opened Wrappers
  import opened Utf8
  import opened GoStrings
  import opened UrlQuery
  import opened Messages

  /** The body template: only %s verbs. */
  const BodyTemplate: string := "api_key=%s&api_secret=%s&to=%s&text=%s"

  /** The recipient separator of the `to` field. */
  const RecipientSeparator: char := ','

  /**
   * fmt.Sprintf for format strings whose verbs are all %s and that have
   * enough arguments: each %s in turn is replaced by the next argument,
   * every other character is copied.
   */
  function Sprintf(format: string, args: seq<string>): string
    decreases |format|
  {
    if format == [] then []
    else if |format| >= 2 && format[0] == '%' && format[1] == 's' && args != [] then
      args[0] + Sprintf(format[2..], args[1..])
    else
      [format[0]] + Sprintf(format[1..], args)
  }

  lemma {:induction false} SprintfLiteral(lit: string, rest: string, args: seq<string>)
    requires '%' !in lit
    ensures Sprintf(lit + rest, args) == lit + Sprintf(rest, args)
  {
    if lit == [] {
      assert lit + rest == rest;
    } else {
      var s := lit + rest;
      assert s[0] == lit[0] && s[0] != '%' && s[1..] == lit[1..] + rest;
      SprintfLiteral(lit[1..], rest, args);
      assert lit == [lit[0]] + lit[1..];
    }
  }

  lemma SprintfVerb(rest: string, arg: string, args: seq<string>)
    ensures Sprintf("%s" + rest, [arg] + args) == arg + Sprintf(rest, args)
  {
    var s := "%s" + rest;
    assert s[0] == '%' && s[1] == 's' && s[2..] == rest;
    assert ([arg] + args)[1..] == args;
  }

  /**
   * A literal piece followed by a %s verb consumes one argument; `done` is
   * the output produced so far.
   */
  lemma SprintfPiece(done: string, lit: string, rest: string, arg: string, args: seq<string>)
    requires '%' !in lit
    ensures done + Sprintf(lit + ("%s" + rest), [arg] + args) == done + lit + arg + Sprintf(rest, args)
  {
    SprintfLiteral(lit, "%s" + rest, [arg] + args);
    SprintfVerb(rest, arg, args);
  }

  /** A format with four %s verbs between literal pieces that contain no '%'. */
  lemma SprintfFour(l0: string, l1: string, l2: string, l3: string,
                    a: string, b: string, c: string, d: string)
    requires '%' !in l0 && '%' !in l1 && '%' !in l2 && '%' !in l3
    ensures Sprintf(l0 + ("%s" + (l1 + ("%s" + (l2 + ("%s" + (l3 + "%s")))))), [a, b, c, d]) ==
      l0 + a + l1 + b + l2 + c + l3 + d
  {
    var v := "%s";
    var t3 := l3 + v;
    var t2 := l2 + (v + t3);
    var t1 := l1 + (v + t2);
    var format := l0 + (v + t1);
    var p1, p2, p3 := l0 + a, l0 + a + l1 + b, l0 + a + l1 + b + l2 + c;
    var whole := l0 + a + l1 + b + l2 + c + l3 + d;
    assert Sprintf(format, [a, b, c, d]) == p1 + Sprintf(t1, [b, c, d]) by {
      assert [a, b, c, d] == [a] + [b, c, d];
      SprintfPiece([], l0, t1, a, [b, c, d]);
      assert [] + Sprintf(format, [a, b, c, d]) == Sprintf(format, [a, b, c, d]);
      assert [] + l0 == l0;
    }
    assert p1 + Sprintf(t1, [b, c, d]) == p2 + Sprintf(t2, [c, d]) by {
      assert [b, c, d] == [b] + [c, d];
      SprintfPiece(p1, l1, t2, b, [c, d]);
    }
    assert p2 + Sprintf(t2, [c, d]) == p3 + Sprintf(t3, [d]) by {
      assert [c, d] == [c] + [d];
      SprintfPiece(p2, l2, t3, c, [d]);
    }
    assert p3 + Sprintf(t3, [d]) == whole by {
      assert [d] == [d] + [] && v + [] == v;
      SprintfPiece(p3, l3, [], d, []);
      assert whole + Sprintf([], []) == whole;
    }
  }

  /** BodyTemplate as its literal pieces with a %s between consecutive ones. */
  lemma TemplatePieces()
    ensures BodyTemplate == "api_key=" + ("%s" + ("&api_secret=" + ("%s" + ("&to=" + ("%s" + ("&text=" + "%s"))))))
  {
  }

  /** The four %s of BodyTemplate take key, secret, recipients and text, in that order. */
  lemma FillBodyTemplate(key: string, secret: string, to: string, text: string)
    ensures Sprintf(BodyTemplate, [key, secret, to, text]) ==
      "api_key=" + key + "&api_secret=" + secret + "&to=" + to + "&text=" + text
  {
    TemplatePieces();
    SprintfFour("api_key=", "&api_secret=", "&to=", "&text=", key, secret, to, text);
  }

  /**
   * SendMessageRequest.Encode: the key, the secret and the comma-joined
   * recipients are inserted as they are; only the text is query-escaped.
   */
  function Encode(req: SendMessageRequest): (body: string)
    ensures body == "api_key=" + req.credentials.apiKey + "&api_secret=" + req.credentials.apiSecret +
      "&to=" + Join(req.to, [RecipientSeparator]) + "&text=" + QueryEscape(req.text)
  {
    var key, secret := req.credentials.apiKey, req.credentials.apiSecret;
    var to, text := Join(req.to, [RecipientSeparator]), QueryEscape(req.text);
    FillBodyTemplate(key, secret, to, text);
    Sprintf(BodyTemplate, [key, secret, to, text])
  }

  /** What a reader of the body recovers: key, secret, recipients, and the text's bytes. */
  datatype FormFields = FormFields(apiKey: string, apiSecret: string, to: seq<string>, text: seq<byte>)

  /**
   * Reads a body laid out as Encode writes it: four '&'-separated fields with
   * the names api_key, api_secret, to and text, in that order.
   */
  function DecodeBody(body: string): Option<FormFields> {
    var parts := Split(body, '&');
    if |parts| != 4 || !HasPrefix(parts[0], "api_key=") || !HasPrefix(parts[1], "api_secret=")
      || !HasPrefix(parts[2], "to=") || !HasPrefix(parts[3], "text=")
    then None
    else
      match QueryUnescape(parts[3][5..])
      case None => None
      case Some(text) =>
        Some(FormFields(parts[0][8..], parts[1][11..], Split(parts[2][3..], RecipientSeparator), text))
  }

  /** A body part `name + value`, for a name without '&'. */
  lemma NamedPart(name: string, value: string)
    requires '&' !in name && '&' !in value
    ensures '&' !in name + value && HasPrefix(name + value, name) && (name + value)[|name|..] == value
  {
    assert (name + value)[..|name|] == name;
  }

  lemma JoinFour(a: string, b: string, c: string, d: string, sep: string)
    ensures Join([a, b, c, d], sep) == a + sep + b + sep + c + sep + d
  {
    var parts := [a, b, c, d];
    assert parts[1..] == [b, c, d] && parts[1..][1..] == [c, d];
    assert Join([c, d], sep) == c + sep + d by {
      assert [c, d][1..] == [d];
    }
    assert Join([b, c, d], sep) == b + sep + (c + sep + d);
    assert Join(parts, sep) == a + sep + (b + sep + (c + sep + d));
  }

  /** Moves the '&' separators next to the field names that follow them. */
  lemma Regroup(s0: string, s1: string, s2: string, s3: string, s4: string, s5: string,
                s6: string, s7: string, s8: string, s9: string, s10: string)
    ensures (s0 + s1) + s2 + (s3 + s4) + s5 + (s6 + s7) + s8 + (s9 + s10) ==
      s0 + s1 + (s2 + s3) + s4 + (s5 + s6) + s7 + (s8 + s9) + s10
  {
  }

  /** The decoder applied to four well-formed parts joined by '&'. */
  lemma DecodeFourParts(key: string, secret: string, to: string, text: string)
    requires '&' !in key && '&' !in secret && '&' !in to && '&' !in text
    ensures DecodeBody(Join(["api_key=" + key, "api_secret=" + secret, "to=" + to, "text=" + text], "&")) ==
      match QueryUnescape(text)
      case None => None
      case Some(t) => Some(FormFields(key, secret, Split(to, RecipientSeparator), t))
  {
    NamedPart("api_key=", key);
    NamedPart("api_secret=", secret);
    NamedPart("to=", to);
    NamedPart("text=", text);
    SplitJoin(["api_key=" + key, "api_secret=" + secret, "to=" + to, "text=" + text], '&');
  }

  /**
   * A body made by Encode reads back as its request when the key and the
   * secret contain no '&', and the recipients (at least one) contain neither
   * '&' nor ','. The unescaped text is the UTF-8 encoding of the request's text.
   */
  lemma EncodeDecode(req: SendMessageRequest)
    requires '&' !in req.credentials.apiKey && '&' !in req.credentials.apiSecret
    requires |req.to| >= 1
    requires forall i :: 0 <= i < |req.to| ==> '&' !in req.to[i] && RecipientSeparator !in req.to[i]
    ensures DecodeBody(Encode(req)) ==
      Some(FormFields(req.credentials.apiKey, req.credentials.apiSecret, req.to, Utf8.Bytes(req.text)))
  {
    var key, secret := req.credentials.apiKey, req.credentials.apiSecret;
    var to, text := Join(req.to, [RecipientSeparator]), QueryEscape(req.text);
    var parts := ["api_key=" + key, "api_secret=" + secret, "to=" + to, "text=" + text];
    assert Encode(req) == Join(parts, "&") by {
      JoinFour("api_key=" + key, "api_secret=" + secret, "to=" + to, "text=" + text, "&");
      assert "&" + "api_secret=" == "&api_secret=";
      assert "&" + "to=" == "&to=";
      assert "&" + "text=" == "&text=";
      Regroup("api_key=", key, "&", "api_secret=", secret, "&", "to=", to, "&", "text=", text);
    }
    NotInJoin(req.to, [RecipientSeparator], '&');
    DecodeFourParts(key, secret, to, text);
    SplitJoin(req.to, RecipientSeparator);
    QueryRoundTrip(req.text);
  }

  /** QueryEscape on a text of letters, digits and spaces, as a whole string. */
  lemma QueryEscapePlainString(text: string, escaped: string)
    requires forall i :: 0 <= i < |text| ==> IsAlphanumeric(text[i]) || text[i] == ' '
    requires |escaped| == |text|
    requires forall i :: 0 <= i < |text| ==> escaped[i] == if text[i] == ' ' then '+' else text[i]
    ensures QueryEscape(text) == escaped
  {
    QueryEscapePlainText(text);
  }

  lemma JoinTwo(a: string, b: string, sep: string)
    ensures Join([a, b], sep) == a + sep + b
  {
    assert [a, b][1..] == [b];
  }

  /** Encode with the example credentials "apikey" and "apisecret", field by field. */
  lemma EncodeWithExampleCredentials(creds: Credentials, to: seq<string>, text: string, joined: string, escaped: string)
    requires creds == Credentials("apikey", "apisecret")
    requires Join(to, [RecipientSeparator]) == joined && QueryEscape(text) == escaped
    ensures Encode(SendMessageRequest(creds, to, text)) ==
      "api_key=" + "apikey" + "&api_secret=" + "apisecret" + "&to=" + joined + "&text=" + escaped
  {
  }

  // The body examples of the package's own table. The request parts are
  // parameters fixed by the requires clauses, which keeps the verifier from
  // evaluating Encode on literal arguments character by character.

  /** One recipient, a one-word text. */
  lemma EncodeOneWordExample(creds: Credentials, one: seq<string>, text: string)
    requires creds == Credentials("apikey", "apisecret")
    requires one == ["639123456789"] && text == "test"
    ensures Encode(SendMessageRequest(creds, one, text)) ==
      "api_key=" + "apikey" + "&api_secret=" + "apisecret" + "&to=" + "639123456789" + "&text=" + "test"
  {
    QueryEscapePlainString(text, "test");
    EncodeWithExampleCredentials(creds, one, text, "639123456789", "test");
  }

  /** Two recipients, joined with a comma. */
  lemma EncodeTwoRecipientsExample(creds: Credentials, two: seq<string>, text: string)
    requires creds == Credentials("apikey", "apisecret")
    requires two == ["639123456789", "639123456788"] && text == "test"
    ensures Encode(SendMessageRequest(creds, two, text)) ==
      "api_key=" + "apikey" + "&api_secret=" + "apisecret" +
      "&to=" + ("639123456789" + "," + "639123456788") + "&text=" + "test"
  {
    QueryEscapePlainString(text, "test");
    JoinTwo("639123456789", "639123456788", ",");
    EncodeWithExampleCredentials(creds, two, text, "639123456789" + "," + "639123456788", "test");
  }

  /** A two-word text: the space becomes '+'. */
  lemma EncodeTwoWordsExample(creds: Credentials, one: seq<string>, text: string)
    requires creds == Credentials("apikey", "apisecret")
    requires one == ["639123456789"] && text == "test only"
    ensures Encode(SendMessageRequest(creds, one, text)) ==
      "api_key=" + "apikey" + "&api_secret=" + "apisecret" + "&to=" + "639123456789" + "&text=" + "test+only"
  {
    QueryEscapePlainString(text, "test+only");
    EncodeWithExampleCredentials(creds, one, text, "639123456789", "test+only");
  }

  /** A three-word text: each space becomes '+'. */
  lemma EncodeThreeWordsExample(creds: Credentials, one: seq<string>, text: string)
    requires creds == Credentials("apikey", "apisecret")
    requires one == ["639123456789"] && text == "test only now"
    ensures Encode(SendMessageRequest(creds, one, text)) ==
      "api_key=" + "apikey" + "&api_secret=" + "apisecret" + "&to=" + "639123456789" + "&text=" + "test+only+now"
  {
    QueryEscapePlainString(text, "test+only+now");
    EncodeWithExampleCredentials(creds, one, text, "639123456789", "test+only+now");
  }
}
