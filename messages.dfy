/** The sender's constants, configuration and message types. */
module Messages {
  import opened Wrappers

  /** The provider's API base URL. */
  const MoviderAPIURL: string := "https://api.movider.co/v1"

  /** The longest recipient number Validate accepts, in bytes. */
  const MaxPhoneLength: nat := 15

  /** The account credentials sent with every request. */
  datatype Credentials = Credentials(apiKey: string, apiSecret: string)

  /** One send: the credentials, the recipient numbers in order, and the text. */
  datatype SendMessageRequest = SendMessageRequest(credentials: Credentials, to: seq<string>, text: string)

  /** An error the provider reports inside an otherwise successful response. */
  datatype ProviderError = ProviderError(code: int, name: string, description: string)

  /** The decoded response body (its floating-point remaining balance is not modelled). */
  datatype SendMessageResponse = SendMessageResponse(totalSms: int, error: Option<ProviderError>)

  /** Every error SendMessage can return. */
  datatype Error =
    | NoDestination                        // ErrNoDestination
    | InvalidDestination                   // ErrInvalidDestination
    | NoText                               // ErrNoText
    | PhoneParse(cause: string)            // the phone-number library's parse error
    | Transport(cause: string)             // request, network, body-read or JSON failure
    | Provider(providerError: ProviderError) // the response's *Error
}
