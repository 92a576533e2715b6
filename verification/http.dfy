/** What a serverless handler gives back to the platform. */
module Http {

  /** Either an HTTP response with a status code and a body, or an exception
      escaping the handler (the platform then answers with a server error). */
  datatype Reply<+B> = Respond(status: nat, body: B) | Raised
}
