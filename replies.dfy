/** What a handler writes back: an HTTP status with the message of the JSON
    body, or, for the listing endpoints, the rows and the page count. */
module Replies {

  const StatusOK := 200
  const StatusCreated := 201
  const StatusBadRequest := 400
  const StatusUnauthorized := 401
  const StatusInternalServerError := 500

  const InternalServerError := "internal server error"

  datatype Reply = Reply(status: int, message: string)

  /** The response of a paged listing endpoint.  `NoResponse` is a return
      that writes nothing at all. */
  datatype Listing<T> = Rejected(reply: Reply) | Listed(items: seq<T>, noOfPages: nat) | NoResponse
}
