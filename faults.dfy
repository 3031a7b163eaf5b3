/**
 * The exceptions the poller can raise, one constructor per cause.
 * Java distinguishes checked `IOException`s, which the poller catches in two
 * places, from unchecked exceptions, which it never catches.
 */
module Faults {

  datatype Fault =
    | TransportFault(detail: string)   // an IOException from the HTTP transport
    | StatusFault(status: nat)         // HttpResponseException: a non-2xx status that is not handled
    | NoRealm                          // IllegalStateException: the challenge has no realm="..."
    | TokenJsonFault                   // the token body is not a JSON object of strings (or is empty)
    | TagsJsonFault                    // the tag-list body has no usable "tags" array
    | NumberFormat                     // NumberFormatException: a digit run exceeds Integer.MAX_VALUE
    | InvalidFilter(filter: string)    // PatternSyntaxException for the tag filter
    | NullRevision                     // NullPointerException: an empty revision has no tag
  {
    /** HttpResponseException extends IOException; every other fault is unchecked. */
    predicate IsIOException() {
      TransportFault? || StatusFault?
    }
  }
}
