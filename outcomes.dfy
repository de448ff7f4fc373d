/** Result shapes shared by the token authority and the presence engine.
    The service signals failure by raising an HTTP error with a status code;
    here each such error is one constructor of a closed datatype. */
module Outcomes {

  datatype Option<+T> = None | Some(value: T)

  datatype Result<+T> = Ok(value: T) | Err(error: Error)

  /** The errors the core raises, with the HTTP status the service maps them to. */
  datatype Error =
    | InvalidAction          // 400 "Invalid action"
    | InvalidOrExpiredToken  // 401 "Invalid or expired token"
    | InvalidMemberId        // 400 "Invalid member id", raised by the id parser
    | MemberNotFound         // 404 "Member not found"
    | MemberIdRequired       // 400 from the retired scan endpoint
    | UncaughtTypeError      // 500: an exception the handler does not catch
  {
    function Status(): (code: nat)
      ensures code in {400, 401, 404, 500}
      ensures code == 400 <==> (InvalidAction? || InvalidMemberId? || MemberIdRequired?)
    {
      match this
      case InvalidAction => 400
      case InvalidOrExpiredToken => 401
      case InvalidMemberId => 400
      case MemberNotFound => 404
      case MemberIdRequired => 400
      case UncaughtTypeError => 500
    }
  }
}
