/** The exceptions the services raise and the way the global exception handler turns
    each of them into an HTTP error body `(status, error label, message, path)`. */
module Errors {
  import opened Text

  /** One failed bean-validation constraint: the field (or property path) and its message. */
  datatype FieldError = FieldError(field: string, message: string)

  /** The exception kinds the handler distinguishes. `Unexpected` stands for every
      exception without a handler of its own (plain `RuntimeException`s, storage
      errors, ...), caught by the fallback handler. */
  datatype Error =
    | TaskNotFound(message: string)
    | IllegalArgument(message: string)
    | InvalidBody(fieldErrors: seq<FieldError>)
    | ConstraintViolation(violations: seq<FieldError>)
    | BadCredentials(message: string)
    | TokenError(message: string)
    | AccessDenied(message: string)
    | RateLimitExceeded(message: string)
    | OptimisticLock(message: string)
    | IdempotencyConflict(message: string)
    | Unexpected(message: string)

  /** The JSON error body (the timestamp is left out). */
  datatype ApiError = ApiError(status: int, error: string, message: string, path: string)

  const BadCredentialsMessage := "Invalid username or password"
  const StaleResourceMessage :=
    "The resource you are trying to update has been modified by another user. Please reload and try again."
  const FallbackMessage := "Something went wrong. Please try again later."

  /** `"field: message"` entries joined by `"; "`. */
  function DescribeFields(errors: seq<FieldError>): string {
    Join(seq(|errors|, i requires 0 <= i < |errors| => errors[i].field + ": " + errors[i].message), "; ")
  }

  /** The request description (`uri=/api/...`) with every `"uri="` removed. */
  function RequestPath(description: string): string {
    RemoveAll(description, "uri=")
  }

  /** The error body produced for `e` on the request described by `description`. */
  function Handle(e: Error, description: string): (r: ApiError)
    ensures r.path == RequestPath(description)
    ensures 400 <= r.status <= 500
  {
    var path := RequestPath(description);
    match e
    case TaskNotFound(m) => ApiError(404, "Not Found", m, path)
    case IllegalArgument(m) => ApiError(400, "Bad Request", m, path)
    case InvalidBody(errs) => ApiError(400, "Validation Error", DescribeFields(errs), path)
    case ConstraintViolation(vs) => ApiError(400, "Constraint Violation", DescribeFields(vs), path)
    case BadCredentials(_) => ApiError(401, "Unauthorized", BadCredentialsMessage, path)
    case TokenError(m) => ApiError(401, "Unauthorized", m, path)
    case AccessDenied(m) => ApiError(403, "Forbidden", m, path)
    case RateLimitExceeded(m) => ApiError(429, "Too Many Requests", m, path)
    case OptimisticLock(_) => ApiError(409, "Conflict", StaleResourceMessage, path)
    case IdempotencyConflict(m) => ApiError(409, "Idempotency Error", m, path)
    case Unexpected(_) => ApiError(500, "Internal Server Error", FallbackMessage, path)
  }

  /** The status classes: 500 exactly for unhandled exceptions, 409 exactly for the two
      conflict kinds, 401 exactly for authentication failures, 403 for access denial,
      429 for rate limiting, 404 for a missing task, and 400 for the three kinds of bad input. */
  lemma StatusClasses(e: Error, description: string)
    ensures Handle(e, description).status == 500 <==> e.Unexpected?
    ensures Handle(e, description).status == 409 <==> e.OptimisticLock? || e.IdempotencyConflict?
    ensures Handle(e, description).status == 401 <==> e.BadCredentials? || e.TokenError?
    ensures Handle(e, description).status == 403 <==> e.AccessDenied?
    ensures Handle(e, description).status == 429 <==> e.RateLimitExceeded?
    ensures Handle(e, description).status == 404 <==> e.TaskNotFound?
    ensures Handle(e, description).status == 400 <==>
              e.IllegalArgument? || e.InvalidBody? || e.ConstraintViolation?
  {
  }

  /** A lost-update conflict and a reused idempotency key share status 409 but always carry
      different labels, so a client can tell "reload and retry" from "wrong payload". */
  lemma ConflictKindsDistinguishable(m1: string, m2: string, d1: string, d2: string)
    ensures Handle(OptimisticLock(m1), d1).status == Handle(IdempotencyConflict(m2), d2).status == 409
    ensures Handle(OptimisticLock(m1), d1).error == "Conflict"
    ensures Handle(IdempotencyConflict(m2), d2).error == "Idempotency Error"
    ensures Handle(OptimisticLock(m1), d1).error != Handle(IdempotencyConflict(m2), d2).error
    ensures Handle(OptimisticLock(m1), d1).message == StaleResourceMessage
  {
  }

  /** The bodies for unexpected errors, bad credentials and lock conflicts do not depend on
      the exception's own text: it is never shown to the client. */
  lemma FixedMessagesHideExceptionText(m1: string, m2: string, description: string)
    ensures Handle(Unexpected(m1), description) == Handle(Unexpected(m2), description)
    ensures Handle(BadCredentials(m1), description) == Handle(BadCredentials(m2), description)
    ensures Handle(OptimisticLock(m1), description) == Handle(OptimisticLock(m2), description)
    ensures Handle(Unexpected(m1), description).message == FallbackMessage
  {
  }

  /** The kinds that carry their own message pass it through unchanged. */
  lemma MessagesPassThrough(e: Error, description: string)
    requires e.TaskNotFound? || e.IllegalArgument? || e.TokenError? || e.AccessDenied?
          || e.RateLimitExceeded? || e.IdempotencyConflict?
    ensures Handle(e, description).message == e.message
  {
  }

  /** A body validation failure names every failing field in its message. */
  lemma {:induction false} ValidationMessageNamesFields(errs: seq<FieldError>, i: nat, description: string)
    requires i < |errs|
    ensures Handle(InvalidBody(errs), description).status == 400
    ensures Handle(InvalidBody(errs), description).error == "Validation Error"
    ensures Contains(Handle(InvalidBody(errs), description).message, errs[i].field)
  {
    var parts := seq(|errs|, j requires 0 <= j < |errs| => errs[j].field + ": " + errs[j].message);
    JoinContainsPart(parts, "; ", i);
    ContainsMiddle("", errs[i].field, ": " + errs[i].message);
    assert "" + errs[i].field + (": " + errs[i].message) == parts[i];
    ContainsWithin(Join(parts, "; "), parts[i], errs[i].field);
  }

  /** The path of the usual description `"uri=" + path` is the bare path, provided the
      path itself holds no `"uri="`. */
  lemma {:induction false} PathStripsUriPrefix(path: string)
    requires !Contains(path, "uri=")
    ensures RequestPath("uri=" + path) == path
  {
    assert StartsWith("uri=" + path, "uri=");
    assert ("uri=" + path)[4..] == path;
    RemoveAllAbsent(path, "uri=");
  }

  /** Containment is transitive. */
  lemma {:induction false} ContainsWithin(s: string, mid: string, sub: string)
    requires Contains(s, mid) && Contains(mid, sub)
    ensures Contains(s, sub)
    decreases |s|
  {
    if StartsWith(s, mid) {
      assert s == mid + s[|mid|..];
      ContainsPrefixPart(mid, s[|mid|..], sub);
    } else {
      ContainsWithin(s[1..], mid, sub);
    }
  }

  /** A substring of a prefix is a substring of the whole. */
  lemma {:induction false} ContainsPrefixPart(x: string, y: string, sub: string)
    requires Contains(x, sub)
    ensures Contains(x + y, sub)
    decreases |x|
  {
    if StartsWith(x, sub) {
      assert (x + y)[..|sub|] == x[..|sub|];
    } else {
      assert (x + y)[1..] == x[1..] + y;
      ContainsPrefixPart(x[1..], y, sub);
    }
  }
}
