/**
 * The OAuth 2.0 error-code registry: a closed set of sixteen error values,
 * each bound to the constant token that an authorization or resource server
 * puts in the `error` field of an error response, and the reverse lookup
 * from a received token to its value.
 *
 * Token sources: sections 4.1.2.1, 4.2.2.1 and 5.2 of RFC 6749; section 6.2
 * of RFC 6750; section 4.1 of RFC 7009; section 3.5 of RFC 8628.
 */
module OAuth2Errors {
  import opened Wrappers

  /** The sixteen error values, in declaration (ordinal) order. */
  datatype OAuth2Error =
    | InvalidRequest
    | UnauthorizedClient
    | AccessDenied
    | UnsupportedResponseType
    | InvalidScope
    | ServerError
    | TemporarilyUnavailable
    | InvalidClient
    | InvalidGrant
    | UnsupportedGrantType
    | InvalidToken
    | InsufficientScope
    | UnsupportedTokenType
    | AuthorizationPending
    | SlowDown
    | ExpiredToken

  /** A well-formed wire token: non-empty, only lower-case ASCII letters and underscores. */
  predicate IsWireToken(t: string) {
    |t| > 0 && forall i :: 0 <= i < |t| ==> ('a' <= t[i] <= 'z' || t[i] == '_')
  }

  /** The token bound to each value; the `errorString` field, never updated after construction. */
  function ErrorString(e: OAuth2Error): string
  {
    match e
    case InvalidRequest => "invalid_request"
    case UnauthorizedClient => "unauthorized_client"
    case AccessDenied => "access_denied"
    case UnsupportedResponseType => "unsupported_response_type"
    case InvalidScope => "invalid_scope"
    case ServerError => "server_error"
    case TemporarilyUnavailable => "temporarily_unavailable"
    case InvalidClient => "invalid_client"
    case InvalidGrant => "invalid_grant"
    case UnsupportedGrantType => "unsupported_grant_type"
    case InvalidToken => "invalid_token"
    case InsufficientScope => "insufficient_scope"
    case UnsupportedTokenType => "unsupported_token_type"
    case AuthorizationPending => "authorization_pending"
    case SlowDown => "slow_down"
    case ExpiredToken => "expired_token"
  }

  // The shape of the tokens, proved one standard at a time. The grouping only
  // keeps each proof small; ErrorStringIsWireToken combines the four.

  lemma AuthorizationErrorsAreWireTokens()
    ensures IsWireToken(ErrorString(InvalidRequest)) && IsWireToken(ErrorString(UnauthorizedClient))
    ensures IsWireToken(ErrorString(AccessDenied)) && IsWireToken(ErrorString(UnsupportedResponseType))
    ensures IsWireToken(ErrorString(InvalidScope)) && IsWireToken(ErrorString(ServerError))
    ensures IsWireToken(ErrorString(TemporarilyUnavailable))
  {
  }

  lemma TokenEndpointErrorsAreWireTokens()
    ensures IsWireToken(ErrorString(InvalidClient)) && IsWireToken(ErrorString(InvalidGrant))
    ensures IsWireToken(ErrorString(UnsupportedGrantType))
  {
  }

  lemma ExtensionErrorsAreWireTokens()
    ensures IsWireToken(ErrorString(InvalidToken)) && IsWireToken(ErrorString(InsufficientScope))
    ensures IsWireToken(ErrorString(UnsupportedTokenType))
  {
  }

  lemma DeviceFlowErrorsAreWireTokens()
    ensures IsWireToken(ErrorString(AuthorizationPending)) && IsWireToken(ErrorString(SlowDown))
    ensures IsWireToken(ErrorString(ExpiredToken))
  {
  }

  /** Every token is non-empty and made only of lower-case ASCII letters and underscores. */
  lemma ErrorStringIsWireToken(e: OAuth2Error)
    ensures IsWireToken(ErrorString(e))
  {
    AuthorizationErrorsAreWireTokens();
    TokenEndpointErrorsAreWireTokens();
    ExtensionErrorsAreWireTokens();
    DeviceFlowErrorsAreWireTokens();
  }

  /** The shared collection of all values, iterated in ordinal order as an enum set is. */
  const Values: seq<OAuth2Error> := [
    InvalidRequest, UnauthorizedClient, AccessDenied, UnsupportedResponseType,
    InvalidScope, ServerError, TemporarilyUnavailable, InvalidClient,
    InvalidGrant, UnsupportedGrantType, InvalidToken, InsufficientScope,
    UnsupportedTokenType, AuthorizationPending, SlowDown, ExpiredToken
  ]

  predicate NoDuplicates<T(==)>(s: seq<T>) {
    forall i, j :: 0 <= i < j < |s| ==> s[i] != s[j]
  }

  /** Every value occurs in the shared collection, exactly once, and there are sixteen. */
  lemma ValuesHoldsEachValueOnce()
    ensures |Values| == 16
    ensures NoDuplicates(Values)
    ensures forall e: OAuth2Error :: e in Values
  {
    forall e: OAuth2Error ensures e in Values {
      match e
      case InvalidRequest => assert Values[0] == e;
      case UnauthorizedClient => assert Values[1] == e;
      case AccessDenied => assert Values[2] == e;
      case UnsupportedResponseType => assert Values[3] == e;
      case InvalidScope => assert Values[4] == e;
      case ServerError => assert Values[5] == e;
      case TemporarilyUnavailable => assert Values[6] == e;
      case InvalidClient => assert Values[7] == e;
      case InvalidGrant => assert Values[8] == e;
      case UnsupportedGrantType => assert Values[9] == e;
      case InvalidToken => assert Values[10] == e;
      case InsufficientScope => assert Values[11] == e;
      case UnsupportedTokenType => assert Values[12] == e;
      case AuthorizationPending => assert Values[13] == e;
      case SlowDown => assert Values[14] == e;
      case ExpiredToken => assert Values[15] == e;
    }
  }

  /** No two values share a token. */
  lemma ErrorStringInjective(a: OAuth2Error, b: OAuth2Error)
    ensures ErrorString(a) == ErrorString(b) ==> a == b
  {
  }

  /**
   * The loop of the lookup: scan `vs` front to back and return the first value
   * whose token equals `s`; when none does, fail with `s` itself as the payload.
   */
  function Find(vs: seq<OAuth2Error>, s: string): (r: Result<OAuth2Error, string>)
    ensures r.Success? ==> r.value in vs && ErrorString(r.value) == s
    ensures r.Success? ==> exists k :: 0 <= k < |vs| && vs[k] == r.value &&
                             forall j :: 0 <= j < k ==> ErrorString(vs[j]) != s
    ensures r.Failure? <==> forall v :: v in vs ==> ErrorString(v) != s
    ensures r.Failure? ==> r.error == s
  {
    if vs == [] then Failure(s)
    else if ErrorString(vs[0]) == s then Success(vs[0])
    else Find(vs[1..], s)
  }

  /**
   * Reverse lookup: the value whose token equals `s` exactly (case-sensitive,
   * no trimming); an unknown token is an error that carries `s` unchanged.
   */
  function ParseFrom(s: string): (r: Result<OAuth2Error, string>)
    ensures r.Success? ==> ErrorString(r.value) == s
    ensures r.Failure? <==> forall e: OAuth2Error :: ErrorString(e) != s
    ensures r.Failure? ==> r.error == s
  {
    ValuesHoldsEachValueOnce();
    Find(Values, s)
  }

  /**
   * The for-loop of scribejava's `parseFrom`: walk `vs` and return at the
   * first value whose token equals `s`; after the walk, fail with `s`.
   */
  method Scan(vs: seq<OAuth2Error>, s: string) returns (r: Result<OAuth2Error, string>)
    ensures r == Find(vs, s)
  {
    for i := 0 to |vs|
      invariant forall j :: 0 <= j < i ==> ErrorString(vs[j]) != s
    {
      if ErrorString(vs[i]) == s {
        ErrorStringInjective(Find(vs, s).value, vs[i]);
        return Success(vs[i]);
      }
    }
    return Failure(s);
  }

  /** Round trip from a value: parsing a value's token gives back that value. */
  lemma ParseFromErrorString(e: OAuth2Error)
    ensures ParseFrom(ErrorString(e)) == Success(e)
  {
    var r := ParseFrom(ErrorString(e));
    assert r.Success?;
    ErrorStringInjective(r.value, e);
  }

  /**
   * Matching is exact: any input that is not made only of lower-case letters
   * and underscores (so any input with an upper-case letter or a space, and
   * the empty string) is rejected with that input as the payload.
   */
  lemma ParseFromRejectsNonWireTokens(s: string)
    requires !IsWireToken(s)
    ensures ParseFrom(s) == Failure(s)
  {
    var r := ParseFrom(s);
    if r.Success? {
      ErrorStringIsWireToken(r.value);
      assert false;
    }
  }

  /**
   * The scan order does not matter: scanning any sequence that holds every
   * value, in whatever order and with whatever repetitions, gives the same
   * result as the lookup, because no two values share a token.
   */
  lemma ParseFromIgnoresScanOrder(ws: seq<OAuth2Error>, s: string)
    requires forall e: OAuth2Error :: e in ws
    ensures Find(ws, s) == ParseFrom(s)
  {
    var a, b := Find(ws, s), ParseFrom(s);
    if a.Success? && b.Success? {
      ErrorStringInjective(a.value, b.value);
    }
  }

  /** Known tokens resolve to their values. */
  lemma ParseFromKnownExamples()
    ensures ParseFrom("invalid_grant") == Success(InvalidGrant)
    ensures ParseFrom("slow_down") == Success(SlowDown)
    ensures ParseFrom("unsupported_token_type") == Success(UnsupportedTokenType)
    ensures ParseFrom("authorization_pending") == Success(AuthorizationPending)
  {
    ParseFromErrorString(InvalidGrant);
    ParseFromErrorString(SlowDown);
    ParseFromErrorString(UnsupportedTokenType);
    ParseFromErrorString(AuthorizationPending);
  }

  /** Wrong case, the empty string and unknown codes are rejected with the input as payload. */
  lemma ParseFromUnknownExamples()
    ensures ParseFrom("AUTHORIZATION_PENDING") == Failure("AUTHORIZATION_PENDING")
    ensures ParseFrom("Invalid_Request") == Failure("Invalid_Request")
    ensures ParseFrom("") == Failure("")
  {
    assert "AUTHORIZATION_PENDING"[0] == 'A';
    ParseFromRejectsNonWireTokens("AUTHORIZATION_PENDING");
    assert "Invalid_Request"[0] == 'I';
    ParseFromRejectsNonWireTokens("Invalid_Request");
    ParseFromRejectsNonWireTokens("");
  }

  /** A well-formed code that no standard used here defines is rejected too. */
  lemma ParseFromUnregisteredExample()
    ensures ParseFrom("not_a_real_error") == Failure("not_a_real_error")
  {
    forall e: OAuth2Error ensures ErrorString(e) != "not_a_real_error" {
    }
  }
}
