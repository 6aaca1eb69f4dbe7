# OAuth 2.0 error-code registry

A Dafny model of scribejava's `OAuth2Error` enum. It is the closed set of
error codes that an OAuth 2.0 authorization server or resource server puts
in the `error` field of an error response. Each of the sixteen values is
bound to one constant wire token, such as `invalid_request` or `slow_down`.
The tokens come from sections 4.1.2.1, 4.2.2.1 and 5.2 of RFC 6749,
section 6.2 of RFC 6750, section 4.1 of RFC 7009 and section 3.5 of RFC 8628.

The model has two files:

- `wrappers.dfy`: the `Result` type. A `Failure` stands in for the
  exception that the lookup throws.
- `oauth2_error.dfy`: module `OAuth2Errors`. It holds the sixteen-constructor
  datatype `OAuth2Error` and the accessor `ErrorString` (`getErrorString`).
  It also holds the shared collection `Values` (`VALUES`). `Find` states
  what the scanning loop of `parseFrom` computes, and the method `Scan` is
  that loop, proved to compute `Find`. `ParseFrom` is the scan over `Values`.
  The lemmas state what the lookup promises.

The predicate `IsWireToken` gives the shape every token has: non-empty, with
only lower-case ASCII letters and underscores.

## Model

| member | source | states |
|---|---|---|
| `OAuth2Errors.ErrorString` | scribejava-core/src/main/java/com/github/scribejava/core/oauth2/OAuth2Error.java:99-116 | the token bound to each of the sixteen values, as declared at lines 16-90 and returned by `getErrorString`; its shape and its one-to-one property are stated by `ErrorStringIsWireToken` and `ErrorStringInjective`, and `ParseFromErrorString` makes `ParseFrom` its inverse |
| `OAuth2Errors.ErrorStringIsWireToken` | scribejava-core/src/main/java/com/github/scribejava/core/oauth2/OAuth2Error.java:16-90 | every value's token is non-empty and made only of lower-case ASCII letters and underscores |
| `OAuth2Errors.ErrorStringInjective` | scribejava-core/src/main/java/com/github/scribejava/core/oauth2/OAuth2Error.java:16-90 | no two values share a token, so the value-to-token map is one-to-one |
| `OAuth2Errors.ValuesHoldsEachValueOnce` | scribejava-core/src/main/java/com/github/scribejava/core/oauth2/OAuth2Error.java:97 | the shared collection holds every value, holds none twice, and so has sixteen elements |
| `OAuth2Errors.Find` | scribejava-core/src/main/java/com/github/scribejava/core/oauth2/OAuth2Error.java:106-111 | the scan returns a scanned value whose token equals the input, and it is the first such value in scan order; it fails exactly when no scanned value has that token; a failure carries the input unchanged |
| `OAuth2Errors.Scan` | scribejava-core/src/main/java/com/github/scribejava/core/oauth2/OAuth2Error.java:106-111 | the for-loop with early return computes exactly `Find`: it returns the first value whose token equals the input, or fails with the input after checking every value |
| `OAuth2Errors.ParseFrom` | scribejava-core/src/main/java/com/github/scribejava/core/oauth2/OAuth2Error.java:105-112 | a success returns a value whose token is the input (round trip from a string); the lookup fails exactly when no value's token equals the input; the failure carries the input unchanged |
| `OAuth2Errors.ParseFromErrorString` | scribejava-core/src/main/java/com/github/scribejava/core/oauth2/OAuth2Error.java:105-116 | round trip from a value: looking up a value's token succeeds and returns that same value |
| `OAuth2Errors.ParseFromRejectsNonWireTokens` | scribejava-core/src/main/java/com/github/scribejava/core/oauth2/OAuth2Error.java:107-111 | matching is exact, with no case folding or trimming: an input that is empty or holds any character other than a lower-case letter or underscore fails, carrying the input |
| `OAuth2Errors.ParseFromIgnoresScanOrder` | scribejava-core/src/main/java/com/github/scribejava/core/oauth2/OAuth2Error.java:106-110 | scanning any sequence that holds every value, in any order, gives the same result as the lookup, so the iteration order of the set cannot change the outcome |
| `OAuth2Errors.ParseFromKnownExamples` | scribejava-core/src/main/java/com/github/scribejava/core/oauth2/OAuth2Error.java:105-110 | `invalid_grant`, `slow_down`, `unsupported_token_type` and `authorization_pending` resolve to their values |
| `OAuth2Errors.ParseFromUnknownExamples` | scribejava-core/src/main/java/com/github/scribejava/core/oauth2/OAuth2Error.java:105-111 | `AUTHORIZATION_PENDING`, `Invalid_Request` and the empty string are rejected, each carrying itself as the payload |
| `OAuth2Errors.ParseFromUnregisteredExample` | scribejava-core/src/main/java/com/github/scribejava/core/oauth2/OAuth2Error.java:106-111 | the well-formed but unknown code `not_a_real_error` is rejected, carrying itself as the payload |

## Left out

- The identity promise of `VALUES`: the source returns the same unmodifiable object on every access. This is about the Java heap and has no effect on behaviour, so `Values` is a constant sequence.
- The iteration order of `EnumSet`: `Values` lists the values in declaration order. `ParseFromIgnoresScanOrder` shows that any other order gives the same result.
- The exception class (`IllegalArgumentException`) and the wording of its message: a miss is `Failure(s)`, and `s` is the offending input.
- A `null` argument: Dafny strings are never null. In the source, `null` equals no token, so it fails like any other unknown input.
- The RFC links in the documentation comments: they are not behaviour.
- The code that consumes these values (HTTP response handling, token flows) is not part of this model.
