/**
  The bearer-token gate in front of every endpoint except the health check.
  The credentials are what the bearer scheme extracted from the
  Authorization header, or none when the header was missing.
*/
module Security {
  import opened Wrappers
  import opened PyStr

  /** The scheme and the credentials of an Authorization header. */
  datatype Credentials = Credentials(scheme: string, credentials: string)

  /** The gate lets the request through, or answers it with an HTTP error. */
  datatype AuthOutcome = Allowed | Rejected(status: int, detail: string)

  const Unauthorized := 401
  const MissingOrInvalid := "Missing or invalid bearer token"
  const Invalid := "Invalid bearer token"

  /** The credentials use the bearer scheme, in any letter case. */
  predicate IsBearer(creds: Credentials) {
    Lower(creds.scheme) == "bearer"
  }

  /**
    With no token configured (none, or the empty string) every request
    passes. Otherwise a request passes exactly when it carries bearer
    credentials equal to the token; a missing or non-bearer header and a
    wrong token are both 401, with different details.
  */
  function Authorize(token: Option<string>, creds: Option<Credentials>): (r: AuthOutcome)
    ensures r == Allowed <==>
      !Truthy(token) || (creds.Some? && IsBearer(creds.value) && creds.value.credentials == token.value)
    ensures r.Rejected? ==> r.status == Unauthorized
    ensures r.Rejected? ==>
      (r.detail == MissingOrInvalid <==> creds.None? || !IsBearer(creds.value))
    ensures r.Rejected? ==>
      (r.detail == Invalid <==> creds.Some? && IsBearer(creds.value) && creds.value.credentials != token.value)
  {
    if !Truthy(token) then Allowed
    else if creds.None? || Lower(creds.value.scheme) != "bearer" then
      Rejected(Unauthorized, MissingOrInvalid)
    else if creds.value.credentials != token.value then
      Rejected(Unauthorized, Invalid)
    else Allowed
  }

  /** The scheme is compared without regard to case: lower-casing it first
      changes nothing. */
  lemma SchemeCaseInsensitive(token: Option<string>, scheme: string, credentials: string)
    ensures Authorize(token, Some(Credentials(Lower(scheme), credentials))) ==
            Authorize(token, Some(Credentials(scheme, credentials)))
  {
    LowerIdempotent(scheme);
  }

  /** A header with another scheme is treated exactly like a missing header. */
  lemma OtherSchemeIsMissing(token: Option<string>, creds: Credentials)
    requires !IsBearer(creds)
    ensures Authorize(token, Some(creds)) == Authorize(token, None)
  {
  }
}
