/** The adapter's module state, `_cases` and `_token`, as one object, with
    the operations that update it in place. */
module Adapter {
  import opened Wrappers
  import opened Cases
  import opened Listing
  import opened TokenCache

  class CrmAdapter {
    /** `_cases`, in insertion order. */
    var cases: seq<CrmCase>
    /** `_token`; `None` is `null`. */
    var token: Option<AuthToken>

    /** Every stored case came out of `buildCrmCase`, so all of them are
        well formed. */
    ghost predicate Valid()
      reads this
    {
      AllWellFormed(cases)
    }

    /** The state at load time: no cases, no token. */
    constructor ()
      ensures Valid()
      ensures cases == [] && token == None
    {
      cases := [];
      token := None;
    }

    /** `createCase`: build the case and append it; a rejected input leaves
        the store as it was. */
    method CreateCase(input: CaseInput, randomPart: string, createdAt: string) returns (r: Result<CrmCase, ValidationError>)
      requires Valid()
      modifies this
      ensures Valid()
      ensures r == BuildCrmCase(input, randomPart, createdAt)
      ensures r.Success? ==> cases == old(cases) + [r.value]
      ensures r.Failure? ==> cases == old(cases)
      ensures token == old(token)
    {
      r := BuildCrmCase(input, randomPart, createdAt);
      if r.Success? {
        BuiltCaseIsWellFormed(input, randomPart, createdAt);
        AppendWellFormed(cases, r.value);
        cases := cases + [r.value];
      }
    }

    /** `listCases`: it only reads the store. Every listed case is a stored
        one, so it is well formed. */
    function ListCases(params: ListParams): (res: CasePage)
      reads this
      ensures res.total <= |cases|
      ensures forall c :: c in res.items ==> c in cases && MatchesFilters(c, params)
      ensures Valid() ==> forall c :: c in res.items ==> WellFormed(c)
    {
      Listing.ListCases(cases, params)
    }

    /** `getAuthToken` at time `now`: the cached value while it is live,
        otherwise a new token that replaces it. */
    method GetAuthToken(now: int, randomPart: string) returns (value: string)
      modifies this
      ensures IsLive(old(token), now) ==> token == old(token)
      ensures !IsLive(old(token), now) ==>
        token == Some(AuthToken("tok_" + randomPart, now + TokenLifetimeMs))
      ensures token == Some(FetchToken(old(token), now, randomPart))
      ensures value == token.value.value
      ensures cases == old(cases)
    {
      if token.Some? && token.value.expiresAt >= now {
        value := token.value.value;
      } else {
        var newTok := AuthToken("tok_" + randomPart, now + TokenLifetimeMs);
        token := Some(newTok);
        value := newTok.value;
      }
    }

    /** `__resetStore`: drop every case and the token. */
    method ResetStore()
      modifies this
      ensures Valid()
      ensures cases == [] && token == None
    {
      cases := [];
      token := None;
    }
  }

  /** A case created on a valid store is listed, at the end of the
      selection, by every query whose filters it passes. */
  lemma CreatedCaseIsListed(stored: seq<CrmCase>, c: CrmCase, params: ListParams)
    requires MatchesFilters(c, params)
    ensures Select(stored + [c], params) == Select(stored, params) + [c]
    ensures Listing.ListCases(stored + [c], params).total == Listing.ListCases(stored, params).total + 1
  {
    SelectAppend(stored, c, params);
  }
}
