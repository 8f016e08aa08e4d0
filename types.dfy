/**
 * The candidate record of new-recruitment-api/src/types.ts, and the shape of
 * the JSON body the create endpoint receives, in which any property may be
 * missing.
 */
module Types {
  import opened Wrappers

  /**
   * A candidate as `addCandidate` receives it. `status` is declared as a union
   * of four literals in the source but nothing enforces it, so it is free text.
   */
  datatype Candidate = Candidate(
    firstName: string,
    lastName: string,
    email: string,
    phone: string,
    experienceYears: int,
    notes: Option<string>,
    status: string,
    consentDate: string,
    offers: seq<int>)

  /**
   * The request body of POST /candidates: the same properties, each of which
   * may be absent (or JSON null, which the controller treats the same way).
   */
  datatype Body = Body(
    firstName: Option<string>,
    lastName: Option<string>,
    email: Option<string>,
    phone: Option<string>,
    experienceYears: Option<int>,
    notes: Option<string>,
    status: Option<string>,
    consentDate: Option<string>,
    offers: Option<seq<int>>)
}
