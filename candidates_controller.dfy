/**
 * The two handlers of new-recruitment-api/src/candidates.controller.ts:
 * POST /candidates (`create`), a validation pipeline whose checks run in a
 * fixed order before the one write, followed by a best-effort call to the
 * legacy system; and GET /candidates (`getAll`), a paginated listing.
 */
module CandidatesController {
  import opened Wrappers
  import opened Types
  import opened Db

  /** The entries of `requiredFields`, in the order the loop visits them. */
  datatype FieldName =
    | FirstName | LastName | Email | Phone | ExperienceYears | Status | ConsentDate | Offers

  const RequiredFields: seq<FieldName> :=
    [FirstName, LastName, Email, Phone, ExperienceYears, Status, ConsentDate, Offers]

  /** Where `f` stands in `requiredFields`. */
  function Position(f: FieldName): (i: nat)
    ensures i < |RequiredFields| && RequiredFields[i] == f
  {
    match f
    case FirstName => 0
    case LastName => 1
    case Email => 2
    case Phone => 3
    case ExperienceYears => 4
    case Status => 5
    case ConsentDate => 6
    case Offers => 7
  }

  /** The JSON property name the error message reports. */
  function FieldKey(f: FieldName): string
  {
    match f
    case FirstName => "firstName"
    case LastName => "lastName"
    case Email => "email"
    case Phone => "phone"
    case ExperienceYears => "experienceYears"
    case Status => "status"
    case ConsentDate => "consentDate"
    case Offers => "offers"
  }

  predicate NonEmpty(s: Option<string>) { s.Some? && s.value != "" }

  /**
   * JavaScript truthiness of `candidate[field]`: a missing property is falsy,
   * a string is falsy when empty, a number when zero, and an array never,
   * not even when it is empty.
   */
  predicate Truthy(b: Body, f: FieldName)
  {
    match f
    case FirstName => NonEmpty(b.firstName)
    case LastName => NonEmpty(b.lastName)
    case Email => NonEmpty(b.email)
    case Phone => NonEmpty(b.phone)
    case ExperienceYears => b.experienceYears.Some? && b.experienceYears.value != 0
    case Status => NonEmpty(b.status)
    case ConsentDate => NonEmpty(b.consentDate)
    case Offers => b.offers.Some?
  }

  /** The presence loop runs to its end. */
  predicate AllTruthy(b: Body)
  {
    && Truthy(b, FirstName) && Truthy(b, LastName) && Truthy(b, Email) && Truthy(b, Phone)
    && Truthy(b, ExperienceYears) && Truthy(b, Status) && Truthy(b, ConsentDate)
    && Truthy(b, Offers)
  }

  lemma EveryRequiredTruthy(b: Body)
    requires forall k :: 0 <= k < |RequiredFields| ==> Truthy(b, RequiredFields[k])
    ensures AllTruthy(b)
  {
    assert Truthy(b, RequiredFields[0]) && Truthy(b, RequiredFields[1]);
    assert Truthy(b, RequiredFields[2]) && Truthy(b, RequiredFields[3]);
    assert Truthy(b, RequiredFields[4]) && Truthy(b, RequiredFields[5]);
    assert Truthy(b, RequiredFields[6]) && Truthy(b, RequiredFields[7]);
  }

  /** `f` is falsy, and every field the loop visits before it is truthy. */
  predicate IsFirstFalsy(b: Body, f: FieldName)
  {
    !Truthy(b, f) && forall g :: Position(g) < Position(f) ==> Truthy(b, g)
  }

  /** The field the presence loop stops at, scanning from position `from`. */
  function FirstFalsy(b: Body, from: nat): (r: Option<FieldName>)
    requires from <= |RequiredFields|
    ensures r.Some? ==>
      from <= Position(r.value) && !Truthy(b, r.value) &&
      forall g :: from <= Position(g) < Position(r.value) ==> Truthy(b, g)
    ensures r.None? ==> forall g :: from <= Position(g) ==> Truthy(b, g)
    decreases |RequiredFields| - from
  {
    if from == |RequiredFields| then None
    else if !Truthy(b, RequiredFields[from]) then Some(RequiredFields[from])
    else FirstFalsy(b, from + 1)
  }

  /** Every submitted id names a job offer, and none is submitted twice. */
  predicate OffersAccepted(offers: seq<int>, table: seq<JobOffer>)
  {
    (forall k :: 0 <= k < |offers| ==> offers[k] in OfferIds(table)) && Distinct(offers)
  }

  /** The body passes every check that precedes the insert. */
  predicate Accepted(b: Body, table: seq<JobOffer>)
  {
    AllTruthy(b) && b.offers.value != [] && OffersAccepted(b.offers.value, table)
  }

  /** How `create` ends. */
  datatype CreateResult =
    | Created
    | MissingField(field: FieldName)
    | NoOffers
    | UnknownOffer
    | DuplicateEmail

  /**
   * The outcome of `create` for body `b` against the job offers `table` and the
   * candidate rows `rows` present before the call. Whatever the legacy system
   * does plays no part in it.
   */
  function Decide(b: Body, table: seq<JobOffer>, rows: seq<Row>): (r: CreateResult)
    requires DistinctOfferIds(table)
    ensures r.MissingField? <==> !AllTruthy(b)
    ensures r.MissingField? ==> IsFirstFalsy(b, r.field)
    ensures r.NoOffers? <==> AllTruthy(b) && b.offers.value == []
    ensures r.UnknownOffer? <==>
      AllTruthy(b) && b.offers.value != [] && !OffersAccepted(b.offers.value, table)
    ensures r.DuplicateEmail? <==> Accepted(b, table) && EmailTaken(rows, b.email.value)
    ensures r.Created? <==> Accepted(b, table) && !EmailTaken(rows, b.email.value)
  {
    match FirstFalsy(b, 0)
    case Some(f) => MissingField(f)
    case None =>
      assert AllTruthy(b) by {
        assert forall k :: 0 <= k < 8 ==> Truthy(b, RequiredFields[Position(RequiredFields[k])]);
      }
      var offers := b.offers.value;
      if |offers| == 0 then NoOffers
      else
        OffersCheck(table, offers);
        if |OffersIn(table, offers)| != |offers| then UnknownOffer
        else if EmailTaken(rows, b.email.value) then DuplicateEmail
        else Created
  }

  /** The candidate the INSERT writes, from a body whose required fields are truthy. */
  function Admit(b: Body): Candidate
    requires AllTruthy(b)
  {
    Candidate(b.firstName.value, b.lastName.value, b.email.value, b.phone.value,
              b.experienceYears.value, b.notes, b.status.value, b.consentDate.value,
              b.offers.value)
  }

  /** The HTTP status and JSON `message` each outcome is answered with. */
  datatype Response = Response(status: int, message: string)

  function ResponseOf(r: CreateResult): (resp: Response)
    ensures resp.status == 201 <==> r.Created?
    ensures resp.status == 409 <==> r.DuplicateEmail?
    ensures resp.status == 400 <==> r.MissingField? || r.NoOffers? || r.UnknownOffer?
  {
    match r
    case Created => Response(201, "Candidate added successfully")
    case MissingField(f) => Response(400, "Missing required field: " + FieldKey(f))
    case NoOffers => Response(400, "Candidate must have at least one offer")
    case UnknownOffer => Response(400, "One or more job offers do not exist")
    case DuplicateEmail => Response(409, "Candidate with this email already exists")
  }

  /** Distinct outcomes get distinct responses: a client can tell which check failed. */
  lemma ResponsesDiffer(r1: CreateResult, r2: CreateResult)
    requires r1 != r2
    ensures ResponseOf(r1) != ResponseOf(r2)
  {
    var m1, m2 := ResponseOf(r1).message, ResponseOf(r2).message;
    var prefix := "Missing required field: ";
    if r1.MissingField? && r2.MissingField? {
      assert m1[..|prefix|] == prefix && m2[..|prefix|] == prefix;
    } else if ResponseOf(r1).status == ResponseOf(r2).status {
      assert m1[0] != m2[0];
    }
  }

  /** The reduced record sent to the legacy system. */
  datatype Payload = Payload(firstName: string, lastName: string, email: string)

  /** What the legacy endpoint does with the request: answers with some status, or the call throws. */
  datatype FetchOutcome = Responded(status: int) | Threw

  function PayloadOf(c: Candidate): Payload
  {
    Payload(c.firstName, c.lastName, c.email)
  }

  /** `parseInt(param) || fallback`, with None standing for NaN. */
  function OrDefault(parsed: Option<int>, fallback: int): (n: int)
    ensures fallback != 0 ==> n != 0
  {
    if parsed.None? || parsed.value == 0 then fallback else parsed.value
  }

  /** The body of GET /candidates. */
  datatype Listing = Listing(total: nat, page: int, limit: int, data: seq<Record>)

  class Controller {
    const db: Store
    /** Every request made to the legacy endpoint, in order. */
    var legacyRequests: seq<Payload>

    ghost predicate Valid()
      reads this, db
    {
      db.Valid()
    }

    constructor (store: Store)
      requires store.Valid()
      ensures Valid() && db == store && legacyRequests == []
    {
      db := store;
      legacyRequests := [];
    }

    /**
     * One attempt to POST `p` to the legacy endpoint; `threw` says whether the
     * call raised (the catch-all then only logs a warning).
     */
    method PostToLegacy(p: Payload, outcome: FetchOutcome) returns (threw: bool)
      modifies this
      ensures legacyRequests == old(legacyRequests) + [p]
      ensures threw <==> outcome.Threw?
    {
      legacyRequests := legacyRequests + [p];
      threw := outcome.Threw?;
    }

    /**
     * POST /candidates. The checks come first, in the order the handler runs them, and write
     * nothing; the INSERT is the only write, and only after it succeeds is the
     * legacy system called, whose outcome is discarded.
     */
    method Create(body: Body, legacy: FetchOutcome) returns (r: CreateResult)
      requires Valid()
      modifies this, db
      ensures Valid()
      ensures r == Decide(body, db.jobOffers, old(db.candidates))
      ensures r.Created? ==>
        db.nextId == old(db.nextId) + 1 &&
        db.candidates == old(db.candidates) + [StoredRow(old(db.nextId), Admit(body))] &&
        legacyRequests == old(legacyRequests) + [PayloadOf(Admit(body))]
      ensures !r.Created? ==>
        db.candidates == old(db.candidates) && db.nextId == old(db.nextId) &&
        legacyRequests == old(legacyRequests)
    {
      for i := 0 to |RequiredFields|
        invariant forall k :: 0 <= k < i ==> Truthy(body, RequiredFields[k])
      {
        if !Truthy(body, RequiredFields[i]) {
          r := MissingField(RequiredFields[i]);
          assert IsFirstFalsy(body, r.field);
          return;
        }
      }
      EveryRequiredTruthy(body);

      if body.offers.None? || |body.offers.value| == 0 {
        return NoOffers;
      }

      var found := OffersIn(db.jobOffers, body.offers.value);
      OffersCheck(db.jobOffers, body.offers.value);
      if |found| != |body.offers.value| {
        return UnknownOffer;
      }

      var candidate := Admit(body);
      var inserted := db.AddCandidate(candidate);
      if inserted.ConstraintViolation? {
        return DuplicateEmail;
      }

      var _ := PostToLegacy(PayloadOf(candidate), legacy);
      r := Created;
    }

    /**
     * GET /candidates?page&limit: page and limit default to 1 and 10, the page
     * of rows comes from `getCandidates`' queries, and `total` counts them all.
     */
    function GetAll(pageParam: Option<int>, limitParam: Option<int>): (r: Option<Listing>)
      reads db
      ensures db.Valid() ==> r.Some?
      ensures r.Some? ==>
        r.value.total == |db.candidates| &&
        r.value.page == OrDefault(pageParam, 1) && r.value.limit == OrDefault(limitParam, 10) &&
        r.value.page != 0 && r.value.limit != 0
      ensures r.Some? && r.value.page >= 1 && r.value.limit >= 1 ==>
        var offset := PageOffset(r.value.page, r.value.limit);
        |r.value.data| == Min(r.value.limit, Max(0, r.value.total - offset)) &&
        forall k :: 0 <= k < |r.value.data| ==>
          DecodeRow(db.candidates[offset + k]) == Some(r.value.data[k])
    {
      var page := OrDefault(pageParam, 1);
      var limit := OrDefault(limitParam, 10);
      match db.GetCandidates(page, limit)
      case Some(p) => Some(Listing(p.total, page, limit, p.data))
      case None => None
    }
  }

  /**
   * Submitting a body that was just created, or any other body that passes
   * validation with the same email, is refused as a duplicate.
   */
  lemma SameEmailIsDuplicate(first: Body, second: Body, table: seq<JobOffer>, rows: seq<Row>, id: int)
    requires DistinctOfferIds(table)
    requires Decide(first, table, rows).Created?
    requires Accepted(second, table) && second.email == first.email
    ensures Decide(second, table, rows + [StoredRow(id, Admit(first))]).DuplicateEmail?
  {
    EmailTakenAfterInsert(rows, StoredRow(id, Admit(first)), second.email.value);
  }

  /**
   * What `create` stores, the listing gives back field for field: the id the
   * insert was given, every submitted column, an empty `notes` as null, and the
   * submitted offers.
   */
  lemma ListedRoundTrip(id: int, b: Body)
    requires AllTruthy(b)
    ensures DecodeRow(StoredRow(id, Admit(b))) ==
      Some(Record(id, b.firstName.value, b.lastName.value, b.email.value, b.phone.value,
                  b.experienceYears.value, if b.notes == Some("") then None else b.notes,
                  b.status.value, b.consentDate.value, b.offers.value))
  {
  }

  /**
   * An empty offers array is truthy, so a body whose other required fields are
   * filled passes the presence loop and is refused by the offers check instead.
   */
  lemma EmptyOffersPassPresence(b: Body, table: seq<JobOffer>, rows: seq<Row>)
    requires DistinctOfferIds(table)
    requires NonEmpty(b.firstName) && NonEmpty(b.lastName) && NonEmpty(b.email) && NonEmpty(b.phone)
    requires b.experienceYears.Some? && b.experienceYears.value != 0
    requires NonEmpty(b.status) && NonEmpty(b.consentDate)
    requires b.offers == Some([])
    ensures FirstFalsy(b, 0).None?
    ensures Decide(b, table, rows) == NoOffers
  {
  }

  /** Zero years of experience is falsy: the body is refused as missing `experienceYears`. */
  lemma ZeroExperienceIsMissing(b: Body, table: seq<JobOffer>, rows: seq<Row>)
    requires DistinctOfferIds(table)
    requires NonEmpty(b.firstName) && NonEmpty(b.lastName) && NonEmpty(b.email) && NonEmpty(b.phone)
    requires b.experienceYears == Some(0)
    ensures Decide(b, table, rows) == MissingField(ExperienceYears)
  {
  }

  /** With one stored candidate, the default first page lists exactly it. */
  lemma FirstPageOfOne(app: Controller, id: int, b: Body)
    requires app.Valid() && AllTruthy(b)
    requires app.db.candidates == [StoredRow(id, Admit(b))]
    ensures var listing := app.GetAll(Some(1), Some(10));
      listing.Some? && listing.value.total == 1 && |listing.value.data| == 1 &&
      listing.value.data[0].offers == b.offers.value
  {
  }

  /**
   * On a fresh store: a candidate with offers [1] is created although the legacy system is unreachable, a
   * second submission with the same email is refused with 409, and the first
   * page lists the one candidate with its offers decoded.
   */
  method IntakeScenario() returns (first: CreateResult, second: CreateResult, listing: Option<Listing>)
    ensures first.Created? && ResponseOf(first).status == 201
    ensures second.DuplicateEmail? && ResponseOf(second).message == "Candidate with this email already exists"
    ensures listing.Some? && listing.value.total == 1 && |listing.value.data| == 1
    ensures listing.value.data[0].offers == [1]
  {
    var store := new Store.Setup();
    var app := new Controller(store);
    var a := Body(Some("Piotr"), Some("Wisniewski"), Some("a@x.com"), Some("111222333"),
                  Some(4), None, Some("nowy"), Some("2025-10-29"), Some([1]));
    assert Accepted(a, store.jobOffers) by {
      assert AllTruthy(a);
      assert 1 in OfferIds(store.jobOffers);
    }
    first := app.Create(a, Threw);
    assert first.Created?;
    assert store.candidates == [StoredRow(1, Admit(a))];
    var b := a.(firstName := Some("Anna"));
    assert Accepted(b, store.jobOffers);
    SameEmailIsDuplicate(a, b, store.jobOffers, [], 1);
    second := app.Create(b, Responded(200));
    assert second.DuplicateEmail?;
    listing := app.GetAll(Some(1), Some(10));
    FirstPageOfOne(app, 1, a);
  }
}
