/**
 * The in-memory database of new-recruitment-api/src/db.ts: a candidates table
 * whose email column is UNIQUE and whose id is an AUTOINCREMENT primary key,
 * and a jobOffers table seeded with four rows. The SQL engine itself is not
 * modelled: the tables are sequences and each statement is the function or
 * method that states its effect.
 */
module Db {
  import opened Wrappers
  import opened Types
  import opened OfferCodec

  datatype JobOffer = JobOffer(id: int, title: string, department: string)

  /** The rows `setupDb` inserts into jobOffers; autoincrement numbers them 1 to 4. */
  const SeedOffers: seq<JobOffer> := [
    JobOffer(1, "Frontend Developer", "IT"),
    JobOffer(2, "Backend Developer", "IT"),
    JobOffer(3, "HR Specialist", "HR"),
    JobOffer(4, "QA Engineer", "Quality Assurance")
  ]

  /** A row of the candidates table; `notes` is the one nullable column, `offers` is text. */
  datatype Row = Row(
    id: int,
    firstName: string,
    lastName: string,
    email: string,
    phone: string,
    experienceYears: int,
    notes: Option<string>,
    status: string,
    consentDate: string,
    offers: string)

  /** A row as the listing returns it: every column, with offers parsed back into a list. */
  datatype Record = Record(
    id: int,
    firstName: string,
    lastName: string,
    email: string,
    phone: string,
    experienceYears: int,
    notes: Option<string>,
    status: string,
    consentDate: string,
    offers: seq<int>)

  /** What `getCandidates` resolves to: the count of all rows and one page of them. */
  datatype Page = Page(total: nat, data: seq<Record>)

  /** The outcome of the INSERT: the new row's id, or the SQLITE_CONSTRAINT error. */
  datatype InsertResult = Inserted(id: int) | ConstraintViolation

  predicate DistinctOfferIds(table: seq<JobOffer>)
  {
    forall i, j :: 0 <= i < j < |table| ==> table[i].id != table[j].id
  }

  function OfferIds(table: seq<JobOffer>): (ids: set<int>)
    ensures forall i :: 0 <= i < |table| ==> table[i].id in ids
    ensures forall x :: x in ids ==> exists i :: 0 <= i < |table| && table[i].id == x
    decreases |table|
  {
    if table == [] then {} else {table[0].id} + OfferIds(table[1..])
  }

  /**
   * `SELECT id FROM jobOffers WHERE id IN (ids)`: each table row whose id is
   * one of `ids`, once, in table order, however often `ids` repeats it.
   */
  function OffersIn(table: seq<JobOffer>, ids: seq<int>): (r: seq<JobOffer>)
    ensures |r| <= |table|
    ensures forall k :: 0 <= k < |r| ==> r[k] in table && r[k].id in ids
    decreases |table|
  {
    if table == [] then []
    else if table[0].id in ids then [table[0]] + OffersIn(table[1..], ids)
    else OffersIn(table[1..], ids)
  }

  predicate Distinct(xs: seq<int>)
  {
    forall i, j :: 0 <= i < j < |xs| ==> xs[i] != xs[j]
  }

  function Elems(xs: seq<int>): (s: set<int>)
    ensures forall x :: x in s <==> x in xs
    decreases |xs|
  {
    if xs == [] then {} else {xs[0]} + Elems(xs[1..])
  }

  lemma DistinctCons(xs: seq<int>)
    requires xs != []
    ensures Distinct(xs) <==> xs[0] !in xs[1..] && Distinct(xs[1..])
  {
  }

  /** A list has as many distinct values as entries exactly when no value repeats. */
  lemma {:induction false} ElemsCard(xs: seq<int>)
    ensures |Elems(xs)| <= |xs|
    ensures |Elems(xs)| == |xs| <==> Distinct(xs)
    decreases |xs|
  {
    if xs != [] {
      var rest := xs[1..];
      ElemsCard(rest);
      DistinctCons(xs);
      if xs[0] in rest {
        assert Elems(xs) == Elems(rest);
      } else {
        assert xs[0] !in Elems(rest);
      }
    }
  }

  /** Adding one element to a set and intersecting. */
  lemma InsertIntersect(x: int, r: set<int>, e: set<int>)
    requires x !in r
    ensures x in e ==> |({x} + r) * e| == |r * e| + 1
    ensures x !in e ==> |({x} + r) * e| == |r * e|
  {
    if x in e {
      assert ({x} + r) * e == {x} + r * e;
    } else {
      assert ({x} + r) * e == r * e;
    }
  }

  lemma DistinctOfferIdsTail(table: seq<JobOffer>)
    requires table != [] && DistinctOfferIds(table)
    ensures DistinctOfferIds(table[1..]) && table[0].id !in OfferIds(table[1..])
  {
  }

  /** The query returns one row per listed id that exists: duplicates collapse. */
  lemma {:induction false} OffersInCard(table: seq<JobOffer>, ids: seq<int>)
    requires DistinctOfferIds(table)
    ensures |OffersIn(table, ids)| == |OfferIds(table) * Elems(ids)|
    decreases |table|
  {
    if table == [] {
      assert OfferIds(table) * Elems(ids) == {};
    } else {
      var rest, id := table[1..], table[0].id;
      DistinctOfferIdsTail(table);
      OffersInCard(rest, ids);
      assert OfferIds(table) == {id} + OfferIds(rest);
      InsertIntersect(id, OfferIds(rest), Elems(ids));
    }
  }

  /** Part of a set is as large as the set only when it is all of it. */
  lemma IntersectionCard(s: set<int>, x: set<int>)
    ensures |s * x| <= |x|
    ensures |s * x| == |x| <==> x <= s
  {
    assert x == (s * x) + (x - s);
    assert (s * x) * (x - s) == {};
    assert |x| == |s * x| + |x - s|;
    if |s * x| == |x| {
      assert x - s == {};
      forall e | e in x ensures e in s { assert e !in x - s; }
    }
  }

  /**
   * The controller's existence check compares the number of rows the query
   * returns with the number of ids submitted; the two agree exactly when every
   * id names a job offer and no id is listed twice.
   */
  lemma OffersCheck(table: seq<JobOffer>, ids: seq<int>)
    requires DistinctOfferIds(table)
    ensures |OffersIn(table, ids)| == |ids| <==>
      (forall k :: 0 <= k < |ids| ==> ids[k] in OfferIds(table)) && Distinct(ids)
  {
    OffersInCard(table, ids);
    ElemsCard(ids);
    IntersectionCard(OfferIds(table), Elems(ids));
    if forall k :: 0 <= k < |ids| ==> ids[k] in OfferIds(table) {
      assert Elems(ids) <= OfferIds(table);
    }
    if Elems(ids) <= OfferIds(table) {
      forall k | 0 <= k < |ids| ensures ids[k] in OfferIds(table) {
        assert ids[k] in Elems(ids);
      }
    }
  }

  /** Some stored row already has `email`: the UNIQUE constraint refuses a second one. */
  predicate EmailTaken(rows: seq<Row>, email: string)
  {
    exists i :: 0 <= i < |rows| && rows[i].email == email
  }

  /** After one more row, an email is taken exactly when it was, or the new row carries it. */
  lemma EmailTakenAfterInsert(rows: seq<Row>, row: Row, email: string)
    ensures EmailTaken(rows + [row], email) <==> EmailTaken(rows, email) || row.email == email
  {
    var rows' := rows + [row];
    if EmailTaken(rows', email) {
      var i :| 0 <= i < |rows'| && rows'[i].email == email;
      if i < |rows| { assert rows[i].email == email; }
    }
    if EmailTaken(rows, email) {
      var i :| 0 <= i < |rows| && rows[i].email == email;
      assert rows'[i].email == email;
    }
    if row.email == email {
      assert rows'[|rows|].email == email;
    }
  }

  /** The columns `addCandidate` writes: `notes || null`, and `JSON.stringify(offers)`. */
  function StoredRow(id: int, c: Candidate): (r: Row)
    ensures r.id == id && r.email == c.email
    ensures r.notes.None? <==> c.notes.None? || c.notes == Some("")
    ensures r.notes.Some? ==> r.notes == c.notes
    ensures DecodeOffers(r.offers) == Some(c.offers)
  {
    DecodeEncodeOffers(c.offers);
    Row(id, c.firstName, c.lastName, c.email, c.phone, c.experienceYears,
        if c.notes == Some("") then None else c.notes,
        c.status, c.consentDate, EncodeOffers(c.offers))
  }

  /** `{...c, offers: JSON.parse(c.offers)}`; None stands for the parse throwing. */
  function DecodeRow(row: Row): (r: Option<Record>)
    ensures r.Some? <==> DecodeOffers(row.offers).Some?
    ensures r.Some? ==>
      && r.value.id == row.id && r.value.firstName == row.firstName
      && r.value.lastName == row.lastName && r.value.email == row.email
      && r.value.phone == row.phone && r.value.experienceYears == row.experienceYears
      && r.value.notes == row.notes && r.value.status == row.status
      && r.value.consentDate == row.consentDate && Some(r.value.offers) == DecodeOffers(row.offers)
  {
    match DecodeOffers(row.offers)
    case Some(xs) =>
      Some(Record(row.id, row.firstName, row.lastName, row.email, row.phone,
                  row.experienceYears, row.notes, row.status, row.consentDate, xs))
    case None => None
  }

  /** `data.map(...)` over a page of rows: it throws as soon as one row does not parse. */
  function DecodeRows(rows: seq<Row>): (r: Option<seq<Record>>)
    ensures r.Some? <==> forall i :: 0 <= i < |rows| ==> DecodeRow(rows[i]).Some?
    ensures r.Some? ==> |r.value| == |rows|
    ensures r.Some? ==> forall i :: 0 <= i < |rows| ==> DecodeRow(rows[i]) == Some(r.value[i])
    decreases |rows|
  {
    if rows == [] then Some([])
    else
      match (DecodeRow(rows[0]), DecodeRows(rows[1..]))
      case (Some(x), Some(xs)) => Some([x] + xs)
      case (None, _) => None
      case (_, None) => None
  }

  /**
   * `LIMIT limit OFFSET offset` over the table in storage order. SQLite reads
   * a negative LIMIT as "no bound" and a negative OFFSET as zero.
   */
  function Window(rows: seq<Row>, limit: int, offset: int): (w: seq<Row>)
    ensures offset >= 0 && limit >= 0 ==>
      |w| == Min(limit, Max(0, |rows| - offset)) &&
      forall k :: 0 <= k < |w| ==> w[k] == rows[offset + k]
    ensures offset < 0 && limit >= 0 ==> w == rows[..Min(limit, |rows|)]
    ensures limit < 0 ==> w == rows[Min(Max(offset, 0), |rows|)..]
    ensures forall k :: 0 <= k < |w| ==> w[k] in rows
  {
    var start := Max(offset, 0);
    if start >= |rows| then []
    else if limit < 0 || start + limit >= |rows| then rows[start..]
    else rows[start..start + limit]
  }

  class Store {
    const jobOffers: seq<JobOffer>
    var candidates: seq<Row>
    var nextId: int

    /**
     * What the schema guarantees of the tables: emails are unique, ids are
     * positive, strictly increasing in insertion order and below the next id
     * autoincrement hands out, and every offers column holds a stored list.
     */
    ghost predicate Valid()
      reads this
    {
      && DistinctOfferIds(jobOffers)
      && nextId >= 1
      && (forall i, j :: 0 <= i < j < |candidates| ==> candidates[i].email != candidates[j].email)
      && (forall i, j :: 0 <= i < j < |candidates| ==> candidates[i].id < candidates[j].id)
      && (forall i :: 0 <= i < |candidates| ==> 1 <= candidates[i].id < nextId)
      && (forall row :: row in candidates ==> DecodeOffers(row.offers).Some?)
    }

    /** `setupDb`: both tables created, jobOffers seeded, no candidates yet. */
    constructor Setup()
      ensures Valid()
      ensures jobOffers == SeedOffers && OfferIds(jobOffers) == {1, 2, 3, 4}
      ensures candidates == [] && nextId == 1
    {
      jobOffers := SeedOffers;
      candidates := [];
      nextId := 1;
      assert OfferIds(SeedOffers[3..]) == {4};
      assert OfferIds(SeedOffers[2..]) == {3, 4};
      assert OfferIds(SeedOffers[1..]) == {2, 3, 4};
    }

    /**
     * `addCandidate`, and the identical INSERT in the controller: no check of
     * its own, so the only way it fails is the UNIQUE constraint on email, and
     * then the table is as it was.
     */
    method AddCandidate(c: Candidate) returns (r: InsertResult)
      requires Valid()
      modifies this
      ensures Valid()
      ensures r.Inserted? <==> !EmailTaken(old(candidates), c.email)
      ensures r.Inserted? ==>
        r.id == old(nextId) && nextId == old(nextId) + 1 &&
        candidates == old(candidates) + [StoredRow(r.id, c)]
      ensures r.ConstraintViolation? ==> candidates == old(candidates) && nextId == old(nextId)
    {
      if EmailTaken(candidates, c.email) {
        return ConstraintViolation;
      }
      var row := StoredRow(nextId, c);
      candidates := candidates + [row];
      r := Inserted(nextId);
      nextId := nextId + 1;
    }

    /**
     * `getCandidates(page, limit)`: the rows at offset (page-1)*limit, at most
     * `limit` of them, each with its offers parsed, and the count of all rows.
     */
    function GetCandidates(page: int, limit: int): (r: Option<Page>)
      reads this
      ensures Valid() ==> r.Some?
      ensures r.Some? ==> r.value.total == |candidates|
      ensures r.Some? && page >= 1 && limit >= 1 ==>
        var offset := PageOffset(page, limit);
        |r.value.data| == Min(limit, Max(0, |candidates| - offset)) &&
        forall k :: 0 <= k < |r.value.data| ==>
          DecodeRow(candidates[offset + k]) == Some(r.value.data[k])
    {
      var offset := PageOffset(page, limit);
      var rows := Window(candidates, limit, offset);
      match DecodeRows(rows)
      case Some(data) => Some(Page(|candidates|, data))
      case None => None
    }
  }

  /** `offset = (page - 1) * limit`: the number of rows on the pages before `page`. */
  function PageOffset(page: int, limit: int): (offset: int)
    ensures page >= 1 && limit >= 1 ==> 0 <= offset
  {
    (page - 1) * limit
  }
}
