/**
 * The link service of server.js: request validation for create
 * (lines 85-95), and the five handlers over the `links` table, which a
 * `LinkTable` object holds and the handlers change in place.
 */
module Server {
  import opened Wrappers
  import opened ShortCode
  import opened Links

  /** JavaScript truthiness of a string that may be absent: `undefined` and "" are false. */
  predicate Truthy(v: Option<string>) {
    v.Some? && v.value != ""
  }

  /** A create request that passed validation: the URL and the code to insert. */
  datatype Accepted = Accepted(url: string, code: string)

  /**
   * The checks create makes before it touches the table. `isValidUrl` is
   * whatever the `URL` constructor accepts; `picks` are the generator's
   * random draws, used only when no custom code is given.
   */
  function Validate(originalUrl: Option<string>, customCode: Option<string>,
                    isValidUrl: string -> bool, picks: seq<nat>): (r: Result<Accepted, Response>)
    requires ValidPicks(picks)
    // a bad URL wins over everything else
    ensures r == Err(InvalidUrl) <==> !Truthy(originalUrl) || !isValidUrl(originalUrl.value)
    // a bad custom code is reported only for a good URL
    ensures r == Err(InvalidCode) <==>
      Truthy(originalUrl) && isValidUrl(originalUrl.value) &&
      Truthy(customCode) && !MatchesCodePattern(customCode.value)
    ensures r.Err? ==> r.error == InvalidUrl || r.error == InvalidCode
    ensures r.Ok? ==> originalUrl == Some(r.value.url) && isValidUrl(r.value.url)
    // whatever code is chosen matches the custom-code pattern
    ensures r.Ok? ==> MatchesCodePattern(r.value.code)
    ensures r.Ok? && Truthy(customCode) ==> r.value.code == customCode.value
    // an absent or empty custom code falls back to a generated one
    ensures r.Ok? && !Truthy(customCode) ==> r.value.code == CodeFor(picks)
  {
    if !Truthy(originalUrl) || !isValidUrl(originalUrl.value) then Err(InvalidUrl)
    else if Truthy(customCode) && !MatchesCodePattern(customCode.value) then Err(InvalidCode)
    else if Truthy(customCode) then Ok(Accepted(originalUrl.value, customCode.value))
    else
      GeneratedCodeMatchesPattern(picks);
      Ok(Accepted(originalUrl.value, CodeFor(picks)))
  }

  /** A code of the required form can be bound as a query parameter. */
  lemma PatternCodeIsStorable(code: string)
    requires MatchesCodePattern(code)
    ensures Storable(code)
  {
  }

  /** What every stored row satisfies, given the id sequence and the clock. */
  predicate WellFormedRow(l: Link, nextId: nat, clock: Time) {
    && 1 <= l.id < nextId
    && MatchesCodePattern(l.shortCode)
    && Storable(l.originalUrl)
    && l.clicks <= MaxInt
    && l.createdAt <= l.updatedAt <= clock
    && (l.lastClicked.Some? ==> l.createdAt <= l.lastClicked.value <= clock)
  }

  /**
   * The state the handlers keep: codes unique, ids increasing and below the
   * next sequence value, rows in creation order, every row well formed.
   */
  predicate TableInvariant(rows: seq<Link>, nextId: nat, clock: Time) {
    && 1 <= nextId <= MaxInt + 1
    && UniqueCodes(rows)
    && CreatedInOrder(rows)
    && (forall i, j :: 0 <= i < j < |rows| ==> rows[i].id < rows[j].id)
    && (forall i :: 0 <= i < |rows| ==> WellFormedRow(rows[i], nextId, clock))
  }

  /** Removing one row keeps the invariant. */
  lemma RemovalKeepsInvariant(rows: seq<Link>, nextId: nat, clock: Time, i: nat)
    requires TableInvariant(rows, nextId, clock)
    requires i < |rows|
    ensures TableInvariant(rows[..i] + rows[i + 1..], nextId, clock)
  {
    var r := rows[..i] + rows[i + 1..];
    assert forall k :: 0 <= k < |r| ==> r[k] == rows[if k < i then k else k + 1];
  }

  /** Counting a click on a row whose counter is below the INT bound keeps the invariant. */
  lemma ClickKeepsInvariant(rows: seq<Link>, nextId: nat, clock: Time, i: nat, now: Time)
    requires TableInvariant(rows, nextId, clock)
    requires i < |rows| && rows[i].clicks < MaxInt && clock <= now
    ensures TableInvariant(rows[i := Clicked(rows[i], now)], nextId, now)
  {
    var r := rows[i := Clicked(rows[i], now)];
    assert forall k :: 0 <= k < |r| ==>
      r[k].shortCode == rows[k].shortCode && r[k].id == rows[k].id && r[k].createdAt == rows[k].createdAt;
    forall k | 0 <= k < |r|
      ensures WellFormedRow(r[k], nextId, now)
    {
      assert WellFormedRow(rows[k], nextId, clock);
    }
  }

  /** A code holding U+0000 matches no stored row. */
  lemma NoRowHasUnstorableCode(rows: seq<Link>, nextId: nat, clock: Time, code: string)
    requires TableInvariant(rows, nextId, clock)
    requires !Storable(code)
    ensures !HasCode(rows, code) && Position(rows, code) == None
  {
    if HasCode(rows, code) {
      var i :| 0 <= i < |rows| && rows[i].shortCode == code;
      assert WellFormedRow(rows[i], nextId, clock);
      PatternCodeIsStorable(code);
    }
  }

  class LinkTable {
    /** The rows, in insertion order. */
    var rows: seq<Link>
    /** The next value of the SERIAL sequence behind `id`. */
    var nextId: nat
    /** The latest `NOW()` the table has recorded. */
    var clock: Time

    ghost predicate Valid()
      reads this
    {
      TableInvariant(rows, nextId, clock)
    }

    /** A freshly created, empty table. */
    constructor (start: Time)
      ensures Valid()
      ensures rows == [] && nextId == 1 && clock == start
    {
      rows := [];
      nextId := 1;
      clock := start;
    }

    /** `POST /api/links`. */
    method Create(originalUrl: Option<string>, customCode: Option<string>,
                  isValidUrl: string -> bool, picks: seq<nat>, now: Time) returns (resp: Response)
      requires Valid() && clock <= now && ValidPicks(picks)
      modifies this
      ensures Valid()
      ensures resp.status == 201 || unchanged(this)
      ensures match Validate(originalUrl, customCode, isValidUrl, picks)
        case Err(rejection) => resp == rejection
        case Ok(req) =>
          if HasCode(old(rows), req.code) then resp == CodeTaken
          else if !Storable(req.url) || old(nextId) > MaxInt then resp == InternalError
          else
            var l := NewRow(old(nextId), req.code, req.url, now);
            && resp == Response(201, LinkBody(l))
            && rows == old(rows) + [l]
            && nextId == old(nextId) + 1
            && clock == now
    {
      if !Truthy(originalUrl) || !isValidUrl(originalUrl.value) {
        return InvalidUrl;
      }
      var shortCode: string;
      if Truthy(customCode) {
        shortCode := customCode.value;
      } else {
        shortCode := GenerateShortCode(picks);
        GeneratedCodeMatchesPattern(picks);
      }
      if Truthy(customCode) && !MatchesCodePattern(customCode.value) {
        return InvalidCode;
      }
      var existing := FindIndex(rows, shortCode);
      if existing != -1 {
        return CodeTaken;
      }
      if !Storable(originalUrl.value) {
        // the INSERT cannot bind a URL holding U+0000
        return InternalError;
      }
      if nextId > MaxInt {
        // the SERIAL sequence is exhausted: the INSERT fails
        return InternalError;
      }
      var l := NewRow(nextId, shortCode, originalUrl.value, now);
      rows := rows + [l];
      nextId := nextId + 1;
      clock := now;
      resp := Response(201, LinkBody(l));
    }

    /** `GET /api/links`. */
    method List() returns (resp: Response)
      requires Valid()
      ensures resp.status == 200 && resp.body.LinksBody?
      ensures SortedNewestFirst(resp.body.links)
      ensures multiset(resp.body.links) == multiset(Project(rows))
    {
      ListIsNewestFirst(rows);
      ListIsPermutation(rows);
      resp := Response(200, LinksBody(NewestFirst(rows)));
    }

    /** `GET /api/links/:code`. */
    method Get(code: string) returns (resp: Response)
      requires Valid()
      ensures !Storable(code) ==> resp == InternalError
      ensures Storable(code) && !HasCode(rows, code) ==> resp == NotFound
      ensures forall i :: 0 <= i < |rows| && rows[i].shortCode == code ==>
                resp == Response(200, LinkBody(rows[i]))
    {
      if !Storable(code) {
        // the SELECT cannot bind a code holding U+0000
        NoRowHasUnstorableCode(rows, nextId, clock, code);
        return InternalError;
      }
      var i := FindIndex(rows, code);
      if i == -1 {
        return NotFound;
      }
      forall j | 0 <= j < |rows| && rows[j].shortCode == code
        ensures j == i
      {
        PositionUnique(rows, code, j);
      }
      resp := Response(200, LinkBody(rows[i]));
    }

    /** `DELETE /api/links/:code`. */
    method Delete(code: string) returns (resp: Response)
      requires Valid()
      modifies this
      ensures Valid()
      ensures rows == WithoutCode(old(rows), code)
      ensures !HasCode(rows, code)
      ensures nextId == old(nextId) && clock == old(clock)
      ensures match Position(old(rows), code)
        case None => resp == (if Storable(code) then NotFound else InternalError) && rows == old(rows)
        case Some(i) => resp == Deleted && rows == old(rows)[..i] + old(rows)[i + 1..]
    {
      if !Storable(code) {
        // the DELETE cannot bind a code holding U+0000
        NoRowHasUnstorableCode(rows, nextId, clock, code);
        WithoutAbsentCode(rows, code);
        return InternalError;
      }
      var before := rows;
      match Position(rows, code) {
        case None =>
          WithoutAbsentCode(rows, code);
        case Some(i) =>
          WithoutCodeRemovesOne(rows, i);
          RemovalKeepsInvariant(rows, nextId, clock, i);
      }
      rows := WithoutCode(rows, code);
      if |rows| == |before| {
        return NotFound;
      }
      resp := Deleted;
    }

    /** `GET /:code`: count the click and redirect. */
    method Redirect(code: string, now: Time) returns (resp: Response)
      requires Valid() && clock <= now
      modifies this
      ensures Valid()
      ensures match Position(old(rows), code)
        case None => resp == (if Storable(code) then NotFound else InternalError) && unchanged(this)
        case Some(i) =>
          if old(rows)[i].clicks == MaxInt then resp == InternalError && unchanged(this)
          else
            && resp == Response(302, RedirectTo(old(rows)[i].originalUrl))
            && rows == old(rows)[i := Clicked(old(rows)[i], now)]
            && nextId == old(nextId)
            && clock == now
      ensures TotalClicks(rows) == TotalClicks(old(rows)) + (if resp.status == 302 then 1 else 0)
    {
      if !Storable(code) {
        // the SELECT cannot bind a code holding U+0000
        NoRowHasUnstorableCode(rows, nextId, clock, code);
        return InternalError;
      }
      var i := FindIndex(rows, code);
      if i == -1 {
        return NotFound;
      }
      var link := rows[i];
      if link.clicks == MaxInt {
        // `clicks + 1` overflows the INT column: the UPDATE fails
        return InternalError;
      }
      TotalClicksUpdate(rows, i, Clicked(link, now));
      ClickKeepsInvariant(rows, nextId, clock, i, now);
      rows := rows[i := Clicked(link, now)];
      clock := now;
      resp := Response(302, RedirectTo(link.originalUrl));
    }
  }

  /** A delete followed by a lookup and a redirect on the same code: both find nothing. */
  method DeleteThenLookup(table: LinkTable, code: string, now: Time)
      returns (deleted: Response, fetched: Response, redirected: Response)
    requires table.Valid() && table.clock <= now
    modifies table
    ensures table.Valid()
    ensures deleted == (if HasCode(old(table.rows), code) then Deleted
                        else if Storable(code) then NotFound else InternalError)
    ensures fetched == redirected == (if Storable(code) then NotFound else InternalError)
    ensures table.rows == WithoutCode(old(table.rows), code)
  {
    deleted := table.Delete(code);
    fetched := table.Get(code);
    redirected := table.Redirect(code, now);
  }

  /**
   * Create a link with custom code "ABC123", follow it once, read it back:
   * 201 with zero clicks, then 302 to the URL, then one click recorded.
   */
  method ExampleScenario(isValidUrl: string -> bool, picks: seq<nat>)
      returns (created: Response, redirected: Response, fetched: Response)
    requires isValidUrl("https://example.com") && ValidPicks(picks)
    ensures created.status == 201 && created.body.LinkBody?
    ensures created.body.link.shortCode == "ABC123" && created.body.link.clicks == 0
    ensures redirected == Response(302, RedirectTo("https://example.com"))
    ensures fetched.status == 200 && fetched.body.LinkBody? && fetched.body.link.clicks == 1
    ensures fetched.body.link.lastClicked.Some?
    ensures fetched.body.link.lastClicked.value >= created.body.link.createdAt
  {
    assert Storable("https://example.com") && Storable("ABC123");
    var table := new LinkTable(0);
    created := table.Create(Some("https://example.com"), Some("ABC123"), isValidUrl, picks, 1);
    redirected := table.Redirect("ABC123", 2);
    fetched := table.Get("ABC123");
  }
}
