/**
 * The `links` table of server.js (schema at lines 39-47) as plain values:
 * the row record, the HTTP responses the handlers send, and the table
 * operations the handlers' SQL statements perform, with their properties.
 */
module Links {
  import opened Wrappers

  /** A reading of the database clock, `NOW()`. */
  type Time = nat

  /** Largest value of a PostgreSQL INT column and of the sequence behind SERIAL. */
  const MaxInt: nat := 0x7fff_ffff

  /** One row of the `links` table, as `SELECT *` returns it. */
  datatype Link = Link(
    id: nat,
    shortCode: string,
    originalUrl: string,
    clicks: nat,
    lastClicked: Option<Time>,
    createdAt: Time,
    updatedAt: Time)

  /** One row as the list endpoint selects it: every column but `updated_at`. */
  datatype ListedLink = ListedLink(
    id: nat,
    shortCode: string,
    originalUrl: string,
    clicks: nat,
    lastClicked: Option<Time>,
    createdAt: Time)

  function Listed(l: Link): ListedLink {
    ListedLink(l.id, l.shortCode, l.originalUrl, l.clicks, l.lastClicked, l.createdAt)
  }

  /** The JSON body (or, for a redirect, the Location) of a response. */
  datatype Body =
    | LinkBody(link: Link)
    | LinksBody(links: seq<ListedLink>)
    | MessageBody(message: string)
    | ErrorBody(error: string)
    | RedirectTo(location: string)

  datatype Response = Response(status: nat, body: Body)

  const InvalidUrlMessage: string := "Invalid URL provided"
  const InvalidCodeMessage: string := "Custom code must be 6-8 alphanumeric characters"
  const CodeTakenMessage: string := "Short code already exists"
  const NotFoundMessage: string := "Link not found"
  const DeletedMessage: string := "Link deleted successfully"
  const InternalErrorMessage: string := "Internal server error"

  const InvalidUrl: Response := Response(400, ErrorBody(InvalidUrlMessage))
  const InvalidCode: Response := Response(400, ErrorBody(InvalidCodeMessage))
  const CodeTaken: Response := Response(409, ErrorBody(CodeTakenMessage))
  const NotFound: Response := Response(404, ErrorBody(NotFoundMessage))
  const Deleted: Response := Response(200, MessageBody(DeletedMessage))
  const InternalError: Response := Response(500, ErrorBody(InternalErrorMessage))

  /** The row `INSERT INTO links (short_code, original_url)` creates, with the column defaults. */
  function NewRow(id: nat, code: string, url: string, now: Time): Link {
    Link(id, code, url, 0, None, now, now)
  }

  /** The row after `SET clicks = clicks + 1, last_clicked = NOW(), updated_at = NOW()`. */
  function Clicked(l: Link, now: Time): Link {
    l.(clicks := l.clicks + 1, lastClicked := Some(now), updatedAt := now)
  }

  /** Some row carries the code. */
  predicate HasCode(rows: seq<Link>, code: string) {
    exists i :: 0 <= i < |rows| && rows[i].shortCode == code
  }

  /** The UNIQUE constraint on `short_code`. */
  predicate UniqueCodes(rows: seq<Link>) {
    forall i, j :: 0 <= i < j < |rows| ==> rows[i].shortCode != rows[j].shortCode
  }

  /**
   * A text PostgreSQL accepts as a query parameter: it holds no U+0000.
   * A query binding a text with that character fails.
   */
  predicate Storable(s: string) {
    '\0' !in s
  }

  /** `WHERE short_code = $1`: the first row carrying the code, if any. */
  function Position(rows: seq<Link>, code: string): (r: Option<nat>)
    ensures r.None? <==> !HasCode(rows, code)
    ensures r.Some? ==> r.value < |rows| && rows[r.value].shortCode == code
    ensures r.Some? ==> forall j :: 0 <= j < r.value ==> rows[j].shortCode != code
  {
    if rows == [] then None
    else if rows[0].shortCode == code then Some(0)
    else
      match Position(rows[1..], code)
      case None =>
        assert forall i :: 0 < i < |rows| ==> rows[i] == rows[1..][i - 1];
        None
      case Some(k) => Some(k + 1)
  }

  /** Under the UNIQUE constraint, the row found is the only one with the code. */
  lemma PositionUnique(rows: seq<Link>, code: string, i: nat)
    requires UniqueCodes(rows)
    requires i < |rows| && rows[i].shortCode == code
    ensures Position(rows, code) == Some(i)
  {
  }

  /** The table scan behind `SELECT * FROM links WHERE short_code = $1`. */
  method FindIndex(rows: seq<Link>, code: string) returns (i: int)
    ensures -1 <= i < |rows|
    ensures i == -1 <==> !HasCode(rows, code)
    ensures 0 <= i ==> rows[i].shortCode == code && Position(rows, code) == Some(i)
  {
    i := 0;
    while i < |rows|
      invariant 0 <= i <= |rows|
      invariant forall j :: 0 <= j < i ==> rows[j].shortCode != code
    {
      if rows[i].shortCode == code {
        return;
      }
      i := i + 1;
    }
    i := -1;
  }

  /** Every row, as the list endpoint selects it, in table order. */
  function Project(rows: seq<Link>): (r: seq<ListedLink>)
    ensures |r| == |rows|
    ensures forall i :: 0 <= i < |rows| ==> r[i] == Listed(rows[i])
  {
    if rows == [] then [] else [Listed(rows[0])] + Project(rows[1..])
  }

  /**
   * The rows, newest first. The table is kept in insertion order, so this is
   * the reversed projection.
   */
  function NewestFirst(rows: seq<Link>): (r: seq<ListedLink>)
    ensures |r| == |rows|
  {
    if rows == [] then [] else NewestFirst(rows[1..]) + [Listed(rows[0])]
  }

  /** `ORDER BY created_at DESC`. */
  predicate SortedNewestFirst(ls: seq<ListedLink>) {
    forall i, j :: 0 <= i < j < |ls| ==> ls[j].createdAt <= ls[i].createdAt
  }

  /** Rows appear in the table in creation order. */
  predicate CreatedInOrder(rows: seq<Link>) {
    forall i, j :: 0 <= i < j < |rows| ==> rows[i].createdAt <= rows[j].createdAt
  }

  /** Position `k` of the listing is the `k`-th row from the end of the table. */
  lemma {:induction false} NewestFirstAt(rows: seq<Link>, k: nat)
    requires k < |rows|
    ensures NewestFirst(rows)[k] == Listed(rows[|rows| - 1 - k])
  {
    if k < |rows| - 1 {
      NewestFirstAt(rows[1..], k);
    }
  }

  /** The listing is ordered by `created_at`, newest first. */
  lemma ListIsNewestFirst(rows: seq<Link>)
    requires CreatedInOrder(rows)
    ensures SortedNewestFirst(NewestFirst(rows))
  {
    var ls := NewestFirst(rows);
    forall i, j | 0 <= i < j < |ls|
      ensures ls[j].createdAt <= ls[i].createdAt
    {
      NewestFirstAt(rows, i);
      NewestFirstAt(rows, j);
    }
  }

  /** The listing holds every row exactly once. */
  lemma {:induction false} ListIsPermutation(rows: seq<Link>)
    ensures multiset(NewestFirst(rows)) == multiset(Project(rows))
  {
    if rows != [] {
      ListIsPermutation(rows[1..]);
      assert Project(rows) == [Listed(rows[0])] + Project(rows[1..]);
    }
  }

  /** A newly inserted row heads the listing, ahead of the old listing unchanged. */
  lemma {:induction false} ListAfterInsert(rows: seq<Link>, l: Link)
    ensures NewestFirst(rows + [l]) == [Listed(l)] + NewestFirst(rows)
  {
    if rows != [] {
      assert (rows + [l])[1..] == rows[1..] + [l];
      ListAfterInsert(rows[1..], l);
    } else {
      assert [] + [l] == [l];
    }
  }

  /** `DELETE FROM links WHERE short_code = $1`: every row carrying the code goes. */
  function WithoutCode(rows: seq<Link>, code: string): (r: seq<Link>)
    ensures !HasCode(r, code)
    ensures |r| <= |rows|
    ensures forall i :: 0 <= i < |r| ==> r[i] in rows
  {
    if rows == [] then []
    else if rows[0].shortCode == code then WithoutCode(rows[1..], code)
    else [rows[0]] + WithoutCode(rows[1..], code)
  }

  /** Deleting a code no row carries leaves the table as it was. */
  lemma {:induction false} WithoutAbsentCode(rows: seq<Link>, code: string)
    requires !HasCode(rows, code)
    ensures WithoutCode(rows, code) == rows
  {
    if rows != [] {
      assert !HasCode(rows[1..], code) by {
        forall i | 0 <= i < |rows[1..]| ensures rows[1..][i].shortCode != code {
          assert rows[1..][i] == rows[i + 1];
        }
      }
      WithoutAbsentCode(rows[1..], code);
    }
  }

  /** Under the UNIQUE constraint, deleting a present code removes exactly its row. */
  lemma {:induction false} WithoutCodeRemovesOne(rows: seq<Link>, i: nat)
    requires UniqueCodes(rows)
    requires i < |rows|
    ensures WithoutCode(rows, rows[i].shortCode) == rows[..i] + rows[i + 1..]
  {
    var code := rows[i].shortCode;
    if i == 0 {
      assert !HasCode(rows[1..], code) by {
        forall j | 0 <= j < |rows[1..]| ensures rows[1..][j].shortCode != code {
          assert rows[1..][j] == rows[j + 1];
        }
      }
      WithoutAbsentCode(rows[1..], code);
    } else {
      assert UniqueCodes(rows[1..]) by {
        forall a, b | 0 <= a < b < |rows[1..]| ensures rows[1..][a].shortCode != rows[1..][b].shortCode {
          assert rows[1..][a] == rows[a + 1] && rows[1..][b] == rows[b + 1];
        }
      }
      assert rows[1..][i - 1] == rows[i];
      WithoutCodeRemovesOne(rows[1..], i - 1);
      assert rows[1..][..i - 1] + rows[1..][i..] == rows[1..i] + rows[i + 1..];
      assert rows[..i] == [rows[0]] + rows[1..i];
    }
  }

  /** The sum of every row's counter. */
  function TotalClicks(rows: seq<Link>): nat {
    if rows == [] then 0 else rows[0].clicks + TotalClicks(rows[1..])
  }

  /** Replacing one row changes the total by exactly the change of its counter. */
  lemma {:induction false} TotalClicksUpdate(rows: seq<Link>, i: nat, l: Link)
    requires i < |rows|
    ensures TotalClicks(rows[i := l]) + rows[i].clicks == TotalClicks(rows) + l.clicks
  {
    if i > 0 {
      assert rows[i := l][1..] == rows[1..][i - 1 := l];
      TotalClicksUpdate(rows[1..], i - 1, l);
    }
  }
}
