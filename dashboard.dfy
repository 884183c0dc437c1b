/**
 * The dashboard's client-side list of links (frontend/src/pages/Dashboard.jsx):
 * the list loaded from `GET /api/links`, and the two callbacks that keep it
 * in step with a create and a delete without fetching it again.
 */
module Dashboard {
  import opened Links

  /**
   * An entry of the `links` state: a row loaded from the list endpoint, or
   * a link the create endpoint returned (which also carries `updated_at`).
   */
  datatype Entry = Fetched(row: ListedLink) | Created(link: Link) {
    function ShortCode(): string {
      match this
      case Fetched(r) => r.shortCode
      case Created(l) => l.shortCode
    }

    /** The entry as the list endpoint would return it. */
    function View(): ListedLink {
      match this
      case Fetched(r) => r
      case Created(l) => Listed(l)
    }
  }

  /** `setLinks(data)` after the list endpoint answered `data`. */
  function Loaded(data: seq<ListedLink>): seq<Entry> {
    seq(|data|, i requires 0 <= i < |data| => Fetched(data[i]))
  }

  /** The entries as the list endpoint would return them. */
  function Views(links: seq<Entry>): seq<ListedLink> {
    seq(|links|, i requires 0 <= i < |links| => links[i].View())
  }

  /** `handleLinkCreated`: the new link goes first, the old list follows unchanged. */
  function LinkCreated(links: seq<Entry>, newLink: Link): (r: seq<Entry>)
    ensures |r| == |links| + 1
    ensures r[0] == Created(newLink) && r[1..] == links
  {
    [Created(newLink)] + links
  }

  /** `handleLinkDeleted`: keep the entries whose code differs. */
  function LinkDeleted(links: seq<Entry>, code: string): (r: seq<Entry>)
    ensures forall i :: 0 <= i < |r| ==> r[i].ShortCode() != code
    ensures forall e {:trigger multiset(r)[e]} ::
      multiset(r)[e] == if e.ShortCode() == code then 0 else multiset(links)[e]
  {
    if links == [] then []
    else
      var rest := LinkDeleted(links[1..], code);
      assert multiset(links) == multiset{links[0]} + multiset(links[1..]) by {
        assert links == [links[0]] + links[1..];
      }
      if links[0].ShortCode() != code then [links[0]] + rest else rest
  }

  /** `a` is `b` with some entries left out, the rest in their original order. */
  predicate IsSubsequence<T(==)>(a: seq<T>, b: seq<T>)
    decreases |b|
  {
    a == [] || (b != [] && ((a[0] == b[0] && IsSubsequence(a[1..], b[1..])) || IsSubsequence(a, b[1..])))
  }

  /** Deleting keeps the surviving entries in their relative order. */
  lemma {:induction false} DeletedIsSubsequence(links: seq<Entry>, code: string)
    ensures IsSubsequence(LinkDeleted(links, code), links)
  {
    if links != [] {
      DeletedIsSubsequence(links[1..], code);
      var r := LinkDeleted(links, code);
      if links[0].ShortCode() != code {
        assert r[0] == links[0] && r[1..] == LinkDeleted(links[1..], code);
      }
    }
  }

  /** Deleting a code no entry carries changes nothing. */
  lemma {:induction false} DeleteAbsentCode(links: seq<Entry>, code: string)
    requires forall i :: 0 <= i < |links| ==> links[i].ShortCode() != code
    ensures LinkDeleted(links, code) == links
  {
    if links != [] {
      DeleteAbsentCode(links[1..], code);
      assert links == [links[0]] + links[1..];
    }
  }

  /** Deleting twice is deleting once. */
  lemma DeleteIdempotent(links: seq<Entry>, code: string)
    ensures LinkDeleted(LinkDeleted(links, code), code) == LinkDeleted(links, code)
  {
    DeleteAbsentCode(LinkDeleted(links, code), code);
  }

  /** Deleting the code of a link just created restores the list it was added to. */
  lemma CreateThenDelete(links: seq<Entry>, newLink: Link)
    requires forall i :: 0 <= i < |links| ==> links[i].ShortCode() != newLink.shortCode
    ensures LinkDeleted(LinkCreated(links, newLink), newLink.shortCode) == links
  {
    var grown := LinkCreated(links, newLink);
    assert grown[1..] == links;
    DeleteAbsentCode(links, newLink.shortCode);
  }

  /** Deleting from a concatenation deletes from each part. */
  lemma {:induction false} DeleteAppend(a: seq<Entry>, b: seq<Entry>, code: string)
    ensures LinkDeleted(a + b, code) == LinkDeleted(a, code) + LinkDeleted(b, code)
  {
    if a != [] {
      assert (a + b)[1..] == a[1..] + b;
      DeleteAppend(a[1..], b, code);
    } else {
      assert a + b == b;
    }
  }

  /**
   * After a create on the server, prepending the returned link to the loaded
   * list gives what a fresh load would show.
   */
  lemma CreateAgreesWithReload(rows: seq<Link>, l: Link)
    ensures Views(LinkCreated(Loaded(NewestFirst(rows)), l)) == NewestFirst(rows + [l])
  {
    ListAfterInsert(rows, l);
    var lhs := Views(LinkCreated(Loaded(NewestFirst(rows)), l));
    var rhs := NewestFirst(rows + [l]);
    assert |lhs| == |rhs|;
    forall k | 0 <= k < |lhs| ensures lhs[k] == rhs[k] {
      if k > 0 {
        assert rhs[k] == NewestFirst(rows)[k - 1];
      }
    }
  }

  /**
   * After a delete on the server, filtering the loaded list gives what a
   * fresh load would show.
   */
  lemma {:induction false} DeleteAgreesWithReload(rows: seq<Link>, code: string)
    ensures LinkDeleted(Loaded(NewestFirst(rows)), code) == Loaded(NewestFirst(WithoutCode(rows, code)))
  {
    if rows != [] {
      DeleteAgreesWithReload(rows[1..], code);
      var older := NewestFirst(rows[1..]);
      var last := Listed(rows[0]);
      assert Loaded(older + [last]) == Loaded(older) + [Fetched(last)];
      DeleteAppend(Loaded(older), [Fetched(last)], code);
      var kept := WithoutCode(rows[1..], code);
      if rows[0].shortCode != code {
        assert WithoutCode(rows, code) == [rows[0]] + kept;
        assert ([rows[0]] + kept)[1..] == kept;
        assert Loaded(NewestFirst(kept) + [last]) == Loaded(NewestFirst(kept)) + [Fetched(last)];
      }
    }
  }
}
