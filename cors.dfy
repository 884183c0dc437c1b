/**
 * The cross-origin policy of server.js (lines 14-28): the allow-list read
 * from the comma-separated ALLOWED_ORIGINS setting, and the `origin`
 * callback that admits or rejects a request's Origin.
 */
module Cors {
  import opened Wrappers

  /** The allow-list used when ALLOWED_ORIGINS is unset or empty. */
  const DefaultOrigins: seq<string> := ["http://localhost:3000"]

  /** The error the callback reports for an origin that is not listed. */
  const NotAllowedMessage: string := "Not allowed by CORS"

  /** What the `origin` callback answers. */
  datatype Decision = Allow | Reject(error: string)

  /**
   * `String.prototype.split` with a one-character separator: the maximal
   * separator-free pieces, in order, empty pieces included.
   */
  function Split(s: string, sep: char): (parts: seq<string>)
    ensures |parts| >= 1
    ensures forall i :: 0 <= i < |parts| ==> sep !in parts[i]
    decreases |s|
  {
    if s == [] then [""]
    else
      var rest := Split(s[1..], sep);
      if s[0] == sep then [""] + rest
      else [[s[0]] + rest[0]] + rest[1..]
  }

  /** `Array.prototype.join`: the pieces with one separator between neighbours. */
  function Join(parts: seq<string>, sep: char): string
    requires |parts| >= 1
  {
    if |parts| == 1 then parts[0] else parts[0] + [sep] + Join(parts[1..], sep)
  }

  /** Joining the pieces of a split gives back the string. */
  lemma {:induction false} JoinSplit(s: string, sep: char)
    ensures Join(Split(s, sep), sep) == s
    decreases |s|
  {
    if s != [] {
      var rest := Split(s[1..], sep);
      JoinSplit(s[1..], sep);
      if s[0] == sep {
        assert ([""] + rest)[1..] == rest;
      } else if |rest| > 1 {
        var parts := [[s[0]] + rest[0]] + rest[1..];
        assert parts[1..] == rest[1..];
        assert s == [s[0]] + s[1..];
      } else {
        assert s == [s[0]] + s[1..];
      }
    }
  }

  /** A string without the separator splits into itself alone. */
  lemma {:induction false} SplitWithoutSeparator(s: string, sep: char)
    requires sep !in s
    ensures Split(s, sep) == [s]
    decreases |s|
  {
    if s != [] {
      SplitWithoutSeparator(s[1..], sep);
      assert s == [s[0]] + s[1..];
    }
  }

  /** Splitting distributes over a separator occurrence. */
  lemma {:induction false} SplitAtSeparator(x: string, y: string, sep: char)
    ensures Split(x + [sep] + y, sep) == Split(x, sep) + Split(y, sep)
    decreases |x|
  {
    if x == [] {
      assert x + [sep] + y == [sep] + y;
      assert ([sep] + y)[1..] == y;
    } else {
      var s := x + [sep] + y;
      assert s[0] == x[0] && s[1..] == x[1..] + [sep] + y;
      SplitAtSeparator(x[1..], y, sep);
    }
  }

  /** Joining two non-empty lists of pieces puts one separator between them. */
  lemma {:induction false} JoinAppend(p: seq<string>, q: seq<string>, sep: char)
    requires |p| >= 1 && |q| >= 1
    ensures Join(p + q, sep) == Join(p, sep) + [sep] + Join(q, sep)
    decreases |p|
  {
    if |p| == 1 {
      assert (p + q)[1..] == q;
    } else {
      assert (p + q)[1..] == p[1..] + q;
      JoinAppend(p[1..], q, sep);
    }
  }

  /** Splitting the join of separator-free pieces gives back the pieces. */
  lemma {:induction false} SplitJoin(parts: seq<string>, sep: char)
    requires |parts| >= 1
    requires forall i :: 0 <= i < |parts| ==> sep !in parts[i]
    ensures Split(Join(parts, sep), sep) == parts
    decreases |parts|
  {
    SplitWithoutSeparator(parts[0], sep);
    if |parts| > 1 {
      SplitJoin(parts[1..], sep);
      SplitAtSeparator(parts[0], Join(parts[1..], sep), sep);
      assert parts == [parts[0]] + parts[1..];
    }
  }

  /**
   * Reference definition of a listed entry: `o` occupies a whole
   * separator-delimited field of `s`, starting at position `i`.
   */
  predicate FieldAt(s: string, o: string, i: int, sep: char) {
    && 0 <= i && i + |o| <= |s|
    && s[i..i + |o|] == o
    && sep !in o
    && (i == 0 || s[i - 1] == sep)
    && (i + |o| == |s| || s[i + |o|] == sep)
  }

  /** A piece of the split is a whole field of the string. */
  lemma PieceIsField(s: string, k: nat, sep: char)
    requires k < |Split(s, sep)|
    ensures exists i :: FieldAt(s, Split(s, sep)[k], i, sep)
  {
    var parts := Split(s, sep);
    var o := parts[k];
    JoinSplit(s, sep);
    var tail: seq<string> := parts[k + 1..];
    var rest := if |tail| == 0 then o else o + [sep] + Join(tail, sep);
    assert Join(parts[k..], sep) == rest by {
      assert parts[k..][1..] == tail;
    }
    assert rest[..|o|] == o;
    assert |tail| > 0 ==> rest[|o|] == sep;
    if k == 0 {
      assert parts[k..] == parts;
      assert FieldAt(s, o, 0, sep);
    } else {
      var front := Join(parts[..k], sep) + [sep];
      assert parts == parts[..k] + parts[k..];
      JoinAppend(parts[..k], parts[k..], sep);
      assert s == front + rest;
      var i := |front|;
      assert s[i..] == rest;
      assert s[i - 1] == sep;
      assert s[i..i + |o|] == rest[..|o|];
      assert FieldAt(s, o, i, sep);
    }
  }

  /** A whole field of the string is one of the pieces of its split. */
  lemma FieldIsPiece(s: string, o: string, i: int, sep: char)
    requires FieldAt(s, o, i, sep)
    ensures o in Split(s, sep)
  {
    var j := i + |o|;
    SplitWithoutSeparator(o, sep);
    var after: seq<string> := [o];
    if j < |s| {
      var b := s[j + 1..];
      assert s[i..] == o + [sep] + b;
      SplitAtSeparator(o, b, sep);
      after := [o] + Split(b, sep);
    } else {
      assert s[i..] == o;
    }
    assert Split(s[i..], sep) == after;
    if i > 0 {
      var a := s[..i - 1];
      assert s == a + [sep] + s[i..];
      SplitAtSeparator(a, s[i..], sep);
      assert Split(s, sep) == Split(a, sep) + after;
    } else {
      assert s == s[i..];
    }
  }

  /** Membership in the split list is exactly "occupies a whole field". */
  lemma ListedIffField(s: string, o: string, sep: char)
    ensures o in Split(s, sep) <==> exists i :: FieldAt(s, o, i, sep)
  {
    var parts := Split(s, sep);
    if o in parts {
      var k :| 0 <= k < |parts| && parts[k] == o;
      PieceIsField(s, k, sep);
    }
    if i :| FieldAt(s, o, i, sep) {
      FieldIsPiece(s, o, i, sep);
    }
  }

  /** `allowedOrigins`: the split setting, or the default when it is unset or empty. */
  function AllowedOrigins(setting: Option<string>): (allowed: seq<string>)
    ensures |allowed| >= 1
    ensures forall i :: 0 <= i < |allowed| ==> ',' !in allowed[i]
  {
    if setting.None? || setting.value == "" then DefaultOrigins else Split(setting.value, ',')
  }

  /** `Array.prototype.indexOf`: the first position of `x`, or -1. */
  function IndexOf(xs: seq<string>, x: string): (r: int)
    ensures -1 <= r < |xs|
    ensures r == -1 <==> x !in xs
    ensures 0 <= r ==> xs[r] == x && x !in xs[..r]
  {
    if xs == [] then -1
    else if xs[0] == x then 0
    else
      var r := IndexOf(xs[1..], x);
      assert xs == [xs[0]] + xs[1..];
      if r == -1 then -1
      else
        assert xs[..r + 1] == [xs[0]] + xs[1..][..r];
        r + 1
  }

  /** The `origin` callback: no (or an empty) Origin passes; otherwise it must be listed. */
  function CheckOrigin(origin: Option<string>, allowed: seq<string>): (d: Decision)
    ensures d == Allow <==> origin.None? || origin.value == "" || origin.value in allowed
    ensures d != Allow ==> d == Reject(NotAllowedMessage)
  {
    if origin.None? || origin.value == "" then Allow
    else if IndexOf(allowed, origin.value) != -1 then Allow
    else Reject(NotAllowedMessage)
  }

  /**
   * The whole policy: with ALLOWED_ORIGINS set to a non-empty string, an
   * Origin passes exactly when it is, character for character, one of the
   * comma-separated fields (no trimming of blanks).
   */
  lemma OriginPolicy(origin: string, setting: string)
    requires origin != "" && setting != ""
    ensures CheckOrigin(Some(origin), AllowedOrigins(Some(setting))) == Allow
        <==> exists i :: FieldAt(setting, origin, i, ',')
  {
    ListedIffField(setting, origin, ',');
  }

  /** Two separator-free pieces joined by one separator split back into the two. */
  lemma SplitTwo(a: string, b: string, sep: char)
    requires sep !in a && sep !in b
    ensures Split(a + [sep] + b, sep) == [a, b]
  {
    SplitAtSeparator(a, b, sep);
    SplitWithoutSeparator(a, sep);
    SplitWithoutSeparator(b, sep);
  }

  /** Blanks after a comma are kept as part of the next origin. */
  lemma SplitKeepsBlanks()
    ensures AllowedOrigins(Some("http://a.com, http://b.com")) == ["http://a.com", " http://b.com"]
  {
    var a, b := "http://a.com", " http://b.com";
    assert "http://a.com, http://b.com" == a + [','] + b;
    SplitTwo(a, b, ',');
  }

  /** So an origin written after ", " is admitted only with its leading blank. */
  lemma NoTrimming()
    ensures CheckOrigin(Some("http://b.com"), AllowedOrigins(Some("http://a.com, http://b.com")))
         == Reject(NotAllowedMessage)
    ensures CheckOrigin(Some(" http://b.com"), AllowedOrigins(Some("http://a.com, http://b.com"))) == Allow
  {
    SplitKeepsBlanks();
    assert "http://b.com" != "http://a.com" && "http://b.com" != " http://b.com";
  }
}
