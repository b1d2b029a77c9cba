/** Listing by pages: one row at a time, foreign rows skipped, names deduplicated and sorted. */
module Listing {
  import opened Basics
  import opened KeyCodec
  import opened ManifestBinding
  import Publication

  // ---- byte order, as sort.Strings compares

  predicate Less(a: Str, b: Str) {
    b != [] && (a == [] || a[0] < b[0] || (a[0] == b[0] && Less(a[1..], b[1..])))
  }

  /** That is: a proper prefix, or smaller at the first difference. */
  lemma {:induction false} LessIff(a: Str, b: Str)
    ensures Less(a, b) <==>
              a < b || exists k :: 0 <= k < |a| && k < |b| && a[..k] == b[..k] && a[k] < b[k]
  {
    if a != [] && b != [] && a[0] == b[0] {
      LessIff(a[1..], b[1..]);
      assert a == [a[0]] + a[1..] && b == [b[0]] + b[1..];
      forall k | 0 <= k < |a| - 1 && k < |b| - 1 ensures a[1..][..k] == b[1..][..k] <==> a[..k + 1] == b[..k + 1] {
        assert a[..k + 1] == [a[0]] + a[1..][..k] && b[..k + 1] == [b[0]] + b[1..][..k];
        assert a[..k + 1][1..] == a[1..][..k] && b[..k + 1][1..] == b[1..][..k];
      }
    } else if a != [] && b != [] {
      assert a[..0] == b[..0];
    }
  }

  lemma {:induction false} LessTotal(a: Str, b: Str)
    ensures Less(a, b) || a == b || Less(b, a)
    ensures !(Less(a, b) && Less(b, a)) && !Less(a, a)
    decreases |a|
  {
    if a != [] {
      LessTotal(a[1..], a[1..]);
      if b != [] {
        LessTotal(a[1..], b[1..]);
        if a[1..] == b[1..] && a[0] == b[0] {
          assert a == [a[0]] + a[1..] && b == [b[0]] + b[1..];
        }
      }
    }
  }

  lemma {:induction false} LessTransitive(a: Str, b: Str, c: Str)
    requires Less(a, b) && Less(b, c)
    ensures Less(a, c)
    decreases |a|
  {
    if a != [] && a[0] == b[0] == c[0] {
      LessTransitive(a[1..], b[1..], c[1..]);
    }
  }

  /** Strictly ascending, so free of duplicates. */
  ghost predicate Sorted(s: seq<Str>) {
    forall i, j :: 0 <= i < j < |s| ==> Less(s[i], s[j])
  }

  ghost function Elements(s: seq<Str>): set<Str> {
    set x | x in s
  }

  lemma NoElements(s: seq<Str>)
    ensures Elements(s) == {} <==> s == []
  {
    if s != [] {
      assert s[0] in Elements(s);
    }
  }

  /** A strictly sorted sequence is determined by its elements. */
  lemma {:induction false} SortedUnique(s: seq<Str>, t: seq<Str>)
    requires Sorted(s) && Sorted(t) && Elements(s) == Elements(t)
    ensures s == t
  {
    if s == [] || t == [] {
      NoElements(s);
      NoElements(t);
    } else {
      assert s[0] in Elements(t) && t[0] in Elements(s);
      LessTotal(s[0], t[0]);
      assert s[0] == t[0];
      forall x ensures x in s[1..] <==> x in t[1..] {
        LessTotal(s[0], s[0]);
        assert x in s <==> x in Elements(s);
        assert x in t <==> x in Elements(t);
        assert x in s <==> x == s[0] || x in s[1..];
        assert x in t <==> x == t[0] || x in t[1..];
      }
      SortedUnique(s[1..], t[1..]);
      assert s == [s[0]] + s[1..] && t == [t[0]] + t[1..];
    }
  }

  lemma Insert(s: seq<Str>, x: Str, i: nat)
    requires Sorted(s) && x !in s && i <= |s|
    requires forall j :: 0 <= j < i ==> Less(s[j], x)
    requires i < |s| ==> !Less(s[i], x)
    ensures Sorted(s[..i] + [x] + s[i..])
    ensures Elements(s[..i] + [x] + s[i..]) == Elements(s) + {x}
  {
    var t := s[..i] + [x] + s[i..];
    forall j | i <= j < |s| ensures Less(x, s[j]) {
      LessTotal(s[i], x);
      assert s[i] in s;
      if i < j {
        LessTransitive(x, s[i], s[j]);
      }
    }
    forall y ensures y in t <==> y in s || y == x {
      assert s == s[..i] + s[i..];
    }
  }

  /** Collecting the set in any order, then sorting it. */
  method SortStrings(names: set<Str>) returns (s: seq<Str>)
    ensures Sorted(s) && Elements(s) == names
  {
    s := [];
    var rest := names;
    while rest != {}
      invariant rest <= names && Sorted(s) && Elements(s) == names - rest
      decreases rest
    {
      var x :| x in rest;
      var i := 0;
      while i < |s| && Less(s[i], x)
        invariant 0 <= i <= |s|
        invariant forall j :: 0 <= j < i ==> Less(s[j], x)
      {
        i := i + 1;
      }
      assert x !in Elements(s);
      Insert(s, x, i);
      s := s[..i] + [x] + s[i..];
      rest := rest - {x};
    }
  }

  // ---- pages

  type Token = Str

  /** A page of keys, some of which may be missing from the response, or a failed request. */
  datatype Page = Page(contents: seq<Option<Str>>, truncated: bool, next: Option<Token>) | NoPage

  type Server = Option<Token> -> Page

  datatype Listed = Names(names: seq<Str>) | InvalidPrefix | BackendError | IntegrityError

  /** A fixed listing served in pages: each page starts where the last one ended, and a usable continuation token
      stands strictly further on. It may still fail, or hand out an unusable token. */
  ghost predicate Pages(server: Server, rows: seq<Option<Str>>, position: Token -> nat) {
    forall c: Option<Token> :: InOrder(server(c), rows, position, c)
  }

  ghost predicate InOrder(page: Page, rows: seq<Option<Str>>, position: Token -> nat, c: Option<Token>) {
    page.Page? ==>
      var from := At(position, c);
      var to := from + |page.contents|;
      && to <= |rows| && page.contents == rows[from..to]
      && (!page.truncated ==> to == |rows|)
      && (page.truncated && Usable(c, page.next) ==> from < to == position(page.next.value))
  }

  function At(position: Token -> nat, c: Option<Token>): nat {
    if c.None? then 0 else position(c.value)
  }

  predicate Usable(c: Option<Token>, next: Option<Token>) {
    next.Some? && next.value != [] && c != next
  }

  /** No request fails and every truncated page carries a usable token. */
  ghost predicate Reliable(server: Server) {
    forall c: Option<Token> :: server(c).Page? && (server(c).truncated ==> Usable(c, server(c).next))
  }

  /** How a listing ends: with an untruncated page, at a failed request, or at an unusable token. */
  datatype Ending = Complete | RequestFailed | BadToken

  ghost function Walk(server: Server, rows: seq<Option<Str>>, position: Token -> nat, c: Option<Token>): Ending
    requires Pages(server, rows, position) && At(position, c) <= |rows|
    decreases |rows| - At(position, c)
  {
    var page := server(c);
    if page.NoPage? then RequestFailed
    else if !page.truncated then Complete
    else if !Usable(c, page.next) then BadToken
    else Walk(server, rows, position, page.next)
  }

  lemma {:induction false} ReliableWalk(server: Server, rows: seq<Option<Str>>, position: Token -> nat,
                                        c: Option<Token>)
    requires Pages(server, rows, position) && Reliable(server) && At(position, c) <= |rows|
    ensures Walk(server, rows, position, c) == Complete
    decreases |rows| - At(position, c)
  {
    if server(c).truncated {
      ReliableWalk(server, rows, position, server(c).next);
    }
  }

  /** The logical name a row contributes under the caller's prefix. */
  function NameOf(sha: Hash, deployment: Str, prefix: Str, row: Option<Str>): Option<Str> {
    if row.None? then None
    else
      var logical := Decode(sha, deployment, row.value);
      if logical.Some? && prefix <= logical.value then logical else None
  }

  ghost function NamesIn(sha: Hash, deployment: Str, prefix: Str, rows: seq<Option<Str>>): set<Str> {
    set row | row in rows && NameOf(sha, deployment, prefix, row).Some? :: NameOf(sha, deployment, prefix, row).value
  }

  lemma NamesInAppend(sha: Hash, deployment: Str, prefix: Str, a: seq<Option<Str>>, b: seq<Option<Str>>)
    ensures NamesIn(sha, deployment, prefix, a + b)
         == NamesIn(sha, deployment, prefix, a) + NamesIn(sha, deployment, prefix, b)
  {
  }

  lemma NamesInNext(sha: Hash, deployment: Str, prefix: Str, rows: seq<Option<Str>>, i: nat)
    requires i < |rows|
    ensures var name := NameOf(sha, deployment, prefix, rows[i]);
            NamesIn(sha, deployment, prefix, rows[..i + 1])
            == NamesIn(sha, deployment, prefix, rows[..i]) + if name.Some? then {name.value} else {}
  {
    assert rows[..i + 1] == rows[..i] + [rows[i]];
    NamesInAppend(sha, deployment, prefix, rows[..i], [rows[i]]);
  }

  /** One page's contribution to `seen`. */
  method AddPage(sha: Hash, deployment: Str, prefix: Str, contents: seq<Option<Str>>, before: set<Str>)
    returns (seen: set<Str>)
    ensures seen == before + NamesIn(sha, deployment, prefix, contents)
  {
    seen := before;
    var i := 0;
    while i < |contents|
      invariant 0 <= i <= |contents|
      invariant seen == before + NamesIn(sha, deployment, prefix, contents[..i])
    {
      var row := contents[i];
      NamesInNext(sha, deployment, prefix, contents, i);
      i := i + 1;
      if row == None {
        continue;
      }
      var logical := Decode(sha, deployment, row.value);
      if logical == None || !(prefix <= logical.value) {
        continue;
      }
      seen := seen + {logical.value};
    }
    assert contents[..i] == contents;
  }

  /** Where a page stands among the rows. */
  lemma PageRows(server: Server, rows: seq<Option<Str>>, position: Token -> nat, c: Option<Token>)
    requires Pages(server, rows, position) && At(position, c) <= |rows| && server(c).Page?
    ensures var page := server(c);
            var before := rows[..At(position, c)];
            && (!page.truncated ==> before + page.contents == rows)
            && (page.truncated && Usable(c, page.next) ==>
                  && At(position, c) < At(position, page.next) <= |rows|
                  && before + page.contents == rows[..At(position, page.next)])
  {
    var from := At(position, c);
    var to := from + |server(c).contents|;
    assert server(c).contents == rows[from..to];
    assert rows[..from] + rows[from..to] == rows[..to];
  }

  /** What a page adds to the names of the rows before it. */
  lemma PageAdds(sha: Hash, deployment: Str, prefix: Str, server: Server,
                 rows: seq<Option<Str>>, position: Token -> nat, c: Option<Token>)
    requires Pages(server, rows, position) && At(position, c) <= |rows| && server(c).Page?
    ensures var page := server(c);
            var names := NamesIn(sha, deployment, prefix, rows[..At(position, c)])
                         + NamesIn(sha, deployment, prefix, page.contents);
            && (!page.truncated ==> names == NamesIn(sha, deployment, prefix, rows))
            && (page.truncated && Usable(c, page.next) ==>
                  && At(position, c) < At(position, page.next) <= |rows|
                  && names == NamesIn(sha, deployment, prefix, rows[..At(position, page.next)]))
  {
    PageRows(server, rows, position, c);
    NamesInAppend(sha, deployment, prefix, rows[..At(position, c)], server(c).contents);
  }

  /** validateListPrefix: a name, perhaps followed by one slash, or nothing at all. */
  predicate ValidListPrefix(prefix: Str) {
    || prefix == []
    || ValidName(if prefix[|prefix| - 1] == SLASH then prefix[..|prefix| - 1] else prefix)
  }

  /** A prefix is accepted exactly if it is empty, a valid name, or a valid name and a slash. */
  lemma AcceptedPrefixes(prefix: Str)
    ensures ValidListPrefix(prefix) <==>
              prefix == [] || ValidName(prefix) || exists name :: ValidName(name) && prefix == name + [SLASH]
  {
    if prefix != [] && prefix[|prefix| - 1] == SLASH {
      var name := prefix[..|prefix| - 1];
      var empty: Str := [];
      assert prefix == name + [SLASH] + empty && prefix == name + [SLASH];
      GrammarAt(name, empty);
      assert empty in Split(empty);
    }
    forall name | ValidName(name) && prefix == name + [SLASH] ensures ValidListPrefix(prefix) {
      assert prefix[..|prefix| - 1] == name;
    }
  }

  /** A truncated page without a token, with an empty one, or with the one that led to it ends the walk. */
  lemma UselessTokenIsRefused(server: Server, rows: seq<Option<Str>>, position: Token -> nat, c: Option<Token>)
    requires Pages(server, rows, position) && At(position, c) <= |rows|
    requires server(c).Page? && server(c).truncated && server(c).next in {None, Some([]), c}
    ensures Walk(server, rows, position, c) == BadToken
  {
  }

  /** A server that repeats a token ends a listing as well, though its pages are in order. */
  lemma RepeatedTokenEnds() returns (server: Server, rows: seq<Option<Str>>, position: Token -> nat)
    ensures Pages(server, rows, position) && Walk(server, rows, position, None) == BadToken
    ensures exists c: Token :: c != [] && server(Some(c)).Page? && server(Some(c)).next == Some(c)
  {
    var token: Token := [0x61];
    rows := [None];
    position := (t: Token) => 1;
    server := (c: Option<Token>) =>
      if c == None then Page([None], true, Some(token))
      else if c == Some(token) then Page([], true, Some(token))
      else NoPage;
    forall c: Option<Token> ensures InOrder(server(c), rows, position, c) {
      assert c.Some? ==> rows[1..1] == [];
    }
    assert Walk(server, rows, position, Some(token)) == BadToken;
  }

  /** List, over any pages: it answers, with the strictly sorted set of names the whole listing decodes to, exactly when
      it comes to the last page, and otherwise reports the failed request or the unusable token it came to. */
  method List(sha: Hash, deployment: Str, prefix: Str, server: Server,
              ghost rows: seq<Option<Str>>, ghost position: Token -> nat)
    returns (listed: Listed)
    requires Pages(server, rows, position)
    ensures listed.Names? ==> Sorted(listed.names) && Elements(listed.names) == NamesIn(sha, deployment, prefix, rows)
    ensures listed == InvalidPrefix <==> !ValidListPrefix(prefix)
    ensures ValidListPrefix(prefix) ==>
              match Walk(server, rows, position, None)
              case Complete => listed.Names?
              case RequestFailed => listed == BackendError
              case BadToken => listed == IntegrityError
    ensures Reliable(server) && ValidListPrefix(prefix) ==> listed.Names?
  {
    if Reliable(server) {
      ReliableWalk(server, rows, position, None);
    }
    if !ValidListPrefix(prefix) {
      return InvalidPrefix;
    }
    var seen: set<Str> := {};
    var continuation: Option<Token> := None;
    while true
      invariant At(position, continuation) <= |rows|
      invariant seen == NamesIn(sha, deployment, prefix, rows[..At(position, continuation)])
      invariant Walk(server, rows, position, continuation) == Walk(server, rows, position, None)
      decreases |rows| - At(position, continuation)
    {
      var page := server(continuation);
      if page == NoPage {
        return BackendError;
      }
      PageAdds(sha, deployment, prefix, server, rows, position, continuation);
      seen := AddPage(sha, deployment, prefix, page.contents, seen);
      if !page.truncated {
        break;
      }
      if !Usable(continuation, page.next) {
        return IntegrityError;
      }
      continuation := page.next;
    }
    var names := SortStrings(seen);
    return Names(names);
  }

  // ---- agreement with the abstract map

  /** A listing of a deployment's bucket in state s: the keys of its rows, in either encoding, among rows that decode to
      nothing. */
  ghost predicate ListingOf(sha: Hash, deployment: Str, rows: seq<Option<Str>>, s: Publication.State) {
    && (forall r :: r in s.rows ==> ValidName(r.key) && Some(RowKey(sha, deployment, r)) in rows)
    && (forall row :: row in rows && row.Some? ==>
          || Decode(sha, deployment, row.value) == None
          || exists r :: r in s.rows && row.value == RowKey(sha, deployment, r))
  }

  lemma RowReadsBack(sha: Hash, deployment: Str, r: Publication.Row)
    requires ValidName(r.key)
    ensures Decode(sha, deployment, RowKey(sha, deployment, r)) == Some(r.key)
  {
    DecodeRoundTrip(sha, deployment, r.key);
  }

  lemma ListedIsPresent(sha: Hash, deployment: Str, prefix: Str, rows: seq<Option<Str>>, s: Publication.State,
                        name: Str)
    requires ListingOf(sha, deployment, rows, s) && name in NamesIn(sha, deployment, prefix, rows)
    ensures Publication.Value(s, name).Some? && prefix <= name
  {
    var row :| row in rows && NameOf(sha, deployment, prefix, row) == Some(name);
    var r :| r in s.rows && row.value == RowKey(sha, deployment, r);
    RowReadsBack(sha, deployment, r);
  }

  lemma PresentIsListed(sha: Hash, deployment: Str, prefix: Str, rows: seq<Option<Str>>, s: Publication.State,
                        name: Str)
    requires ListingOf(sha, deployment, rows, s) && Publication.Value(s, name).Some? && prefix <= name
    ensures name in NamesIn(sha, deployment, prefix, rows)
  {
    var r := Publication.Row(Publication.Row(false, name) !in s.rows, name);
    RowReadsBack(sha, deployment, r);
    assert NameOf(sha, deployment, prefix, Some(RowKey(sha, deployment, r))) == Some(name);
  }

  /** Whatever foreign rows surround them and in whichever encoding they are stored, exactly the keys to which the
      atomic map gives a value, and which have the prefix, are listed. */
  lemma ListsPresentKeys(sha: Hash, deployment: Str, prefix: Str, rows: seq<Option<Str>>, s: Publication.State)
    requires ListingOf(sha, deployment, rows, s)
    ensures forall name :: name in NamesIn(sha, deployment, prefix, rows)
                           <==> Publication.Value(s, name).Some? && prefix <= name
  {
    forall name | name in NamesIn(sha, deployment, prefix, rows)
      ensures Publication.Value(s, name).Some? && prefix <= name
    {
      ListedIsPresent(sha, deployment, prefix, rows, s, name);
    }
    forall name | Publication.Value(s, name).Some? && prefix <= name
      ensures name in NamesIn(sha, deployment, prefix, rows)
    {
      PresentIsListed(sha, deployment, prefix, rows, s, name);
    }
  }
}
