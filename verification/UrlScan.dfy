/**
 * Scanners for the patterns of the URL parser: that of RFC 3986, appendix B, which splits a URL
 * reference into its parts, that of one query parameter, and the number format of `std::stoi`.
 */
module UrlScan {
  import opened Common

  // ----- Characters ---------------------------------------------------------------------------

  /** The character classes of the patterns. */
  datatype Class = NotIn(stops: string) | Alnum | Digit | Space {
    predicate Has(c: char) {
      match this
      case NotIn(stops) => c !in stops
      case Alnum => 'a' <= c <= 'z' || 'A' <= c <= 'Z' || '0' <= c <= '9'
      case Digit => '0' <= c <= '9'
      case Space => c == ' ' || '\t' <= c <= '\r'
    }

    predicate All(s: string) {
      forall i :: 0 <= i < |s| ==> Has(s[i])
    }
  }

  /** How many characters at the front are in the class. */
  function Leading(s: string, class_: Class): (n: nat)
    ensures n <= |s| && class_.All(s[..n]) && (n < |s| ==> !class_.Has(s[n]))
  {
    if s == "" || !class_.Has(s[0]) then 0 else 1 + Leading(s[1..], class_)
  }

  lemma {:induction false} LeadingIs(a: string, b: string, class_: Class)
    requires class_.All(a) && (b == "" || !class_.Has(b[0]))
    ensures Leading(a + b, class_) == |a|
  {
    if a == "" {
      assert a + b == b;
    } else {
      assert (a + b)[1..] == a[1..] + b;
      LeadingIs(a[1..], b, class_);
    }
  }

  // ----- The parts of a URL -------------------------------------------------------------------

  /** The groups of the pattern that are used, each with whether it takes part in the match. */
  datatype Parts = Parts(
    protocol: Option<string>,
    authority: Option<string>,
    path: string,
    query: Option<string>,
    fragment: Option<string>)

  function Protocol(s: string): Option<string> {
    var n := Leading(s, NotIn(":/?#"));
    if 0 < n < |s| && s[n] == ':' then Some(s[..n]) else None
  }

  function AfterProtocol(s: string): string {
    var n := Leading(s, NotIn(":/?#"));
    if 0 < n < |s| && s[n] == ':' then s[n + 1..] else s
  }

  predicate StartsWithSlashes(s: string) {
    |s| >= 2 && s[0] == '/' && s[1] == '/'
  }

  function Authority(s: string): Option<string> {
    if StartsWithSlashes(s) then Some(s[2..][..Leading(s[2..], NotIn("/?#"))]) else None
  }

  function AfterAuthority(s: string): string {
    if StartsWithSlashes(s) then s[2..][Leading(s[2..], NotIn("/?#"))..] else s
  }

  function Path(s: string): string {
    s[..Leading(s, NotIn("?#"))]
  }

  function AfterPath(s: string): string {
    s[Leading(s, NotIn("?#"))..]
  }

  function Query(s: string): Option<string> {
    if s != "" && s[0] == '?' then Some(s[1..][..Leading(s[1..], NotIn("#"))]) else None
  }

  function AfterQuery(s: string): string {
    if s != "" && s[0] == '?' then s[1..][Leading(s[1..], NotIn("#"))..] else s
  }

  /** A `.` matches everything but the end of a line. */
  const ANYTHING := NotIn("\n\r")

  /** `std::regex_match` with the pattern for a URL. */
  function Scan(s: string): Option<Parts> {
    var s1 := AfterProtocol(s);
    var s2 := AfterAuthority(s1);
    var s3 := AfterPath(s2);
    var s4 := AfterQuery(s3);
    if s4 == "" then Some(Parts(Protocol(s), Authority(s1), Path(s2), Query(s3), None))
    else if ANYTHING.All(s4[1..]) then Some(Parts(Protocol(s), Authority(s1), Path(s2), Query(s3), Some(s4[1..])))
    else None
  }

  function Written(part: Option<string>, before: string, after: string): string {
    if part.Some? then before + part.value + after else ""
  }

  function FromQuery(p: Parts): string {
    Written(p.query, "?", "") + Written(p.fragment, "#", "")
  }

  function FromAuthority(p: Parts): string {
    Written(p.authority, "//", "") + (p.path + FromQuery(p))
  }

  /** The parts put together again (RFC 3986, section 5.3). */
  function Compose(p: Parts): string {
    Written(p.protocol, "", ":") + FromAuthority(p)
  }

  /** Every group consists of the characters the pattern allows. */
  predicate Matches(p: Parts) {
    && (p.protocol.Some? ==> p.protocol.value != "" && NotIn(":/?#").All(p.protocol.value))
    && (p.authority.Some? ==> NotIn("/?#").All(p.authority.value))
    && NotIn("?#").All(p.path)
    && (p.query.Some? ==> NotIn("#").All(p.query.value))
    && (p.fragment.Some? ==> ANYTHING.All(p.fragment.value))
  }

  /** No group is passed over that could take part, and none stops before it must. */
  predicate Greedy(p: Parts) {
    && (p.protocol.None? ==> Protocol(FromAuthority(p)).None?)
    && (p.authority.None? ==> !StartsWithSlashes(p.path + FromQuery(p)))
    && (p.authority.Some? && p.path != "" ==> p.path[0] == '/')
  }

  lemma AtTheEnd(p: Parts)
    requires Matches(p)
    ensures var s := FromQuery(p); s == "" || s[0] == '?' || s[0] == '#'
    ensures Query(FromQuery(p)) == p.query && AfterQuery(FromQuery(p)) == Written(p.fragment, "#", "")
  {
    if p.query.Some? {
      var rest := p.query.value + Written(p.fragment, "#", "");
      assert FromQuery(p)[1..] == rest;
      LeadingIs(p.query.value, Written(p.fragment, "#", ""), NotIn("#"));
      assert rest[..|p.query.value|] == p.query.value && rest[|p.query.value|..] == Written(p.fragment, "#", "");
    } else {
      assert FromQuery(p) == Written(p.fragment, "#", "");
    }
  }

  lemma AuthorityOf(value: string, rest: string)
    requires NotIn("/?#").All(value) && (rest == "" || rest[0] == '/' || rest[0] == '?' || rest[0] == '#')
    ensures var s := "//" + (value + rest);
            Authority(s) == Some(value) && AfterAuthority(s) == rest
  {
    hide Leading;
    var s, tail := "//" + (value + rest), value + rest;
    LeadingIs(value, rest, NotIn("/?#"));
    assert s[2..] == tail && tail[..|value|] == value && tail[|value|..] == rest;
  }

  lemma NoAuthority(s: string)
    requires !StartsWithSlashes(s)
    ensures Authority(s) == None && AfterAuthority(s) == s
  {
  }

  lemma AroundPath(p: Parts)
    requires Matches(p) && Greedy(p)
    ensures var rest := p.path + FromQuery(p);
            if p.authority.Some?
            then NotIn("/?#").All(p.authority.value)
                 && (rest == "" || rest[0] == '/' || rest[0] == '?' || rest[0] == '#')
            else !StartsWithSlashes(rest)
  {
    AtTheEnd(p);
    hide FromQuery, Class.All, StartsWithSlashes;
  }

  lemma FromAuthorityIs(p: Parts)
    ensures var rest := p.path + FromQuery(p);
            FromAuthority(p) == if p.authority.Some? then "//" + (p.authority.value + rest) else rest
  {
    hide FromQuery;
    var rest := p.path + FromQuery(p);
    if p.authority.Some? {
      assert "//" + p.authority.value + "" + rest == "//" + (p.authority.value + rest);
    } else {
      assert "" + rest == rest;
    }
  }

  lemma InTheMiddle(p: Parts)
    requires Matches(p) && Greedy(p)
    ensures Authority(FromAuthority(p)) == p.authority && AfterAuthority(FromAuthority(p)) == p.path + FromQuery(p)
  {
    hide *;
    AroundPath(p);
    FromAuthorityIs(p);
    if p.authority.Some? {
      AuthorityOf(p.authority.value, p.path + FromQuery(p));
    } else {
      NoAuthority(p.path + FromQuery(p));
    }
  }

  lemma AtTheFront(p: Parts)
    requires Matches(p) && Greedy(p)
    ensures Protocol(Compose(p)) == p.protocol && AfterProtocol(Compose(p)) == FromAuthority(p)
  {
    hide FromAuthority;
    if p.protocol.Some? {
      var rest := ":" + FromAuthority(p);
      assert Compose(p) == p.protocol.value + rest;
      LeadingIs(p.protocol.value, rest, NotIn(":/?#"));
      assert rest[1..] == FromAuthority(p);
    } else {
      assert Compose(p) == FromAuthority(p);
    }
  }

  lemma InThePath(p: Parts)
    requires Matches(p)
    ensures Path(p.path + FromQuery(p)) == p.path && AfterPath(p.path + FromQuery(p)) == FromQuery(p)
  {
    AtTheEnd(p);
    hide FromQuery;
    LeadingIs(p.path, FromQuery(p), NotIn("?#"));
    assert (p.path + FromQuery(p))[..|p.path|] == p.path && (p.path + FromQuery(p))[|p.path|..] == FromQuery(p);
  }

  /** The match of a string is determined: greedy parts are found again in what they compose. */
  lemma ScanOfCompose(p: Parts)
    requires Matches(p) && Greedy(p)
    ensures Scan(Compose(p)) == Some(p)
  {
    hide Protocol, AfterProtocol, Authority, AfterAuthority, Path, AfterPath, Query, AfterQuery;
    hide FromQuery, FromAuthority, Compose;
    AtTheFront(p);
    InTheMiddle(p);
    InThePath(p);
    AtTheEnd(p);
    if p.fragment.Some? {
      assert ("#" + p.fragment.value + "")[1..] == p.fragment.value;
    }
  }

  lemma AllConcat(a: string, b: string, class_: Class)
    ensures class_.All(a + b) <==> class_.All(a) && class_.All(b)
  {
    if class_.All(a + b) {
      assert forall i :: 0 <= i < |a| ==> (a + b)[i] == a[i];
      assert forall i :: 0 <= i < |b| ==> (a + b)[|a| + i] == b[i];
    }
  }

  /** Written groups, the fragment's apart, contain no '#'. */
  lemma NoHash(p: Parts)
    requires Matches(p)
    ensures NotIn("#").All(Written(p.protocol, "", ":")) && NotIn("#").All(Written(p.authority, "//", ""))
    ensures NotIn("#").All(p.path) && NotIn("#").All(Written(p.query, "?", ""))
  {
  }

  lemma NoHashConcat(a: string, b: string, c: string, d: string)
    requires NotIn("#").All(a) && NotIn("#").All(b) && NotIn("#").All(c) && NotIn("#").All(d)
    ensures NotIn("#").All(a + (b + (c + d)))
  {
    hide *;
    AllConcat(c, d, NotIn("#"));
    AllConcat(b, c + d, NotIn("#"));
    AllConcat(a, b + (c + d), NotIn("#"));
  }

  lemma ProtocolComposes(s: string)
    ensures Written(Protocol(s), "", ":") + AfterProtocol(s) == s
    ensures Protocol(s).Some? ==> Protocol(s).value != "" && NotIn(":/?#").All(Protocol(s).value)
    ensures Protocol(s).None? ==> AfterProtocol(s) == s
  {
  }

  lemma AuthorityComposes(s: string)
    ensures Written(Authority(s), "//", "") + AfterAuthority(s) == s
    ensures Authority(s).Some? ==> NotIn("/?#").All(Authority(s).value)
    ensures Authority(s).Some? && AfterAuthority(s) != "" ==>
              AfterAuthority(s)[0] == '/' || AfterAuthority(s)[0] == '?' || AfterAuthority(s)[0] == '#'
    ensures Authority(s).None? ==> !StartsWithSlashes(s) && AfterAuthority(s) == s
  {
    hide Leading, Class.All, Class.Has;
    if StartsWithSlashes(s) {
      var rest := s[2..];
      var n := Leading(rest, NotIn("/?#"));
      SlashesFirst(s, rest, n);
      if n < |rest| {
        StopsAt(rest[n]);
      }
    } else {
      NoAuthority(s);
      assert "" + s == s;
    }
  }

  lemma SlashesFirst(s: string, rest: string, n: nat)
    requires StartsWithSlashes(s) && rest == s[2..] && n <= |rest|
    ensures "//" + rest[..n] + "" + rest[n..] == s
  {
    assert rest == rest[..n] + rest[n..];
  }

  lemma StopsAt(c: char)
    requires !NotIn("/?#").Has(c)
    ensures c == '/' || c == '?' || c == '#'
  {
  }

  lemma QueryComposes(s: string)
    requires s == "" || s[0] == '?' || s[0] == '#'
    ensures Written(Query(s), "?", "") + AfterQuery(s) == s
    ensures Query(s).Some? ==> NotIn("#").All(Query(s).value)
    ensures AfterQuery(s) == "" || AfterQuery(s)[0] == '#'
  {
  }

  lemma PathComposes(s: string)
    ensures Path(s) + AfterPath(s) == s && NotIn("?#").All(Path(s))
    ensures Path(s) != "" ==> s[0] == Path(s)[0] && s[0] != '?' && s[0] != '#'
    ensures AfterPath(s) == "" || AfterPath(s)[0] == '?' || AfterPath(s)[0] == '#'
  {
  }

  /** From the fragment on. */
  function Last(s: string): string {
    AfterQuery(AfterPath(AfterAuthority(AfterProtocol(s))))
  }

  /** All before the fragment. */
  function First(s: string): string {
    var s1 := AfterProtocol(s);
    var s2 := AfterAuthority(s1);
    Written(Protocol(s), "", ":")
    + (Written(Authority(s1), "//", "") + (Path(s2) + Written(Query(AfterPath(s2)), "?", "")))
  }

  /** The scanner cuts the string at its first '#'. */
  lemma CutAtHash(s: string)
    ensures First(s) + Last(s) == s
    ensures NotIn("#").All(First(s)) && (Last(s) == "" || Last(s)[0] == '#')
    ensures |First(s)| == Leading(s, NotIn("#"))
  {
    hide Protocol, AfterProtocol, Authority, AfterAuthority, Path, AfterPath, Query, AfterQuery;
    hide Written, Class.All, Leading;
    var s1 := AfterProtocol(s);
    var s2 := AfterAuthority(s1);
    var s3 := AfterPath(s2);
    ProtocolComposes(s);
    AuthorityComposes(s1);
    PathComposes(s2);
    QueryComposes(s3);
    var a, b := Written(Protocol(s), "", ":"), Written(Authority(s1), "//", "");
    var c, d := Path(s2), Written(Query(s3), "?", "");
    Regroup(a, b, c, d, AfterQuery(s3));
    NoHash(Parts(Protocol(s), Authority(s1), c, Query(s3), None));
    NoHashConcat(a, b, c, d);
    HashIsNot();
    LeadingIs(First(s), Last(s), NotIn("#"));
  }

  lemma Regroup(a: string, b: string, c: string, d: string, e: string)
    ensures (a + (b + (c + d))) + e == a + (b + (c + (d + e)))
  {
  }

  lemma HashIsNot()
    ensures !NotIn("#").Has('#')
  {
  }

  lemma ScanParts(s: string)
    requires Scan(s).Some?
    ensures var p, s1 := Scan(s).value, AfterProtocol(s);
            var s2 := AfterAuthority(s1);
            && p.protocol == Protocol(s) && p.authority == Authority(s1)
            && p.path == Path(s2) && p.query == Query(AfterPath(s2))
            && Written(p.fragment, "#", "") == Last(s)
            && (p.fragment.Some? ==> ANYTHING.All(p.fragment.value))
  {
    CutAtHash(s);
    hide Protocol, AfterProtocol, Authority, AfterAuthority, Path, AfterPath, Query, AfterQuery;
    hide First, Class.All, Leading;
    if Last(s) != "" {
      assert Last(s) == "#" + Last(s)[1..] + "";
    }
  }

  /** What the scanner finds is a greedy match of the whole string. */
  lemma ScanIsGreedy(s: string)
    requires Scan(s).Some?
    ensures Matches(Scan(s).value) && Greedy(Scan(s).value) && Compose(Scan(s).value) == s
  {
    hide Protocol, AfterProtocol, Authority, AfterAuthority, Path, AfterPath, Query, AfterQuery;
    hide Scan, Class.All, Class.Has, Written, Leading;
    ScanParts(s);
    var p := Scan(s).value;
    var s1 := AfterProtocol(s);
    var s2 := AfterAuthority(s1);
    var s3 := AfterPath(s2);
    ProtocolComposes(s);
    AuthorityComposes(s1);
    PathComposes(s2);
    QueryComposes(s3);
    assert FromQuery(p) == s3;
    assert p.path + s3 == s2;
    assert FromAuthority(p) == s1;
  }

  /** The scanner fails only if the string has no match at all: there is an end of line after its first '#'. */
  lemma ScanFindsAnyMatch(p: Parts)
    requires Matches(p)
    ensures Scan(Compose(p)).Some?
  {
    hide Protocol, AfterProtocol, Authority, AfterAuthority, Path, AfterPath, Query, AfterQuery;
    hide First, Last, Written, Class.All, Leading, Matches;
    var s, last := Compose(p), Written(p.fragment, "#", "");
    var a, b, c := Written(p.protocol, "", ":"), Written(p.authority, "//", ""), Written(p.query, "?", "");
    var before := a + (b + (p.path + c));
    assert s == before + last by { Regroup(a, b, p.path, c, last); }
    NoHash(p);
    NoHashConcat(a, b, p.path, c);
    CutAtHash(s);
    HashIsNot();
    FragmentOf(p);
    LeadingIs(before, last, NotIn("#"));
    assert s[|before|..] == last && s[|First(s)|..] == Last(s);
    assert Scan(s).Some? by { ScanDecides(s); }
  }

  lemma FragmentOf(p: Parts)
    requires Matches(p)
    ensures var last := Written(p.fragment, "#", ""); last == "" || (last[0] == '#' && ANYTHING.All(last[1..]))
  {
    if p.fragment.Some? {
      assert ("#" + p.fragment.value + "")[1..] == p.fragment.value;
    }
  }

  lemma ScanDecides(s: string)
    ensures Scan(s).Some? <==> Last(s) == "" || ANYTHING.All(Last(s)[1..])
  {
    hide Protocol, AfterProtocol, Authority, AfterAuthority, Path, AfterPath, Query, AfterQuery, Class.All;
  }
}
