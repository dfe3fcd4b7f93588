/** URLs: parsing, building and printing. */
module Urls {
  import opened Common
  import opened UrlScan
  import opened UrlNumbers
  import opened UrlQuery

  datatype Url = Url(
    protocol: string,
    hostname: string,
    port: nat,
    path: string,
    query: string,
    parameters: map<string, string>)

  const EMPTY_URL := Url("", "", 0, "", "", map[])

  /** The reasons for a `MalformedUrlException`. */
  datatype Malformed = CannotParse | InvalidPort | NoProtocol | NoHostname

  /** A group that takes no part in the match is the empty string. */
  function Group(part: Option<string>): string {
    if part.Some? then part.value else ""
  }

  function Hostname(authority: string): string {
    authority[..Leading(authority, NotIn(":"))]
  }

  /** The port after the first ':', 0 if there is none, and None if it is no number. */
  function Port(authority: string): (r: Option<nat>)
    ensures r.Some? ==> r.value < UINT_RANGE
  {
    var sep := Leading(authority, NotIn(":"));
    if sep == |authority| then Some(0)
    else match Stoi(authority[sep + 1..])
         case Some(n) => Some(ToUnsigned(n))
         case None => None
  }

  function Build(url: Url): Result<Url, Malformed> {
    if url.protocol == "" then Failure(NoProtocol)
    else if url.hostname == "" then Failure(NoHostname)
    else Success(url)
  }

  function Parse(s: string): Result<Url, Malformed> {
    match Scan(s)
    case None => Failure(CannotParse)
    case Some(p) =>
      var authority := Group(p.authority);
      match Port(authority)
      case None => Failure(InvalidPort)
      case Some(port) =>
        Build(Url(Group(p.protocol), Hostname(authority), port, p.path, "", AddAll(map[], Pairs(Group(p.query)))))
  }

  // ----- Printing -----------------------------------------------------------------------------

  function PortText(port: nat): string {
    if port == 0 then "" else ":" + Decimal(port)
  }

  function PathText(path: string): string {
    if path != "" && path[0] != '/' then "/" + path else path
  }

  function QueryText(query: string): string {
    if query == "" then "" else "/" + query
  }

  function ParametersText(pairs: seq<Pair>): string {
    if pairs == [] then "" else "?" + JoinText(pairs)
  }

  /** A printed URL, given what is printed for its port and the order in which its parameters are. */
  function TextWith(url: Url, port: string, order: seq<string>): string
    requires forall key :: key in order ==> key in url.parameters
  {
    url.protocol + "://" + url.hostname + port + PathText(url.path) + QueryText(url.query)
    + ParametersText(Listed(url.parameters, order))
  }

  /** `toString`, when the parameter map is iterated in this order. */
  function Text(url: Url, order: seq<string>): string
    requires forall key :: key in order ==> key in url.parameters
  {
    TextWith(url, PortText(url.port), order)
  }

  // ----- What parse returns -------------------------------------------------------------------

  /** The URLs that parsing can return. */
  ghost predicate Parsed(url: Url) {
    && url.protocol != "" && NotIn(":/?#").All(url.protocol)
    && url.hostname != "" && NotIn(":/?#").All(url.hostname)
    && url.port < UINT_RANGE
    && (url.path == "" || url.path[0] == '/') && NotIn("?#").All(url.path)
    && url.query == ""
    && forall key :: key in url.parameters ==> Word(key) && Word(url.parameters[key])
  }

  lemma HostnameOf(authority: string)
    requires NotIn("/?#").All(authority)
    ensures NotIn(":/?#").All(Hostname(authority))
  {
    var h := Hostname(authority);
    assert NotIn(":").All(h);
  }

  lemma ParseIsParsed(s: string)
    ensures Parse(s).Success? ==> Parsed(Parse(s).value)
  {
    hide Scan, Compose, FromAuthority, FromQuery, Pairs, AddAll, Word, Port, Hostname;
    if Parse(s).Success? {
      ScanIsGreedy(s);
      var p := Scan(s).value;
      HostnameOf(Group(p.authority));
      EmptyHostname();
      PairsAreWords(Group(p.query));
      AddedAreWords(map[], Pairs(Group(p.query)));
    }
  }

  lemma EmptyHostname()
    ensures Hostname("") == ""
  {
  }

  // ----- What each part of a URL does ---------------------------------------------------------

  /** What may stand after a host name. */
  predicate PortPart(port: string) {
    NotIn("/?#").All(port) && (port != "" ==> port[0] == ':')
  }

  lemma HostAndPort(hostname: string, port: string)
    requires NotIn(":/?#").All(hostname) && PortPart(port)
    ensures Hostname(hostname + port) == hostname
    ensures port == "" ==> Port(hostname + port) == Some(0)
    ensures port != "" ==> Port(hostname + port)
                           == match Stoi(port[1..]) case Some(n) => Some(ToUnsigned(n)) case None => None
  {
    hide Stoi;
    LeadingIs(hostname, port, NotIn(":"));
    assert (hostname + port)[..|hostname|] == hostname;
    if port != "" {
      assert (hostname + port)[|hostname| + 1..] == port[1..];
    }
  }

  /** The URL that such parts stand for, whatever their fragment is. */
  function UrlOfParts(p: Parts, hostname: string, port: nat): Url
    requires p.protocol.Some?
  {
    Url(p.protocol.value, hostname, port, p.path, "",
        AddAll(map[], if p.query.Some? then Pairs(p.query.value) else []))
  }

  /** Any parts with a protocol and a host, put together, parse to what they say. */
  lemma ParseOfComposed(p: Parts, hostname: string, port: string)
    requires Matches(p) && Greedy(p) && p.protocol.Some? && p.authority == Some(hostname + port)
    requires hostname != "" && NotIn(":/?#").All(hostname) && PortPart(port)
    ensures port == "" ==> Parse(Compose(p)) == Success(UrlOfParts(p, hostname, 0))
    ensures port != "" ==> Parse(Compose(p))
                           == match Stoi(port[1..])
                              case Some(n) => Success(UrlOfParts(p, hostname, ToUnsigned(n)))
                              case None => Failure(InvalidPort)
  {
    ScanOfCompose(p);
    HostAndPort(hostname, port);
    NoPairs();
    hide Scan, Compose, Greedy, Hostname, Port, Stoi, ToUnsigned, AddAll, Pairs, Class.All;
  }

  /** A string is no URL reference exactly if no parts that match make it up. */
  lemma CannotParseExactlyIf(s: string)
    ensures Parse(s) == Failure(CannotParse) <==> !exists p :: Matches(p) && Compose(p) == s
  {
    hide Scan, Matches, Compose, Port;
    if Scan(s).Some? {
      ScanIsGreedy(s);
      assert Matches(Scan(s).value) && Compose(Scan(s).value) == s;
    }
    if p :| Matches(p) && Compose(p) == s {
      ScanFindsAnyMatch(p);
    }
  }

  /** What else may be missing has its own error. */
  lemma MissingPart(p: Parts)
    requires Matches(p) && Greedy(p) && (p.authority.Some? ==> NotIn(":").All(p.authority.value))
    ensures p.protocol.None? ==> Parse(Compose(p)) == Failure(NoProtocol)
    ensures p.protocol.Some? && (p.authority.None? || p.authority.value == "") ==>
              Parse(Compose(p)) == Failure(NoHostname)
  {
    ScanOfCompose(p);
    HostAndPort("", "");
    if p.authority.Some? {
      var a := p.authority.value;
      NoPort(a);
    }
    hide Scan, Compose, Greedy, Hostname, Port, Stoi, ToUnsigned, AddAll, Pairs, Class.All;
  }

  lemma NoPort(authority: string)
    requires NotIn(":").All(authority)
    ensures Hostname(authority) == authority && Port(authority) == Some(0)
  {
    LeadingIs(authority, "", NotIn(":"));
    assert authority + "" == authority;
  }

  // ----- Parsing what was printed -------------------------------------------------------------

  /** The parts that such a text has. */
  function PartsOf(url: Url, port: string, pairs: seq<Pair>): Parts {
    Parts(Some(url.protocol), Some(url.hostname + port), url.path,
          if pairs == [] then None else Some(JoinText(pairs)), None)
  }

  lemma TextIsComposed(url: Url, port: string, order: seq<string>)
    requires Parsed(url) && forall key :: key in order ==> key in url.parameters
    ensures Compose(PartsOf(url, port, Listed(url.parameters, order))) == TextWith(url, port, order)
  {
    hide JoinText, Listed, Class.All, Word, ParametersText;
    var pairs := Listed(url.parameters, order);
    var a, b, c := url.hostname + port, url.path, ParametersText(pairs);
    QueryPart(url, port, pairs);
    hide FromQuery;
    assert FromAuthority(PartsOf(url, port, pairs)) == "//" + a + (b + c);
    assert TextWith(url, port, order) == url.protocol + "://" + url.hostname + port + b + "" + c;
    hide FromAuthority, TextWith, PartsOf;
    Associate(url.protocol, url.hostname, port, b, c);
  }

  lemma QueryPart(url: Url, port: string, pairs: seq<Pair>)
    ensures FromQuery(PartsOf(url, port, pairs)) == ParametersText(pairs)
  {
    hide JoinText;
  }

  lemma Associate(a: string, b: string, c: string, d: string, e: string)
    ensures a + ":" + ("//" + (b + c) + (d + e)) == a + "://" + b + c + d + "" + e
  {
    assert a + "://" == a + ":" + "//";
  }

  lemma DecimalIsPortPart(n: nat)
    ensures PortPart(":" + Decimal(n)) && PortPart(":-" + Decimal(n)) && PortPart("")
  {
    assert forall c :: Digit.Has(c) ==> NotIn("/?#").Has(c);
  }

  lemma {:induction false} JoinHasNoHash(pairs: seq<Pair>)
    requires Words(pairs)
    ensures NotIn("#").All(JoinText(pairs))
  {
    if pairs == [] {
    } else {
      WordHasNoHash(pairs[0].0);
      WordHasNoHash(pairs[0].1);
      JoinHasNoHash(pairs[1..]);
    }
  }

  lemma WordHasNoHash(s: string)
    requires Word(s)
    ensures NotIn("#").All(s)
  {
    assert forall c :: Alnum.Has(c) ==> NotIn("#").Has(c);
  }

  lemma PartsMatch(url: Url, port: string, pairs: seq<Pair>)
    requires Parsed(url) && Words(pairs) && PortPart(port)
    ensures Matches(PartsOf(url, port, pairs)) && Greedy(PartsOf(url, port, pairs))
  {
    hide JoinText, Compose, FromAuthority, FromQuery, Protocol, Word;
    JoinHasNoHash(pairs);
    AllConcat(url.hostname, port, NotIn("/?#"));
  }

  lemma ListedWords(url: Url, order: seq<string>)
    requires Parsed(url) && forall key :: key in order ==> key in url.parameters
    ensures Words(Listed(url.parameters, order))
  {
  }

  /** Such a text parses to the URL with the port that its port part says. */
  lemma ParseOfTextWith(url: Url, port: string, order: seq<string>)
    requires Parsed(url) && PortPart(port) && Enumerates(order, url.parameters.Keys)
    ensures Parse(TextWith(url, port, order))
         == match Port(url.hostname + port)
            case Some(n) => Success(url.(port := n))
            case None => Failure(InvalidPort)
  {
    hide *;
    KeysAreIn(order, url.parameters);
    var pairs := Listed(url.parameters, order);
    ListedWords(url, order);
    PartsMatch(url, port, pairs);
    TextIsComposed(url, port, order);
    ScanOfCompose(PartsOf(url, port, pairs));
    ParsedHostname(url);
    HostAndPort(url.hostname, port);
    PairsOfJoin(pairs);
    NoPairs();
    AddAllOfListed(url.parameters, order);
    ParseOfParts(TextWith(url, port, order), url, port, pairs);
  }

  lemma PortOfText(hostname: string, port: nat)
    requires NotIn(":/?#").All(hostname)
    ensures PortPart(PortText(port))
    ensures Port(hostname + PortText(port)) == if port <= INT_MAX then Some(port) else None
  {
    hide Stoi, Decimal, Port;
    DecimalIsPortPart(port);
    HostAndPort(hostname, PortText(port));
    StoiOfDecimal(port);
    assert (":" + Decimal(port))[1..] == Decimal(port);
  }

  /**
   * Printing and parsing again: for every URL that parsing can return, in whatever order its
   * parameters are printed, the text parses to the same URL exactly if the port fits an `int`; a
   * larger one is not a valid port.
   */
  lemma ParseOfText(url: Url, order: seq<string>)
    requires Parsed(url) && Enumerates(order, url.parameters.Keys)
    ensures Parse(Text(url, order)) == if url.port <= INT_MAX then Success(url) else Failure(InvalidPort)
  {
    hide Parse, TextWith, PortText, Port, Parsed, Enumerates, Class.All;
    ParsedHostname(url);
    PortOfText(url.hostname, url.port);
    ParseOfTextWith(url, PortText(url.port), order);
  }

  // ----- Printing what was built --------------------------------------------------------------

  /**
   * The URLs that a caller can build without breaking the syntax: the path need not be absolute, and
   * there may be a query.
   */
  ghost predicate Printable(url: Url) {
    && Parsed(url.(path := "", query := ""))
    && NotIn("?#").All(url.path) && NotIn("?#").All(url.query)
  }

  /** The path that is read back: absolute, and with the query behind it. */
  function PathReadBack(url: Url): string {
    var path := if url.path == "" || url.path[0] == '/' then url.path else "/" + url.path;
    if url.query == "" then path else path + "/" + url.query
  }

  lemma PathReadBackIsParsed(url: Url)
    requires Printable(url)
    ensures Parsed(url.(path := PathReadBack(url), query := ""))
  {
    hide Word;
    var path := PathReadBack(url);
    forall i | 0 <= i < |path| ensures NotIn("?#").Has(path[i]) {
      assert NotIn("?#").Has('/');
    }
  }

  /** What was built is printed so that it parses to the same URL, but for its path, which takes up the query. */
  lemma ParseOfBuilt(url: Url, order: seq<string>)
    requires Printable(url) && Enumerates(order, url.parameters.Keys)
    ensures Parse(Text(url, order))
         == if url.port <= INT_MAX then Success(url.(path := PathReadBack(url), query := ""))
            else Failure(InvalidPort)
  {
    var url' := url.(path := PathReadBack(url), query := "");
    PathReadBackIsParsed(url);
    KeysAreIn(order, url.parameters);
    var front := url.protocol + "://" + url.hostname + PortText(url.port);
    assert PathText(url'.path) + QueryText(url'.query) == PathText(url.path) + QueryText(url.query);
    ConcatAssociates(front, PathText(url.path), QueryText(url.query));
    ConcatAssociates(front, PathText(url'.path), QueryText(url'.query));
    hide Parse, Parsed, PortText, PathText, QueryText, Enumerates;
    assert Text(url, order) == Text(url', order);
    ParseOfText(url', order);
  }

  /** Pairs of words whose keys differ. */
  ghost predicate DistinctWords(pairs: seq<Pair>) {
    Words(pairs) && forall i, j :: 0 <= i < j < |pairs| ==> pairs[i].0 != pairs[j].0
  }

  /** A host, or a host and a port in decimal digits without leading zeros. */
  ghost predicate PlainAuthority(authority: string) {
    || NotIn(":").All(authority)
    || exists host, n: nat :: n > 0 && NotIn(":").All(host) && authority == host + (":" + Decimal(n))
  }

  /** Parameters with different keys joined by '&', and nothing else. */
  ghost predicate PlainQuery(query: string) {
    exists pairs :: pairs != [] && DistinctWords(pairs) && query == JoinText(pairs)
  }

  /** What printing makes: host and port, parameters, and no fragment. */
  ghost predicate PlainText(s: string) {
    Scan(s).Some? && Plain(Scan(s).value)
  }

  ghost predicate Plain(p: Parts) {
    && p.authority.Some? && PlainAuthority(p.authority.value)
    && (p.query.Some? ==> PlainQuery(p.query.value))
    && p.fragment.None?
  }

  /** The order in which the keys occur. */
  function KeysOf(pairs: seq<Pair>): (keys: seq<string>)
    ensures |keys| == |pairs|
  {
    seq(|pairs|, i requires 0 <= i < |pairs| => pairs[i].0)
  }

  lemma KeysEnumerate(pairs: seq<Pair>)
    requires DistinctWords(pairs)
    ensures var m := AddAll(map[], pairs);
            Enumerates(KeysOf(pairs), m.Keys) && (forall key :: key in KeysOf(pairs) ==> key in m)
            && Listed(m, KeysOf(pairs)) == pairs
  {
    hide Word;
    var m, keys := AddAll(map[], pairs), KeysOf(pairs);
    forall key ensures key in keys <==> key in m {
      AddAllIs(map[], pairs, key);
      if i :| 0 <= i < |pairs| && pairs[i].0 == key {
        assert keys[i] == key;
      }
    }
    forall i | 0 <= i < |pairs| ensures Listed(m, keys)[i] == pairs[i] {
      LastValueStays(map[], pairs, i);
    }
  }

  lemma PortOfPlain(authority: string, url: Url)
    requires PlainAuthority(authority) && NotIn("/?#").All(authority)
    requires Port(authority) == Some(url.port) && Hostname(authority) == url.hostname
    ensures authority == url.hostname + PortText(url.port)
  {
    hide Port, Hostname, Class.All, Decimal;
    if NotIn(":").All(authority) {
      NoPort(authority);
      assert authority + "" == authority;
    } else {
      var host, n: nat :| n > 0 && NotIn(":").All(host) && authority == host + (":" + Decimal(n));
      PortOfDecimal(host, n);
    }
  }

  lemma PortOfDecimal(host: string, n: nat)
    requires NotIn(":").All(host) && NotIn("/?#").All(host + (":" + Decimal(n)))
    ensures Hostname(host + (":" + Decimal(n))) == host
    ensures Port(host + (":" + Decimal(n))) == if n <= INT_MAX then Some(n) else None
  {
    var port := ":" + Decimal(n);
    hide *;
    DecimalIsPortPart(n);
    AllConcat(host, port, NotIn("/?#"));
    HostOnly(host);
    HostAndPort(host, port);
    NotSigned(n);
    assert port[1..] == Decimal(n);
    StoiOfDecimal(n);
  }

  lemma NotSigned(n: nat)
    ensures n <= INT_MAX ==> ToUnsigned(n) == n
  {
  }

  lemma HostOnly(host: string)
    requires NotIn(":").All(host) && NotIn("/?#").All(host)
    ensures NotIn(":/?#").All(host)
  {
  }

  /** The pairs of a query, in the order in which they stand there. */
  lemma PlainPairs(p: Parts) returns (pairs: seq<Pair>)
    requires p.query.Some? ==> PlainQuery(p.query.value)
    ensures DistinctWords(pairs) && Pairs(Group(p.query)) == pairs
    ensures p.query == if pairs == [] then None else Some(JoinText(pairs))
  {
    hide Pairs, JoinText, Words;
    NoPairs();
    if p.query.None? {
      pairs := [];
      assert DistinctWords(pairs) by { NoWords(); }
    } else {
      pairs :| pairs != [] && DistinctWords(pairs) && p.query.value == JoinText(pairs);
      PairsOfJoin(pairs);
    }
  }

  lemma NoWords()
    ensures Words([])
  {
  }

  /** What a plain text parses to is printed as that text, its parameters in the order in which they stood. */
  lemma PlainPrintsBack(s: string, url: Url) returns (order: seq<string>)
    requires Parse(s) == Success(url) && Plain(Scan(s).value)
    ensures Enumerates(order, url.parameters.Keys) && (forall key :: key in order ==> key in url.parameters)
    ensures Text(url, order) == s
  {
    var p := Scan(s).value;
    ScanIsGreedy(s);
    ParseIsParsed(s);
    var pairs := PlainPairs(p);
    hide Scan, Compose, Greedy, Hostname, Port, Pairs, AddAll, Parsed, JoinText, Class.All, DistinctWords;
    hide PlainAuthority, PlainQuery, TextWith, PortText, Enumerates, Listed;
    order := KeysOf(pairs);
    KeysEnumerate(pairs);
    PortOfPlain(p.authority.value, url);
    TextIsComposed(url, PortText(url.port), order);
    assert p == PartsOf(url, PortText(url.port), pairs);
  }

  lemma PrintedIsPlain(url: Url, order: seq<string>)
    requires Parsed(url) && Enumerates(order, url.parameters.Keys)
    ensures Scan(Text(url, order)).Some? && Plain(Scan(Text(url, order)).value)
  {
    KeysAreIn(order, url.parameters);
    var pairs := Listed(url.parameters, order);
    ListedWords(url, order);
    assert DistinctWords(pairs);
    hide *;
    ParsedHostname(url);
    PortOfText(url.hostname, url.port);
    PartsMatch(url, PortText(url.port), pairs);
    TextIsComposed(url, PortText(url.port), order);
    ScanOfCompose(PartsOf(url, PortText(url.port), pairs));
    HostIsPlain(url);
    PartsArePlain(url, PortText(url.port), pairs);
    TextIs(url, order);
  }

  lemma TextIs(url: Url, order: seq<string>)
    requires forall key :: key in order ==> key in url.parameters
    ensures Text(url, order) == TextWith(url, PortText(url.port), order)
  {
  }

  lemma HostIsPlain(url: Url)
    requires NotIn(":/?#").All(url.hostname)
    ensures PlainAuthority(url.hostname + PortText(url.port))
  {
    assert NotIn(":").All(url.hostname);
    hide Class.All, Decimal;
    assert url.hostname + "" == url.hostname;
  }

  lemma PartsArePlain(url: Url, port: string, pairs: seq<Pair>)
    requires PlainAuthority(url.hostname + port) && DistinctWords(pairs)
    ensures Plain(PartsOf(url, port, pairs))
  {
    hide PlainAuthority, DistinctWords, JoinText;
  }

  /**
   * Parsing and printing again: a text that parses is printed as it was, for some order of its
   * parameters, exactly if it has no fragment, its parameters are joined by '&' and have different keys,
   * and its port, if there is one, is not 0 and is written as it would be printed.
   */
  lemma PrintsBackExactlyIf(s: string, url: Url)
    ensures Parse(s) == Success(url) ==> (PlainText(s) <==> exists order :: PrintsAs(url, order, s))
  {
    hide Parse, Plain, Text, Enumerates, Parsed;
    if Parse(s) == Success(url) {
      ParseIsParsed(s);
      if PlainText(s) {
        var order := PlainPrintsBack(s, url);
        assert PrintsAs(url, order, s);
      }
      if order :| PrintsAs(url, order, s) {
        PrintedIsPlain(url, order);
      }
    }
  }

  /** With its parameters in this order, the URL is printed as this text. */
  ghost predicate PrintsAs(url: Url, order: seq<string>, s: string) {
    && Enumerates(order, url.parameters.Keys)
    && (forall key :: key in order ==> key in url.parameters)
    && Text(url, order) == s
  }

  /** A text for any port: one that does not fit an `int` is that of a negative number. */
  function SignedPortText(port: nat): string
    requires port < UINT_RANGE
  {
    if port <= INT_MAX then PortText(port) else ":-" + Decimal(UINT_RANGE - port)
  }

  /** With its port so written, every such URL is what some text parses to. */
  lemma ParseOfSignedText(url: Url, order: seq<string>)
    requires Parsed(url) && Enumerates(order, url.parameters.Keys)
    ensures Parse(TextWith(url, SignedPortText(url.port), order)) == Success(url)
  {
    hide Parse, TextWith, Enumerates, Class.All, Word, Stoi, Decimal, Port;
    ParsedHostname(url);
    var port := SignedPortText(url.port);
    if url.port <= INT_MAX {
      PortOfText(url.hostname, url.port);
    } else {
      var n := UINT_RANGE - url.port;
      DecimalIsPortPart(n);
      HostAndPort(url.hostname, port);
      assert port[1..] == "-" + Decimal(n);
      StoiOfNegative(n);
    }
    ParseOfTextWith(url, port, order);
  }

  /** So there are URLs that are parsed, and printed as a text that is not: a port of -1 is one. */
  lemma SomePortIsNotReadBack() returns (s: string, url: Url)
    ensures s == "a://b:-1" && Parse(s) == Success(url) && Parse(Text(url, [])) == Failure(InvalidPort)
  {
    url := Url("a", "b", UINT_RANGE - 1, "", "", map[]);
    s := TextWith(url, SignedPortText(url.port), []);
    assert Parsed(url) && Enumerates([], url.parameters.Keys);
    assert Decimal(1) == "1" && ParametersText(Listed(url.parameters, [])) == "";
    assert s == "a" + "://" + "b" + ":-1" + "" + "" + "" == "a://b:-1";
    hide *;
    ParseOfSignedText(url, []);
    ParseOfText(url, []);
  }

  /** The URLs that parsing returns are exactly these, those with a port that is not read back included. */
  lemma ParsedExactlyIf(url: Url)
    ensures Parsed(url) <==> exists s :: Parse(s) == Success(url)
  {
    hide Parse, Parsed, TextWith, SignedPortText;
    if Parsed(url) {
      var order := SomeOrder(url.parameters.Keys);
      KeysAreIn(order, url.parameters);
      ParseOfSignedText(url, order);
    }
    if s :| Parse(s) == Success(url) {
      ParseIsParsed(s);
    }
  }

  lemma KeysAreIn(order: seq<string>, m: map<string, string>)
    requires Enumerates(order, m.Keys)
    ensures forall key :: key in order ==> key in m
  {
  }

  lemma ParsedHostname(url: Url)
    requires Parsed(url)
    ensures NotIn(":/?#").All(url.hostname) && url.hostname != "" && url.protocol != "" && url.query == ""
  {
  }

  lemma ParseOfParts(s: string, url: Url, port: string, pairs: seq<Pair>)
    requires url.hostname != "" && url.protocol != "" && url.query == ""
    ensures && Scan(s) == Some(PartsOf(url, port, pairs)) && Hostname(url.hostname + port) == url.hostname
            && Pairs(JoinText(pairs)) == pairs && Pairs("") == [] && AddAll(map[], pairs) == url.parameters
        ==> Parse(s) == match Port(url.hostname + port)
                        case Some(n) => Success(url.(port := n))
                        case None => Failure(InvalidPort)
  {
    hide Scan, Hostname, Port, Pairs, JoinText, AddAll;
  }

  /** The same for any text that parses: parse, print, parse gives the URL of the first parse. */
  lemma ParseTextParse(s: string, url: Url, order: seq<string>)
    requires Enumerates(order, url.parameters.Keys)
    ensures Parse(s) == Success(url) ==> (Parse(Text(url, order)) == Parse(s) <==> url.port <= INT_MAX)
  {
    hide Parse, Parsed, Text;
    if Parse(s) == Success(url) {
      ParseIsParsed(s);
      ParseOfText(url, order);
    }
  }

  /** Two printed texts, in whatever orders, parse alike exactly if the URLs are the same. */
  lemma TextIdentifies(u: Url, v: Url, uOrder: seq<string>, vOrder: seq<string>)
    requires Parsed(u) && Enumerates(uOrder, u.parameters.Keys) && u.port <= INT_MAX
    requires Parsed(v) && Enumerates(vOrder, v.parameters.Keys) && v.port <= INT_MAX
    ensures Parse(Text(u, uOrder)) == Parse(Text(v, vOrder)) <==> u == v
  {
    hide Parse, Parsed, Text;
    ParseOfText(u, uOrder);
    ParseOfText(v, vOrder);
  }

  // ----- The code -----------------------------------------------------------------------------

  /** `UrlBuilder`. */
  class UrlBuilder {
    var url: Url

    constructor ()
      ensures url == EMPTY_URL
    {
      url := EMPTY_URL;
    }

    method SetProtocol(protocol: string)
      modifies this
      ensures url == old(url).(protocol := protocol)
    {
      url := url.(protocol := protocol);
    }

    method SetHostname(hostname: string)
      modifies this
      ensures url == old(url).(hostname := hostname)
    {
      url := url.(hostname := hostname);
    }

    method SetPort(port: nat)
      modifies this
      ensures url == old(url).(port := port)
    {
      url := url.(port := port);
    }

    method SetPath(path: string)
      modifies this
      ensures url == old(url).(path := path)
    {
      url := url.(path := path);
    }

    method SetQuery(query: string)
      modifies this
      ensures url == old(url).(query := query)
    {
      url := url.(query := query);
    }

    method AddParameter(key: string, value: string)
      modifies this
      ensures url == old(url).(parameters := old(url).parameters[key := value])
    {
      url := url.(parameters := url.parameters[key := value]);
    }

    /** The loop over the query: it stops because what is left gets shorter. */
    method AddParameters(query: string)
      modifies this
      ensures url == old(url).(parameters := AddAll(old(url).parameters, Pairs(query)))
    {
      hide Search, KeyValue;
      var parameters := query;
      var match_ := Search(parameters);
      while match_.Some?
        invariant match_ == Search(parameters)
        invariant url == old(url).(parameters := url.parameters)
        invariant AddAll(url.parameters, Pairs(parameters)) == AddAll(old(url).parameters, Pairs(query))
        decreases |parameters|
      {
        var (at, n) := match_.value;
        var (key, value) := KeyValue(parameters[at..at + n]);
        assert Pairs(parameters) == [(key, value)] + Pairs(parameters[at + n..]);
        AddParameter(key, value);
        parameters := parameters[at + n..];
        match_ := Search(parameters);
      }
    }

    method BuildUrl() returns (r: Result<Url, Malformed>)
      ensures r == Build(url)
    {
      if url.protocol == "" {
        return Failure(NoProtocol);
      }
      if url.hostname == "" {
        return Failure(NoHostname);
      }
      return Success(url);
    }
  }

  method ParseUrl(s: string) returns (r: Result<Url, Malformed>)
    ensures r == Parse(s)
  {
    hide Scan, Stoi, Pairs, AddAll;
    var parts := Scan(s);
    if parts.None? {
      return Failure(CannotParse);
    }
    var builder := new UrlBuilder();
    builder.SetProtocol(Group(parts.value.protocol));
    var hostport := Group(parts.value.authority);
    var sep := Leading(hostport, NotIn(":"));
    if sep == |hostport| {
      assert hostport[..sep] == hostport;
      builder.SetHostname(hostport);
    } else {
      builder.SetHostname(hostport[..sep]);
      var port := Stoi(hostport[sep + 1..]);
      if port.None? {
        return Failure(InvalidPort);
      }
      builder.SetPort(ToUnsigned(port.value));
    }
    builder.SetPath(parts.value.path);
    builder.AddParameters(Group(parts.value.query));
    r := builder.BuildUrl();
  }

  /** The part of `toString` before the parameters. */
  method FrontToString(url: Url) returns (str: string)
    ensures str == url.protocol + "://" + url.hostname + PortText(url.port) + PathText(url.path) + QueryText(url.query)
  {
    hide Decimal;
    str := url.protocol + "://" + url.hostname;
    if url.port != 0 {
      str := str + (":" + Decimal(url.port));
    }
    assert str == url.protocol + "://" + url.hostname + PortText(url.port);
    var path := url.path;
    if path != "" && path[0] != '/' {
      path := "/" + path;
    }
    str := str + path;
    if url.query != "" {
      str := str + ("/" + url.query);
    }
  }

  /** The loop of `toString`. */
  method AppendParameters(parameters: map<string, string>, order: seq<string>, front: string) returns (str: string)
    requires forall key :: key in order ==> key in parameters
    ensures str == front + ParametersText(Listed(parameters, order))
  {
    hide JoinText, PairText;
    str := front;
    ghost var pairs := Listed(parameters, order);
    if order != [] {
      str := str + ("?" + PairText((order[0], parameters[order[0]])));
      JoinOfOne(pairs);
      for i := 1 to |order|
        invariant str == front + ("?" + JoinText(pairs[..i]))
      {
        JoinTextAppend(pairs[..i], pairs[i]);
        assert pairs[..i] + [pairs[i]] == pairs[..i + 1];
        str := str + ("&" + PairText((order[i], parameters[order[i]])));
      }
      assert pairs[..|order|] == pairs;
    }
  }

  method ToString(url: Url, order: seq<string>) returns (str: string)
    requires Enumerates(order, url.parameters.Keys)
    ensures str == Text(url, order)
  {
    str := FrontToString(url);
    str := AppendParameters(url.parameters, order, str);
  }

  lemma JoinOfOne(pairs: seq<Pair>)
    requires pairs != []
    ensures JoinText(pairs[..1]) == PairText(pairs[0])
  {
  }
}
