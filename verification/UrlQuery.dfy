/** The query of a URL: the loop that picks the parameters out of it, and how they are printed. */
module UrlQuery {
  import opened Common
  import opened UrlScan

  type Pair = (string, string)

  /** The length of one parameter at the front, letters and digits on both sides of '='; 0 if there is none. */
  function ParamLength(s: string): (n: nat)
    ensures n <= |s|
  {
    var k := Leading(s, Alnum);
    if k == 0 || k == |s| || s[k] != '=' then 0
    else
      var v := Leading(s[k + 1..], Alnum);
      if v == 0 then 0 else k + 1 + v
  }

  /**
   * `std::regex_search`: where the leftmost match begins, and its length. The repetition in the pattern
   * adds nothing, by `MatchIsOneParam` below.
   */
  function Search(s: string): (r: Option<(nat, nat)>)
    ensures r.Some? ==> r.value.1 > 0 && r.value.0 + r.value.1 <= |s|
  {
    if ParamLength(s) > 0 then Some((0, ParamLength(s)))
    else if s == "" then None
    else match Search(s[1..])
         case None => None
         case Some((at, n)) => Some((at + 1, n))
  }

  function KeyValue(kv: string): Pair {
    var sep := Leading(kv, NotIn("="));
    (kv[..sep], if sep < |kv| then kv[sep + 1..] else "")
  }

  /** The parameters in the order in which the loop finds them. */
  function Pairs(s: string): seq<Pair>
    decreases |s|
  {
    match Search(s)
    case None => []
    case Some((at, n)) => [KeyValue(s[at..at + n])] + Pairs(s[at + n..])
  }

  /** `addParameter` for each of them: a later value replaces an earlier one. */
  function AddAll(m: map<string, string>, pairs: seq<Pair>): map<string, string>
    decreases |pairs|
  {
    if pairs == [] then m else AddAll(m[pairs[0].0 := pairs[0].1], pairs[1..])
  }

  predicate Word(s: string) {
    s != "" && Alnum.All(s)
  }

  ghost predicate Words(pairs: seq<Pair>) {
    forall i :: 0 <= i < |pairs| ==> Word(pairs[i].0) && Word(pairs[i].1)
  }

  function PairText(p: Pair): string {
    p.0 + "=" + p.1
  }

  // ----- The repetition in the pattern --------------------------------------------------------

  /*
   * The pattern is one or more parameters directly after another. Backtracking tries the longest
   * key, value and repetition first; these are its matches in the order in which it tries them.
   */

  /** A key of `k` characters, and a value of `v` or fewer. */
  function WithValue(k: nat, v: nat): seq<nat> {
    if v == 0 then [] else [k + 1 + v] + WithValue(k, v - 1)
  }

  /** A key of `k` or fewer characters. */
  function WithKey(s: string, k: nat): seq<nat>
    requires k <= |s|
  {
    if k == 0 then []
    else (if k < |s| && s[k] == '=' then WithValue(k, Leading(s[k + 1..], Alnum)) else []) + WithKey(s, k - 1)
  }

  /** One repetition of these lengths, or more. */
  function Repeated(s: string, lengths: seq<nat>): seq<nat>
    decreases |s|, 0, |lengths|
  {
    if lengths == [] then []
    else
      var n := lengths[0];
      (if 0 < n <= |s| then Longer(n, Alternatives(s[n..])) else []) + [n] + Repeated(s, lengths[1..])
  }

  function Longer(n: nat, lengths: seq<nat>): seq<nat> {
    if lengths == [] then [] else [n + lengths[0]] + Longer(n, lengths[1..])
  }

  /** All matches of the pattern at the front, the first of which is the one that is taken. */
  function Alternatives(s: string): seq<nat>
    decreases |s|, 1
  {
    Repeated(s, WithKey(s, Leading(s, Alnum)))
  }

  lemma {:induction false} ShorterKeysFail(s: string, k: nat)
    requires k <= |s| && Alnum.All(s[..k])
    requires k < |s| ==> s[k] != '='
    ensures WithKey(s, k) == []
  {
    if k == 0 {
    } else {
      assert Alnum.Has(s[..k][k - 1]);
      ShorterKeysFail(s, k - 1);
    }
  }

  /**
   * The match that is taken is a single parameter: after the longest one no second can begin, and
   * what backtracking would try later, even if it is longer, is not tried.
   */
  lemma MatchIsOneParam(s: string)
    ensures Alternatives(s) == [] <==> ParamLength(s) == 0
    ensures Alternatives(s) != [] ==> Alternatives(s)[0] == ParamLength(s)
  {
    OneKey(s);
    hide WithKey, WithValue, Leading;
    var n := ParamLength(s);
    if n > 0 {
      AfterParam(s);
      NoSecondParam(s[n..]);
    }
  }

  /** Only the longest key can be followed by '='. */
  lemma OneKey(s: string)
    ensures var ks := WithKey(s, Leading(s, Alnum));
            if ParamLength(s) == 0 then ks == [] else ks != [] && ks[0] == ParamLength(s)
  {
    hide Leading, WithKey, WithValue, Class.Has, Class.All;
    var k := Leading(s, Alnum);
    KeysOf(s, k);
    if k > 0 {
      ShorterKey(s, k);
      if k == |s| || s[k] != '=' {
        ShorterKeysFail(s, k);
      } else {
        ShorterKeysFail(s, k - 1);
        ValuesOf(k, Leading(s[k + 1..], Alnum));
      }
    }
  }

  lemma KeysOf(s: string, k: nat)
    requires k <= |s|
    ensures k == 0 ==> WithKey(s, k) == []
    ensures 0 < k < |s| && s[k] == '=' ==>
              WithKey(s, k) == WithValue(k, Leading(s[k + 1..], Alnum)) + WithKey(s, k - 1)
  {
    hide Leading, WithValue;
  }

  lemma ValuesOf(k: nat, v: nat)
    ensures if v == 0 then WithValue(k, v) == [] else WithValue(k, v) != [] && WithValue(k, v)[0] == k + 1 + v
  {
  }

  lemma ShorterKey(s: string, k: nat)
    requires 0 < k <= |s| && Alnum.All(s[..k])
    ensures Alnum.All(s[..k - 1]) && s[k - 1] != '='
  {
    assert Alnum.Has(s[..k][k - 1]);
    assert s[..k] == s[..k - 1] + [s[k - 1]];
    AllConcat(s[..k - 1], [s[k - 1]], Alnum);
  }

  lemma AfterParam(s: string)
    requires ParamLength(s) > 0
    ensures var rest := s[ParamLength(s)..]; rest == "" || !Alnum.Has(rest[0])
  {
    var k := Leading(s, Alnum);
    var v := Leading(s[k + 1..], Alnum);
    assert s[k + 1..][v..] == s[ParamLength(s)..];
  }

  lemma NoSecondParam(s: string)
    requires s == "" || !Alnum.Has(s[0])
    ensures Alternatives(s) == []
  {
  }

  // ----- What the search finds ----------------------------------------------------------------

  /** `s` begins with a parameter of `n` characters. */
  ghost predicate BeginsWithParam(s: string, n: nat) {
    n <= |s| && exists p: Pair {:trigger PairText(p)} :: Word(p.0) && Word(p.1) && s[..n] == PairText(p)
  }

  /** It is the longest single parameter at the front, and there is one if any exists. */
  lemma ParamLengthIsLongest(s: string, n: nat)
    ensures ParamLength(s) > 0 ==> BeginsWithParam(s, ParamLength(s))
    ensures BeginsWithParam(s, n) ==> n <= ParamLength(s)
  {
    if ParamLength(s) > 0 {
      var k := Leading(s, Alnum);
      var v := Leading(s[k + 1..], Alnum);
      var p := (s[..k], s[k + 1..][..v]);
      assert s[..ParamLength(s)] == PairText(p);
    }
    if BeginsWithParam(s, n) {
      var p: Pair :| Word(p.0) && Word(p.1) && s[..n] == PairText(p);
      FrontOfParam(p, s[n..]);
      assert s == PairText(p) + s[n..];
    }
  }

  lemma ParamLengthIs(a: string, tail: string)
    requires Word(a)
    ensures var v := Leading(tail, Alnum);
            ParamLength(a + ("=" + tail)) == if v == 0 then 0 else |a| + 1 + v
  {
    hide Leading;
    var s := a + ("=" + tail);
    LeadingIs(a, "=" + tail, Alnum);
    assert s[|a|] == '=' && s[|a| + 1..] == tail;
  }

  lemma FrontOfParam(p: Pair, rest: string)
    requires Word(p.0) && Word(p.1)
    ensures ParamLength(PairText(p) + rest) >= |PairText(p)|
    ensures rest == "" || !Alnum.Has(rest[0]) ==> ParamLength(PairText(p) + rest) == |PairText(p)|
  {
    hide Leading, ParamLength, Class.Has;
    assert PairText(p) + rest == p.0 + ("=" + (p.1 + rest));
    ParamLengthIs(p.0, p.1 + rest);
    LeadingAtLeast(p.1, rest, Alnum);
    if rest == "" || !Alnum.Has(rest[0]) {
      LeadingIs(p.1, rest, Alnum);
    }
  }

  lemma {:induction false} LeadingAtLeast(a: string, b: string, class_: Class)
    requires class_.All(a)
    ensures Leading(a + b, class_) >= |a|
  {
    if a == "" {
    } else {
      assert (a + b)[1..] == a[1..] + b;
      LeadingAtLeast(a[1..], b, class_);
    }
  }

  /** The search returns the leftmost parameter, at its full length, and nothing only if there is none. */
  lemma {:induction false} SearchIsLeftmost(s: string, i: nat, n: nat)
    requires i <= |s| && BeginsWithParam(s[i..], n)
    ensures Search(s).Some? && Search(s).value.0 <= i
    ensures BeginsWithParam(s[Search(s).value.0..], Search(s).value.1)
    ensures i == Search(s).value.0 ==> n <= Search(s).value.1
  {
    hide BeginsWithParam, ParamLength;
    assert s[0..] == s;
    ParamLengthIsLongest(s, n);
    if ParamLength(s) > 0 {
    } else {
      if i == 0 {
        EmptyIsNoParam(s);
        assert false;
      }
      assert s[i..] == s[1..][i - 1..];
      SearchIsLeftmost(s[1..], i - 1, n);
      assert s[1..][Search(s[1..]).value.0..] == s[Search(s).value.0..];
    }
  }

  lemma EmptyIsNoParam(s: string)
    ensures !BeginsWithParam(s, 0)
  {
  }

  // ----- Reading what was printed -------------------------------------------------------------

  /** The parameters joined by '&'. */
  function JoinText(pairs: seq<Pair>): string {
    if pairs == [] then ""
    else if |pairs| == 1 then PairText(pairs[0])
    else PairText(pairs[0]) + "&" + JoinText(pairs[1..])
  }

  lemma {:induction false} JoinTextAppend(pairs: seq<Pair>, p: Pair)
    requires pairs != []
    ensures JoinText(pairs + [p]) == JoinText(pairs) + "&" + PairText(p)
  {
    if |pairs| <= 1 {
    } else {
      assert (pairs + [p])[1..] == pairs[1..] + [p];
      JoinTextAppend(pairs[1..], p);
    }
  }

  lemma KeyValueOfText(p: Pair)
    requires Word(p.0) && Word(p.1)
    ensures KeyValue(PairText(p)) == p
  {
    assert PairText(p) == p.0 + ("=" + p.1);
    LeadingIs(p.0, "=" + p.1, NotIn("="));
  }

  lemma PairsOfMore(p: Pair, rest: string)
    requires Word(p.0) && Word(p.1) && (rest == "" || rest[0] == '&')
    ensures Pairs(PairText(p) + rest) == [p] + Pairs(rest)
  {
    hide ParamLength, KeyValue;
    var s, n := PairText(p) + rest, |PairText(p)|;
    FrontOfParam(p, rest);
    KeyValueOfText(p);
    assert Search(s) == Some((0, n));
    assert s[0..0 + n] == PairText(p) && s[0 + n..] == rest;
  }

  lemma SearchAfterAmpersand(s: string)
    ensures match Search(s)
            case None => Search("&" + s) == None
            case Some((at, n)) => Search("&" + s) == Some((at + 1, n))
  {
    var t := "&" + s;
    assert ParamLength(t) == 0;
    hide ParamLength;
    assert t[1..] == s;
  }

  lemma PairsAfterAmpersand(s: string)
    ensures Pairs("&" + s) == Pairs(s)
  {
    hide Search, KeyValue;
    var t := "&" + s;
    SearchAfterAmpersand(s);
    match Search(s) {
      case None =>
      case Some((at, n)) =>
        assert t[at + 1..at + 1 + n] == s[at..at + n] && t[at + 1 + n..] == s[at + n..];
    }
  }

  /** The loop finds the printed parameters again, in the printed order. */
  lemma {:induction false} PairsOfJoin(pairs: seq<Pair>)
    requires Words(pairs)
    ensures Pairs(JoinText(pairs)) == pairs
  {
    hide Pairs, Search, PairText;
    if pairs == [] {
      NoPairs();
    } else if |pairs| == 1 {
      PairsOfMore(pairs[0], "");
      NoPairs();
      assert PairText(pairs[0]) + "" == PairText(pairs[0]);
    } else {
      PairsOfJoin(pairs[1..]);
      var rest := "&" + JoinText(pairs[1..]);
      PairsAfterAmpersand(JoinText(pairs[1..]));
      PairsOfMore(pairs[0], rest);
      assert PairText(pairs[0]) + "&" + JoinText(pairs[1..]) == PairText(pairs[0]) + rest;
      assert [pairs[0]] + pairs[1..] == pairs;
    }
  }

  lemma NoPairs()
    ensures Pairs("") == []
  {
  }

  lemma FoundAreWords(s: string)
    requires Search(s).Some?
    ensures var (at, n) := Search(s).value;
            Word(KeyValue(s[at..at + n]).0) && Word(KeyValue(s[at..at + n]).1)
  {
    hide Search, KeyValue, Word, PairText;
    FoundIsParam(s);
    var (at, n) := Search(s).value;
    assert s[at..][..n] == s[at..at + n];
    var p: Pair :| Word(p.0) && Word(p.1) && s[at..][..n] == PairText(p);
    KeyValueOfText(p);
  }

  /** Whatever the query, keys and values are words. */
  lemma {:induction false} PairsAreWords(s: string)
    ensures Words(Pairs(s))
    decreases |s|
  {
    hide Search, KeyValue, Word;
    match Search(s) {
      case None =>
      case Some((at, n)) =>
        FoundAreWords(s);
        PairsAreWords(s[at + n..]);
    }
  }

  lemma {:induction false} FoundIsParam(s: string)
    requires Search(s).Some?
    ensures BeginsWithParam(s[Search(s).value.0..], Search(s).value.1)
  {
    hide BeginsWithParam, ParamLength;
    ParamLengthIsLongest(s, 0);
    assert s[0..] == s;
    if ParamLength(s) > 0 {
    } else {
      FoundIsParam(s[1..]);
      assert s[1..][Search(s[1..]).value.0..] == s[Search(s).value.0..];
    }
  }

  // ----- The parameter map --------------------------------------------------------------------

  /** The entries of a map in the order in which it is iterated. */
  function Listed(m: map<string, string>, order: seq<string>): (pairs: seq<Pair>)
    requires forall key :: key in order ==> key in m
    ensures |pairs| == |order|
  {
    seq(|order|, i requires 0 <= i < |order| => (order[i], m[order[i]]))
  }

  lemma {:induction false} AddAllIs(m: map<string, string>, pairs: seq<Pair>, key: string)
    ensures key in AddAll(m, pairs) <==> key in m || exists i :: 0 <= i < |pairs| && pairs[i].0 == key
    ensures (forall i :: 0 <= i < |pairs| ==> pairs[i].0 != key) && key in m ==> AddAll(m, pairs)[key] == m[key]
    decreases |pairs|
  {
    if pairs == [] {
    } else {
      var m' := m[pairs[0].0 := pairs[0].1];
      AddAllIs(m', pairs[1..], key);
      if i :| 0 <= i < |pairs| && pairs[i].0 == key {
        assert i > 0 ==> pairs[1..][i - 1].0 == key;
      }
      if i :| 0 <= i < |pairs[1..]| && pairs[1..][i].0 == key {
        assert pairs[i + 1].0 == key;
      }
    }
  }

  /** The last value given for a key is the one that stays. */
  lemma {:induction false} LastValueStays(m: map<string, string>, pairs: seq<Pair>, i: nat)
    requires i < |pairs| && forall j :: i < j < |pairs| ==> pairs[j].0 != pairs[i].0
    ensures pairs[i].0 in AddAll(m, pairs) && AddAll(m, pairs)[pairs[i].0] == pairs[i].1
    decreases |pairs|
  {
    var m' := m[pairs[0].0 := pairs[0].1];
    if i == 0 {
      assert forall j :: 0 <= j < |pairs[1..]| ==> pairs[1..][j] == pairs[j + 1];
      AddAllIs(m', pairs[1..], pairs[0].0);
    } else {
      LastValueStays(m', pairs[1..], i - 1);
    }
  }

  /** Adding the listed entries gives the map again, whatever the order of the list. */
  lemma AddAllOfListed(m: map<string, string>, order: seq<string>)
    requires Enumerates(order, m.Keys)
    ensures AddAll(map[], Listed(m, order)) == m
  {
    var pairs := Listed(m, order);
    var r := AddAll(map[], pairs);
    forall key ensures key in r <==> key in m {
      AddAllIs(map[], pairs, key);
      if key in m {
        var i :| 0 <= i < |order| && order[i] == key;
        assert pairs[i].0 == key;
      }
    }
    forall key | key in m ensures r[key] == m[key] {
      var i :| 0 <= i < |order| && order[i] == key;
      LastValueStays(map[], pairs, i);
    }
  }

  /** The entries of such a map are words if the pairs it was made of are. */
  lemma {:induction false} AddedAreWords(m: map<string, string>, pairs: seq<Pair>)
    requires Words(pairs) && forall key :: key in m ==> Word(key) && Word(m[key])
    ensures forall key :: key in AddAll(m, pairs) ==> Word(key) && Word(AddAll(m, pairs)[key])
    decreases |pairs|
  {
    if pairs == [] {
    } else {
      AddedAreWords(m[pairs[0].0 := pairs[0].1], pairs[1..]);
    }
  }
}
