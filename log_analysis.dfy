/**
  `parse_log_file`: every line of the log is searched for a failed SSH login; the addresses and
  user names found are counted, the five most frequent of each are kept, and each distinct
  address among the top five is looked up and given its count.

  The file is the sequence of its lines, already decoded. The geolocation service is the
  parameter `lookup`, the answer it gives for each address. The addresses to look up are a
  set, which Python iterates in an order it does not specify; the method picks them in any
  order and returns that order as the ghost `order`, so that what holds for every order can be
  stated.
*/
module LogAnalysis {
  import opened Outcomes
  import opened SshMatcher
  import opened Frequency
  import opened Geolocation

  /** How many entries `most_common` keeps. */
  const TopCount: nat := 5

  /** A location record with the `count` added to it. */
  datatype GeoRecord = GeoRecord(location: Location, count: nat)

  /** The dictionary parse_log_file returns. */
  datatype Report = Report(
    totalFailures: nat,
    topIps: seq<Entry<string>>,
    topUsers: seq<Entry<string>>,
    geoData: seq<GeoRecord>)

  /** The failure records of the lines that match, in line order. */
  function Records(lines: seq<string>): seq<FailureRecord> {
    if lines == [] then []
    else
      var last := Match(lines[|lines| - 1]);
      Records(lines[..|lines| - 1]) + if last.Some? then [last.value] else []
  }

  /** `found_ips`: the address of each record. */
  function Addresses(rs: seq<FailureRecord>): seq<string> {
    seq(|rs|, i requires 0 <= i < |rs| => rs[i].address)
  }

  /** `found_users`: the user name of each record. */
  function Users(rs: seq<FailureRecord>): seq<string> {
    seq(|rs|, i requires 0 <= i < |rs| => rs[i].user)
  }

  /** The indices of the lines the pattern matches. */
  function MatchedLines(lines: seq<string>): set<nat> {
    set i: nat | i < |lines| && Match(lines[i]).Some?
  }

  /** The indices of the lines whose match names address a. */
  function LinesFrom(lines: seq<string>, a: string): set<nat> {
    set i: nat | i < |lines| && Match(lines[i]).Some? && Match(lines[i]).value.address == a
  }

  /** The indices of the lines whose match names user u. */
  function LinesFor(lines: seq<string>, u: string): set<nat> {
    set i: nat | i < |lines| && Match(lines[i]).Some? && Match(lines[i]).value.user == u
  }

  /** `unique_top_ips`: the addresses among the top five. */
  function TopAddresses(lines: seq<string>): set<string> {
    KeySet(TopN(Addresses(Records(lines)), TopCount))
  }

  /**
    The geolocation loop over the addresses in the order given: each address's record with its
    count from the table, stopping at the first lookup that raises.
  */
  function Locate(order: seq<string>, counts: seq<Entry<string>>, lookup: string -> Response): Result<seq<GeoRecord>, LookupError> {
    if order == [] then Success([])
    else
      var ip := order[|order| - 1];
      match Locate(order[..|order| - 1], counts, lookup)
      case Failure(e) => Failure(e)
      case Success(geo) =>
        match Geolocate(ip, lookup(ip))
        case Failure(e) => Failure(e)
        case Success(loc) => Success(geo + [GeoRecord(loc, Lookup(counts, ip))])
  }

  /** What parse_log_file returns for lines when the top addresses are looked up in the given order. */
  function Analysis(lines: seq<string>, lookup: string -> Response, order: seq<string>): Result<Report, LookupError> {
    var ips := Addresses(Records(lines));
    var users := Users(Records(lines));
    match Locate(order, Tally(ips), lookup)
    case Failure(e) => Failure(e)
    case Success(geo) => Success(Report(|ips|, TopN(ips, TopCount), TopN(users, TopCount), geo))
  }

  /** A way to visit the top addresses: each of them once, and nothing else. */
  predicate VisitsAll(lines: seq<string>, order: seq<string>) {
    multiset(order) == multiset(TopAddresses(lines))
  }

  /** One more line: its record, if it matches, comes after those of the lines before it. */
  lemma RecordsSnoc(lines: seq<string>, i: nat)
    requires i < |lines|
    ensures Records(lines[..i + 1]) == Records(lines[..i]) + if Match(lines[i]).Some? then [Match(lines[i]).value] else []
  {
    assert lines[..i + 1][..i] == lines[..i];
  }

  /**
    The loop over the lines of the file: `found_users` and `found_ips` end up holding the user
    name and the address of every matching line, in line order.
  */
  method CollectFailures(lines: seq<string>) returns (foundUsers: seq<string>, foundIps: seq<string>)
    ensures foundIps == Addresses(Records(lines))
    ensures foundUsers == Users(Records(lines))
  {
    foundIps, foundUsers := [], [];
    for i := 0 to |lines|
      invariant foundIps == Addresses(Records(lines[..i]))
      invariant foundUsers == Users(Records(lines[..i]))
    {
      RecordsSnoc(lines, i);
      var m := Match(lines[i]);
      if m.Some? {
        foundUsers := foundUsers + [m.value.user];
        foundIps := foundIps + [m.value.address];
      }
    }
    assert lines[..|lines|] == lines;
  }

  /**
    The loop over `unique_top_ips`: each address is looked up once, in an order the set does
    not fix, and its record gets its count from counts; the first lookup that raises ends the
    loop. The result is Locate of the order taken, which ends at the address that raised; a
    successful loop has taken every address of ips once.
  */
  method LocateAll(ips: set<string>, counts: seq<Entry<string>>, lookup: string -> Response)
    returns (result: Result<seq<GeoRecord>, LookupError>, ghost order: seq<string>)
    ensures result == Locate(order, counts, lookup)
    ensures multiset(order) <= multiset(ips)
    ensures result.Success? ==> multiset(order) == multiset(ips)
    ensures result.Failure? <==> exists ip :: ip in ips && Geolocate(ip, lookup(ip)).Failure?
    ensures result.Failure? ==>
              && order != [] && Geolocate(order[|order| - 1], lookup(order[|order| - 1])).Failure?
              && forall i :: 0 <= i < |order| - 1 ==> Geolocate(order[i], lookup(order[i])).Success?
  {
    var geoData: seq<GeoRecord> := [];
    var remaining := ips;
    order := [];
    while remaining != {}
      invariant remaining <= ips
      invariant multiset(order) + multiset(remaining) == multiset(ips)
      invariant forall ip :: ip in order ==> Geolocate(ip, lookup(ip)).Success?
      invariant Locate(order, counts, lookup) == Success(geoData)
      decreases |remaining|
    {
      var ip :| ip in remaining;
      assert multiset(remaining) == multiset(remaining - {ip}) + multiset{ip};
      remaining := remaining - {ip};
      assert (order + [ip])[..|order|] == order;
      assert forall i :: 0 <= i < |order| ==> (order + [ip])[i] == order[i];
      order := order + [ip];
      var geo := Geolocate(ip, lookup(ip));
      if geo.Failure? {
        result := Failure(geo.error);
        return;
      }
      geoData := geoData + [GeoRecord(geo.value, Lookup(counts, ip))];
    }
    assert multiset(remaining) == multiset{};
    forall ip | ip in ips ensures Geolocate(ip, lookup(ip)).Success? {
      assert ip in multiset(ips);
    }
    result := Success(geoData);
  }

  /**
    `parse_log_file`, on the lines of the file and the answers of the geolocation service.
    The result is the report for the order in which the top addresses were looked up; it is a
    failure exactly when the lookup of some top address raises, and then that address is the
    last one looked up.
  */
  method ParseLogFile(lines: seq<string>, lookup: string -> Response) returns (result: Result<Report, LookupError>, ghost order: seq<string>)
    ensures result == Analysis(lines, lookup, order)
    ensures multiset(order) <= multiset(TopAddresses(lines))
    ensures result.Success? ==> VisitsAll(lines, order)
    ensures result.Failure? <==> exists ip :: ip in TopAddresses(lines) && Geolocate(ip, lookup(ip)).Failure?
    ensures result.Failure? ==>
              && order != [] && Geolocate(order[|order| - 1], lookup(order[|order| - 1])).Failure?
              && forall i :: 0 <= i < |order| - 1 ==> Geolocate(order[i], lookup(order[i])).Success?
  {
    var foundUsers, foundIps := CollectFailures(lines);
    var totalFailures := |foundIps|;
    var ipCounts := Tally(foundIps);
    var top5Ips := MostCommon(ipCounts, TopCount);
    var userCounts := Tally(foundUsers);
    var top5Users := MostCommon(userCounts, TopCount);
    var uniqueTopIps := KeySet(top5Ips);
    var located;
    located, order := LocateAll(uniqueTopIps, ipCounts, lookup);
    match located
    case Failure(e) =>
      result := Failure(e);
    case Success(geoData) =>
      result := Success(Report(totalFailures, top5Ips, top5Users, geoData));
  }

  // ---------------------------------------------------------------------------------------
  // What the report says

  /** `found_ips` and `found_users` after one more record. */
  lemma AddressesSnoc(rs: seq<FailureRecord>, r: FailureRecord)
    ensures Addresses(rs + [r]) == Addresses(rs) + [r.address]
    ensures Users(rs + [r]) == Users(rs) + [r.user]
  {
  }

  /** How many lines match, in terms of all lines but the last. */
  lemma MatchedSnoc(lines: seq<string>)
    requires lines != []
    ensures var n := |lines| - 1;
            |MatchedLines(lines)| == |MatchedLines(lines[..n])| + if Match(lines[n]).Some? then 1 else 0
  {
    var n := |lines| - 1;
    var m := Match(lines[n]);
    var A, B := MatchedLines(lines), MatchedLines(lines[..n]);
    var C: set<nat> := if m.Some? then {n} else {};
    forall i | i in A ensures i in B + C {
      if i < n { assert lines[..n][i] == lines[i]; }
    }
    forall i | i in B + C ensures i in A {
      if i < n { assert lines[..n][i] == lines[i]; }
    }
    assert A == B + C;
    assert n !in B;
  }

  /** How many lines name address a, in terms of all lines but the last. */
  lemma LinesFromSnoc(lines: seq<string>, a: string)
    requires lines != []
    ensures var n := |lines| - 1; var m := Match(lines[n]);
            |LinesFrom(lines, a)| == |LinesFrom(lines[..n], a)| + if m.Some? && m.value.address == a then 1 else 0
  {
    var n := |lines| - 1;
    var m := Match(lines[n]);
    var A, B := LinesFrom(lines, a), LinesFrom(lines[..n], a);
    var C: set<nat> := if m.Some? && m.value.address == a then {n} else {};
    forall i | i in A ensures i in B + C {
      if i < n { assert lines[..n][i] == lines[i]; }
    }
    forall i | i in B + C ensures i in A {
      if i < n { assert lines[..n][i] == lines[i]; }
    }
    assert A == B + C;
    assert n !in B;
  }

  /** How many lines name user u, in terms of all lines but the last. */
  lemma LinesForSnoc(lines: seq<string>, u: string)
    requires lines != []
    ensures var n := |lines| - 1; var m := Match(lines[n]);
            |LinesFor(lines, u)| == |LinesFor(lines[..n], u)| + if m.Some? && m.value.user == u then 1 else 0
  {
    var n := |lines| - 1;
    var m := Match(lines[n]);
    var A, B := LinesFor(lines, u), LinesFor(lines[..n], u);
    var C: set<nat> := if m.Some? && m.value.user == u then {n} else {};
    forall i | i in A ensures i in B + C {
      if i < n { assert lines[..n][i] == lines[i]; }
    }
    forall i | i in B + C ensures i in A {
      if i < n { assert lines[..n][i] == lines[i]; }
    }
    assert A == B + C;
    assert n !in B;
  }

  /** `total_failures` is the number of lines the pattern matches, and so many addresses and users were found. */
  lemma {:induction false} TotalFailures(lines: seq<string>)
    ensures |Addresses(Records(lines))| == |Users(Records(lines))| == |Records(lines)| == |MatchedLines(lines)|
    decreases |lines|
  {
    if lines != [] {
      var n := |lines| - 1;
      TotalFailures(lines[..n]);
      MatchedSnoc(lines);
    }
  }

  /** `ip_counts[a]` is the number of lines whose match names address a. */
  lemma {:induction false} AddressCount(lines: seq<string>, a: string)
    ensures Count(Addresses(Records(lines)), a) == |LinesFrom(lines, a)|
    decreases |lines|
  {
    if lines != [] {
      var n := |lines| - 1;
      var m := Match(lines[n]);
      assert Records(lines) == Records(lines[..n]) + if m.Some? then [m.value] else [];
      AddressCount(lines[..n], a);
      LinesFromSnoc(lines, a);
      if m.Some? {
        AddressesSnoc(Records(lines[..n]), m.value);
        CountSnoc(Addresses(Records(lines[..n])), m.value.address, a);
      } else {
        assert Records(lines) == Records(lines[..n]);
      }
    } else {
      assert LinesFrom(lines, a) == {};
    }
  }

  /** `user_counts[u]` is the number of lines whose match names user u. */
  lemma {:induction false} UserCount(lines: seq<string>, u: string)
    ensures Count(Users(Records(lines)), u) == |LinesFor(lines, u)|
    decreases |lines|
  {
    if lines != [] {
      var n := |lines| - 1;
      var m := Match(lines[n]);
      assert Records(lines) == Records(lines[..n]) + if m.Some? then [m.value] else [];
      UserCount(lines[..n], u);
      LinesForSnoc(lines, u);
      if m.Some? {
        AddressesSnoc(Records(lines[..n]), m.value);
        CountSnoc(Users(Records(lines[..n])), m.value.user, u);
      } else {
        assert Records(lines) == Records(lines[..n]);
      }
    } else {
      assert LinesFor(lines, u) == {};
    }
  }

  /**
    Every entry of `top_5_ips` and `top_5_users` holds the number of lines whose match names
    its address or user; there are five of each, or fewer when fewer distinct ones were found.
  */
  lemma TopCounts(lines: seq<string>)
    ensures var ips, users := Addresses(Records(lines)), Users(Records(lines));
            && |TopN(ips, TopCount)| == Min(TopCount, |set a | a in ips|)
            && |TopN(users, TopCount)| == Min(TopCount, |set u | u in users|)
    ensures var top := TopN(Addresses(Records(lines)), TopCount);
            forall i :: 0 <= i < |top| ==> top[i].count == |LinesFrom(lines, top[i].key)| > 0
    ensures var top := TopN(Users(Records(lines)), TopCount);
            forall i :: 0 <= i < |top| ==> top[i].count == |LinesFor(lines, top[i].key)| > 0
  {
    var ips, users := Addresses(Records(lines)), Users(Records(lines));
    MostCommonCounts(ips, TopCount);
    MostCommonCounts(users, TopCount);
    forall i | 0 <= i < |TopN(ips, TopCount)|
      ensures TopN(ips, TopCount)[i].count == |LinesFrom(lines, TopN(ips, TopCount)[i].key)| > 0
    {
      AddressCount(lines, TopN(ips, TopCount)[i].key);
    }
    forall i | 0 <= i < |TopN(users, TopCount)|
      ensures TopN(users, TopCount)[i].count == |LinesFor(lines, TopN(users, TopCount)[i].key)| > 0
    {
      UserCount(lines, TopN(users, TopCount)[i].key);
    }
  }

  /**
    The counts of `top_5_ips` add up to at most `total_failures`, and to exactly that when at
    most five distinct addresses were found; the same holds of `top_5_users` and the users.
  */
  lemma TopSums(lines: seq<string>)
    ensures var ips := Addresses(Records(lines));
            && Sum(TopN(ips, TopCount)) <= |MatchedLines(lines)|
            && (Sum(TopN(ips, TopCount)) == |MatchedLines(lines)| <==> |set a | a in ips| <= TopCount)
    ensures var users := Users(Records(lines));
            && Sum(TopN(users, TopCount)) <= |MatchedLines(lines)|
            && (Sum(TopN(users, TopCount)) == |MatchedLines(lines)| <==> |set u | u in users| <= TopCount)
  {
    TotalFailures(lines);
    MostCommonSum(Addresses(Records(lines)), TopCount);
    MostCommonSum(Users(Records(lines)), TopCount);
  }

  /**
    Looking up the addresses in the given order succeeds exactly when no lookup raises; then
    the i-th record is the location found for the i-th address with that address's count.
  */
  lemma {:induction false} LocateSpec(order: seq<string>, counts: seq<Entry<string>>, lookup: string -> Response)
    ensures Locate(order, counts, lookup).Success? <==>
              forall i :: 0 <= i < |order| ==> Geolocate(order[i], lookup(order[i])).Success?
    ensures Locate(order, counts, lookup).Success? ==>
              var geo := Locate(order, counts, lookup).value;
              |geo| == |order| &&
              forall i :: 0 <= i < |order| ==>
                geo[i] == GeoRecord(Geolocate(order[i], lookup(order[i])).value, Lookup(counts, order[i]))
    decreases |order|
  {
    if order != [] {
      var n := |order| - 1;
      LocateSpec(order[..n], counts, lookup);
      assert forall i :: 0 <= i < n ==> order[..n][i] == order[i];
    }
  }

  /** A multiset built from a set holds each element once, so a sequence with that multiset repeats nothing. */
  lemma VisitOnce(order: seq<string>, ips: set<string>)
    requires multiset(order) == multiset(ips)
    ensures forall i, j :: 0 <= i < j < |order| ==> order[i] != order[j]
    ensures |order| == |ips|
  {
    forall i, j | 0 <= i < j < |order| ensures order[i] != order[j] {
      TwiceCounted(order, i, j);
    }
    assert |multiset(order)| == |order|;
  }

  /** Two equal elements of s make their element count at least twice. */
  lemma TwiceCounted(s: seq<string>, i: nat, j: nat)
    requires i < j < |s|
    ensures s[i] == s[j] ==> multiset(s)[s[i]] >= 2
  {
    assert s == s[..j] + s[j..];
    assert s[i] == s[..j][i] && s[j] == s[j..][0];
    assert multiset(s) == multiset(s[..j]) + multiset(s[j..]);
  }

  /**
    When every top address is looked up once, `geo_data` has one record per top address, in the
    order of the lookups: the location the lookup gave (the default record when the request
    failed or the service reported no success) and the address's count, which is the number of
    lines whose match names it and the count `top_5_ips` lists for it.
  */
  lemma GeoDataSpec(lines: seq<string>, lookup: string -> Response, order: seq<string>)
    requires VisitsAll(lines, order) && Analysis(lines, lookup, order).Success?
    ensures var rep := Analysis(lines, lookup, order).value;
            && |rep.geoData| == |order| == |TopAddresses(lines)|
            && (forall i, j :: 0 <= i < j < |order| ==> order[i] != order[j])
            && forall i :: 0 <= i < |order| ==>
                 && order[i] in TopAddresses(lines)
                 && Geolocate(order[i], lookup(order[i])).Success?
                 && rep.geoData[i].location == Geolocate(order[i], lookup(order[i])).value
                 && rep.geoData[i].count == |LinesFrom(lines, order[i])|
                 && Entry(order[i], rep.geoData[i].count) in rep.topIps
  {
    var ips := Addresses(Records(lines));
    var rep := Analysis(lines, lookup, order).value;
    LocateSpec(order, Tally(ips), lookup);
    VisitOnce(order, TopAddresses(lines));
    MostCommonCounts(ips, TopCount);
    forall i | 0 <= i < |order|
      ensures order[i] in TopAddresses(lines)
      ensures rep.geoData[i].count == |LinesFrom(lines, order[i])|
      ensures Entry(order[i], rep.geoData[i].count) in rep.topIps
    {
      assert order[i] in multiset(order);
      var j :| 0 <= j < |rep.topIps| && rep.topIps[j].key == order[i];
      LookupTally(ips, order[i]);
      AddressCount(lines, order[i]);
      assert rep.topIps[j] == Entry(order[i], rep.geoData[i].count);
    }
  }

  /**
    When every top address is looked up once, parse_log_file raises exactly when the lookup of
    some top address raises.
  */
  lemma FailureIff(lines: seq<string>, lookup: string -> Response, order: seq<string>)
    requires VisitsAll(lines, order)
    ensures Analysis(lines, lookup, order).Failure? <==>
              exists ip :: ip in TopAddresses(lines) && Geolocate(ip, lookup(ip)).Failure?
  {
    LocateSpec(order, Tally(Addresses(Records(lines))), lookup);
    forall ip | ip in TopAddresses(lines) ensures exists i :: 0 <= i < |order| && order[i] == ip {
      assert ip in multiset(order);
    }
    forall i | 0 <= i < |order| ensures order[i] in TopAddresses(lines) {
      assert order[i] in multiset(order);
    }
  }

  /** s without its j-th element. */
  function RemoveAt<T>(s: seq<T>, j: nat): (r: seq<T>)
    requires j < |s|
    ensures |r| == |s| - 1
    ensures forall i :: 0 <= i < |r| ==> r[i] == if i < j then s[i] else s[i + 1]
    ensures multiset(s) == multiset(r) + multiset{s[j]}
  {
    assert s == s[..j] + [s[j]] + s[j + 1..];
    s[..j] + s[j + 1..]
  }

  /** Applying f elementwise to two orderings of the same elements gives two orderings of the same results. */
  lemma {:induction false} ImagePermutes<A, B>(o1: seq<A>, g1: seq<B>, o2: seq<A>, g2: seq<B>, f: A -> B)
    requires multiset(o1) == multiset(o2)
    requires |g1| == |o1| && forall i :: 0 <= i < |o1| ==> g1[i] == f(o1[i])
    requires |g2| == |o2| && forall i :: 0 <= i < |o2| ==> g2[i] == f(o2[i])
    ensures multiset(g1) == multiset(g2)
    decreases |o1|
  {
    if o1 == [] {
      assert |o2| == |multiset(o2)| == 0;
    } else {
      var n := |o1| - 1;
      var p1, h1 := o1[..n], g1[..n];
      assert o1 == p1 + [o1[n]];
      assert g1 == h1 + [g1[n]];
      assert o1[n] in multiset(o2);
      var j :| 0 <= j < |o2| && o2[j] == o1[n];
      var o, g := RemoveAt(o2, j), RemoveAt(g2, j);
      forall i | 0 <= i < |o| ensures g[i] == f(o[i]) {
        if i < j { assert g[i] == g2[i] && o[i] == o2[i]; } else { assert g[i] == g2[i + 1] && o[i] == o2[i + 1]; }
      }
      assert forall i :: 0 <= i < |p1| ==> h1[i] == f(p1[i]);
      assert multiset(o1) == multiset(p1) + multiset{o1[n]};
      assert multiset(p1) == multiset(o1) - multiset{o1[n]};
      assert multiset(o) == multiset(o2) - multiset{o1[n]};
      ImagePermutes(p1, h1, o, g, f);
      assert g2[j] == g1[n];
    }
  }

  /**
    The order in which the set of top addresses is visited does not matter: any two orders
    both succeed or both fail, and give the same report up to the order of `geo_data`.
  */
  lemma OrderIrrelevant(lines: seq<string>, lookup: string -> Response, o1: seq<string>, o2: seq<string>)
    requires VisitsAll(lines, o1) && VisitsAll(lines, o2)
    ensures Analysis(lines, lookup, o1).Success? <==> Analysis(lines, lookup, o2).Success?
    ensures Analysis(lines, lookup, o1).Success? ==>
              var r1, r2 := Analysis(lines, lookup, o1).value, Analysis(lines, lookup, o2).value;
              && r1.totalFailures == r2.totalFailures && r1.topIps == r2.topIps && r1.topUsers == r2.topUsers
              && multiset(r1.geoData) == multiset(r2.geoData)
  {
    FailureIff(lines, lookup, o1);
    FailureIff(lines, lookup, o2);
    var counts := Tally(Addresses(Records(lines)));
    LocateSpec(o1, counts, lookup);
    LocateSpec(o2, counts, lookup);
    if Analysis(lines, lookup, o1).Success? {
      var f := ip => var g := Geolocate(ip, lookup(ip)); GeoRecord(if g.Success? then g.value else DefaultLocation(ip), Lookup(counts, ip));
      ImagePermutes(o1, Locate(o1, counts, lookup).value, o2, Locate(o2, counts, lookup).value, f);
    }
  }
}
