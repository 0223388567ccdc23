/**
  The line matcher of app.py: a search with the pattern

    Failed password for (?:invalid user )?(.+?) from (\d{1,3}\.\d{1,3}\.\d{1,3}\.\d{1,3})

  written out by hand. The search tries every start position from the left; at a start it
  first tries the optional "invalid user " group, then goes without it; the user name is lazy
  (shortest first) and, as the regex `.` does, never crosses a newline; the last octet is
  greedy. Inner octets need no backtracking: a dot is not a digit, so the digits before it
  are the whole run.
*/
module SshMatcher {
  import opened Outcomes

  const Phrase: string := "Failed password for "
  const InvalidUser: string := "invalid user "
  const FromWord: string := " from "

  /** A successful match: the two capture groups. */
  datatype FailureRecord = FailureRecord(user: string, address: string)

  /** Where the three dots of an address are, and where its last octet ends. */
  datatype Address = Address(dot1: nat, dot2: nat, dot3: nat, end: nat)

  /**
    The positions of one match in a line: where the phrase starts, the user name
    line[userStart..userEnd], and the address, which starts at userEnd + |FromWord|.
  */
  datatype Span = Span(start: nat, userStart: nat, userEnd: nat, address: Address)

  predicate IsDigit(c: char) {
    '0' <= c <= '9'
  }

  /** The text w occurs in s at i. */
  predicate LiteralAt(s: string, i: nat, w: string) {
    i + |w| <= |s| && SameFrom(s, i, w, 0)
  }

  /** s[i + k..i + |w|] == w[k..], compared one character at a time. */
  predicate SameFrom(s: string, i: nat, w: string, k: nat)
    requires i + |w| <= |s| && k <= |w|
    decreases |w| - k
  {
    k == |w| || (s[i + k] == w[k] && SameFrom(s, i, w, k + 1))
  }

  /** Every character of s[i..j] is a digit. */
  predicate AllDigits(s: string, i: nat, j: nat)
    decreases j - i
  {
    i <= j <= |s| && (i == j || (IsDigit(s[i]) && AllDigits(s, i + 1, j)))
  }

  /** No newline among s[i..j]: what `.+?` may consume. */
  predicate NoNewline(s: string, i: nat, j: nat)
    decreases j - i
  {
    i <= j <= |s| && (i == j || (s[i] != '\n' && NoNewline(s, i + 1, j)))
  }

  /** `\d{1,3}` matches s[i..j]. */
  predicate OctetSpan(s: string, i: nat, j: nat) {
    AllDigits(s, i, j) && 1 <= j - i <= 3
  }

  predicate DotAt(s: string, k: nat) {
    k < |s| && s[k] == '.'
  }

  /** The address sub-pattern `\d{1,3}\.\d{1,3}\.\d{1,3}\.\d{1,3}` matches s[i..a.end], with its dots where a says. */
  predicate AddressAt(s: string, i: nat, a: Address) {
    && OctetSpan(s, i, a.dot1) && DotAt(s, a.dot1)
    && OctetSpan(s, a.dot1 + 1, a.dot2) && DotAt(s, a.dot2)
    && OctetSpan(s, a.dot2 + 1, a.dot3) && DotAt(s, a.dot3)
    && OctetSpan(s, a.dot3 + 1, a.end)
  }

  /** The whole pattern matches line s at the positions of m (any one way of matching). */
  predicate IsMatch(s: string, m: Span) {
    && LiteralAt(s, m.start, Phrase)
    && (|| m.userStart == m.start + |Phrase|
        || (m.userStart == m.start + |Phrase| + |InvalidUser| && LiteralAt(s, m.start + |Phrase|, InvalidUser)))
    && m.userStart < m.userEnd
    && NoNewline(s, m.userStart, m.userEnd)
    && LiteralAt(s, m.userEnd, FromWord)
    && AddressAt(s, m.userEnd + |FromWord|, m.address)
  }

  /**
    The order in which the regex engine tries ways of matching: leftmost start first, then
    with the optional group before without it, then the shorter user name, then the longer
    last octet.
  */
  predicate Precedes(m: Span, n: Span) {
    || m.start < n.start
    || (m.start == n.start && m.userStart > n.userStart)
    || (m.start == n.start && m.userStart == n.userStart && m.userEnd < n.userEnd)
    || (m.start == n.start && m.userStart == n.userStart && m.userEnd == n.userEnd && m.address.end > n.address.end)
  }

  /** The length of the run of digits that starts at i. */
  function DigitRun(s: string, i: nat): (n: nat)
    requires i <= |s|
    ensures i + n <= |s|
    decreases |s| - i
  {
    if i < |s| && IsDigit(s[i]) then 1 + DigitRun(s, i + 1) else 0
  }

  /** `\d{1,3}\.` at i; on success, where the dot is. */
  function OctetDot(s: string, i: nat): (r: Option<nat>)
    requires i <= |s|
    ensures r.Some? ==> i < r.value < |s|
  {
    var n := DigitRun(s, i);
    if 1 <= n <= 3 && DotAt(s, i + n) then Some(i + n) else None
  }

  /** The final, greedy `\d{1,3}` at i; on success, where it ends. */
  function LastOctet(s: string, i: nat): (r: Option<nat>)
    requires i <= |s|
    ensures r.Some? ==> i < r.value <= |s|
  {
    var n := DigitRun(s, i);
    if n == 0 then None else Some(i + Min(n, 3))
  }

  /** The address sub-pattern at i: three octets each followed by a dot, then the last octet. */
  function ScanAddress(s: string, i: nat): (r: Option<Address>)
    requires i <= |s|
    ensures r.Some? ==> i < r.value.end <= |s|
  {
    match OctetDot(s, i)
    case None => None
    case Some(d1) =>
      match OctetDot(s, d1 + 1)
      case None => None
      case Some(d2) =>
        match OctetDot(s, d2 + 1)
        case None => None
        case Some(d3) =>
          match LastOctet(s, d3 + 1)
          case None => None
          case Some(j) => Some(Address(d1, d2, d3, j))
  }

  /**
    The lazy user name: tries the user name that ends at e, then longer ones, and gives up at
    a newline or at the end of the line. On success, the end of the user name and the address.
  */
  function ScanUser(s: string, e: nat): (r: Option<(nat, Address)>)
    requires 1 <= e
    ensures r.Some? ==> e <= r.value.0 && r.value.0 + |FromWord| < r.value.1.end <= |s|
    decreases |s| + 1 - e
  {
    if e > |s| || s[e - 1] == '\n' then None
    else if LiteralAt(s, e, FromWord) then
      match ScanAddress(s, e + |FromWord|)
      case Some(a) => Some((e, a))
      case None => ScanUser(s, e + 1)
    else ScanUser(s, e + 1)
  }

  /** The pattern anchored at p: with the optional group first, then without it. */
  function MatchAt(s: string, p: nat): (r: Option<Span>)
    ensures r.Some? ==> r.value.start == p && r.value.userStart < r.value.userEnd
    ensures r.Some? ==> r.value.userEnd + |FromWord| < r.value.address.end <= |s|
  {
    if !LiteralAt(s, p, Phrase) then None
    else
      var q := p + |Phrase|;
      var withInvalid := if LiteralAt(s, q, InvalidUser) then ScanUser(s, q + |InvalidUser| + 1) else None;
      if withInvalid.Some? then Some(Span(p, q + |InvalidUser|, withInvalid.value.0, withInvalid.value.1))
      else
        match ScanUser(s, q + 1)
        case Some((e, a)) => Some(Span(p, q, e, a))
        case None => None
  }

  /** The search from position p rightwards (`re.search` restricted to starts >= p). */
  function SearchFrom(s: string, p: nat): (r: Option<Span>)
    ensures r.Some? ==> p <= r.value.start && r.value.userStart < r.value.userEnd
    ensures r.Some? ==> r.value.userEnd + |FromWord| < r.value.address.end <= |s|
    decreases |s| + 1 - p
  {
    if p > |s| then None
    else
      match MatchAt(s, p)
      case Some(m) => Some(m)
      case None => SearchFrom(s, p + 1)
  }

  /** The two groups of a match: the user name and the address. */
  function Groups(line: string, m: Span): FailureRecord
    requires m.userStart <= m.userEnd && m.userEnd + |FromWord| <= m.address.end <= |line|
  {
    FailureRecord(line[m.userStart..m.userEnd], line[m.userEnd + |FromWord|..m.address.end])
  }

  /** `SSH_FAIL_REGEX.search(line)`, with the two groups taken out of the match. */
  function Match(line: string): Option<FailureRecord> {
    match SearchFrom(line, 0)
    case None => None
    case Some(m) => Some(Groups(line, m))
  }

  // ---------------------------------------------------------------------------------------
  // The scanners against the pattern

  /** DigitRun counts digits only, and all of them. */
  lemma {:induction false} DigitRunDigits(s: string, i: nat)
    requires i <= |s|
    ensures AllDigits(s, i, i + DigitRun(s, i))
    ensures i + DigitRun(s, i) < |s| ==> !IsDigit(s[i + DigitRun(s, i)])
    decreases |s| - i
  {
    if i < |s| && IsDigit(s[i]) {
      DigitRunDigits(s, i + 1);
    }
  }

  /** No run of digits at i is longer than DigitRun. */
  lemma {:induction false} DigitRunMaximal(s: string, i: nat, j: nat)
    requires i <= |s| && AllDigits(s, i, j)
    ensures j <= i + DigitRun(s, i)
    decreases |s| - i
  {
    if i < j {
      DigitRunMaximal(s, i + 1, j);
    }
  }

  /** A run of digits holds digits only up to its end, and every prefix of it is one too. */
  lemma {:induction false} AllDigitsPrefix(s: string, i: nat, j: nat, k: nat)
    requires AllDigits(s, i, j) && i <= k <= j
    ensures AllDigits(s, i, k) && (k < j ==> IsDigit(s[k]))
    decreases k - i
  {
    if i < k {
      AllDigitsPrefix(s, i + 1, j, k);
    }
  }

  /** OctetDot succeeds only on `\d{1,3}\.`. */
  lemma OctetDotSound(s: string, i: nat, d: nat)
    requires i <= |s| && OctetDot(s, i) == Some(d)
    ensures OctetSpan(s, i, d) && DotAt(s, d)
  {
    DigitRunDigits(s, i);
  }

  /** `\d{1,3}\.` has only one way to match at i, and OctetDot finds it. */
  lemma OctetDotFinds(s: string, i: nat, d: nat)
    requires i <= |s| && OctetSpan(s, i, d) && DotAt(s, d)
    ensures OctetDot(s, i) == Some(d)
  {
    DigitRunDigits(s, i);
    DigitRunMaximal(s, i, d);
    if d < i + DigitRun(s, i) {
      AllDigitsPrefix(s, i, i + DigitRun(s, i), d);
    }
  }

  /** LastOctet succeeds only on `\d{1,3}`. */
  lemma LastOctetSound(s: string, i: nat, j: nat)
    requires i <= |s| && LastOctet(s, i) == Some(j)
    ensures OctetSpan(s, i, j)
  {
    DigitRunDigits(s, i);
    AllDigitsPrefix(s, i, i + DigitRun(s, i), j);
  }

  /** The greedy last octet is the longest `\d{1,3}` at i. */
  lemma LastOctetFinds(s: string, i: nat, j: nat)
    requires i <= |s| && OctetSpan(s, i, j)
    ensures LastOctet(s, i).Some? && j <= LastOctet(s, i).value
  {
    DigitRunMaximal(s, i, j);
  }

  /** ScanAddress succeeds only on an address. */
  lemma ScanAddressSound(s: string, i: nat, a: Address)
    requires i <= |s| && ScanAddress(s, i) == Some(a)
    ensures AddressAt(s, i, a)
  {
    OctetDotSound(s, i, a.dot1);
    OctetDotSound(s, a.dot1 + 1, a.dot2);
    OctetDotSound(s, a.dot2 + 1, a.dot3);
    LastOctetSound(s, a.dot3 + 1, a.end);
  }

  /** Wherever an address starts, ScanAddress finds one with the same dots, ending no earlier. */
  lemma ScanAddressFinds(s: string, i: nat, a: Address)
    requires i <= |s| && AddressAt(s, i, a)
    ensures ScanAddress(s, i).Some?
    ensures ScanAddress(s, i).value == Address(a.dot1, a.dot2, a.dot3, ScanAddress(s, i).value.end)
    ensures a.end <= ScanAddress(s, i).value.end
  {
    OctetDotFinds(s, i, a.dot1);
    OctetDotFinds(s, a.dot1 + 1, a.dot2);
    OctetDotFinds(s, a.dot2 + 1, a.dot3);
    LastOctetFinds(s, a.dot3 + 1, a.end);
  }

  /** One step of the lazy user-name scan. */
  lemma ScanUserStep(s: string, e: nat)
    requires 1 <= e <= |s| && s[e - 1] != '\n'
    ensures ScanUser(s, e) ==
              if LiteralAt(s, e, FromWord) && ScanAddress(s, e + |FromWord|).Some?
              then Some((e, ScanAddress(s, e + |FromWord|).value))
              else ScanUser(s, e + 1)
  {
  }

  /**
    ScanUser started at e returns an end f >= e for a user name that began before e: no
    newline in s[e-1..f], " from " at f, and the address that ScanAddress finds after it.
  */
  lemma {:induction false} ScanUserSound(s: string, e: nat, f: nat, a: Address)
    requires 1 <= e && ScanUser(s, e) == Some((f, a))
    ensures e <= f && NoNewline(s, e - 1, f) && LiteralAt(s, f, FromWord)
    ensures f + |FromWord| <= |s| && ScanAddress(s, f + |FromWord|) == Some(a)
    decreases |s| + 1 - e
  {
    assert e <= |s| && s[e - 1] != '\n';
    ScanUserStep(s, e);
    if LiteralAt(s, e, FromWord) && ScanAddress(s, e + |FromWord|).Some? {
      assert f == e && a == ScanAddress(s, e + |FromWord|).value;
    } else {
      ScanUserSound(s, e + 1, f, a);
    }
  }

  /**
    ScanUser started at e succeeds whenever a user name can end at some f >= e (no newline
    in s[e-1..f], " from " at f and an address after it), and ends no later than f.
  */
  lemma {:induction false} ScanUserComplete(s: string, e: nat, f: nat, a: Address)
    requires 1 <= e <= f && NoNewline(s, e - 1, f) && LiteralAt(s, f, FromWord)
    requires AddressAt(s, f + |FromWord|, a)
    ensures ScanUser(s, e).Some? && ScanUser(s, e).value.0 <= f
    decreases f - e
  {
    assert s[e - 1] != '\n';
    ScanUserStep(s, e);
    if e == f {
      ScanAddressFinds(s, f + |FromWord|, a);
    } else if !(LiteralAt(s, e, FromWord) && ScanAddress(s, e + |FromWord|).Some?) {
      ScanUserComplete(s, e + 1, f, a);
    }
  }

  /** The scan result r = (user end, address) comes no later in the engine's order than (f, a). */
  predicate UserNoLater(r: (nat, Address), f: nat, a: Address) {
    r.0 < f || (r.0 == f && a.end <= r.1.end)
  }

  /**
    For a user name starting at u that can end at f with the address a after it, the lazy
    scan ends no later than f, and if at f then with an address no shorter than a.
  */
  lemma UserFirst(s: string, u: nat, f: nat, a: Address)
    requires u < f && NoNewline(s, u, f) && LiteralAt(s, f, FromWord) && AddressAt(s, f + |FromWord|, a)
    ensures ScanUser(s, u + 1).Some?
    ensures UserNoLater(ScanUser(s, u + 1).value, f, a)
  {
    ScanUserComplete(s, u + 1, f, a);
    var r := ScanUser(s, u + 1).value;
    if r.0 == f {
      assert a.end <= r.1.end by {
        ScanUserSound(s, u + 1, r.0, r.1);
        ScanAddressFinds(s, f + |FromWord|, a);
      }
    }
  }

  /** What MatchAt returns, in terms of the two user-name scans. */
  lemma MatchAtUnfold(s: string, p: nat)
    requires LiteralAt(s, p, Phrase)
    ensures var q := p + |Phrase|;
            var u := q + |InvalidUser|;
            var withInvalid := if LiteralAt(s, q, InvalidUser) then ScanUser(s, u + 1) else None;
            var plain := ScanUser(s, q + 1);
            MatchAt(s, p) ==
              if withInvalid.Some? then Some(Span(p, u, withInvalid.value.0, withInvalid.value.1))
              else if plain.Some? then Some(Span(p, q, plain.value.0, plain.value.1))
              else None
  {
  }

  /** What ScanUser finds after a user name that starts at u: the rest of a match. */
  lemma UserScanSound(s: string, u: nat, f: nat, a: Address)
    requires ScanUser(s, u + 1) == Some((f, a))
    ensures u < f && NoNewline(s, u, f) && LiteralAt(s, f, FromWord) && AddressAt(s, f + |FromWord|, a)
  {
    ScanUserSound(s, u + 1, f, a);
    ScanAddressSound(s, f + |FromWord|, a);
  }

  /** The parts of a match, put together. */
  lemma SpanIsMatch(s: string, p: nat, u: nat, f: nat, a: Address)
    requires LiteralAt(s, p, Phrase)
    requires || u == p + |Phrase|
             || (u == p + |Phrase| + |InvalidUser| && LiteralAt(s, p + |Phrase|, InvalidUser))
    requires u < f && NoNewline(s, u, f) && LiteralAt(s, f, FromWord) && AddressAt(s, f + |FromWord|, a)
    ensures IsMatch(s, Span(p, u, f, a))
  {
  }

  /** Where the user name of what MatchAt returns starts, and the scan that found the rest. */
  lemma MatchAtParts(s: string, p: nat, m: Span) returns (u: nat)
    requires MatchAt(s, p) == Some(m)
    ensures LiteralAt(s, p, Phrase) && m.start == p && m.userStart == u
    ensures || u == p + |Phrase|
            || (u == p + |Phrase| + |InvalidUser| && LiteralAt(s, p + |Phrase|, InvalidUser))
    ensures ScanUser(s, u + 1) == Some((m.userEnd, m.address))
  {
    assert LiteralAt(s, p, Phrase);
    MatchAtUnfold(s, p);
    var q := p + |Phrase|;
    if LiteralAt(s, q, InvalidUser) && ScanUser(s, q + |InvalidUser| + 1).Some? {
      u := q + |InvalidUser|;
    } else {
      u := q;
    }
  }

  /** MatchAt returns only matches of the pattern. */
  lemma MatchAtSound(s: string, p: nat, m: Span)
    requires MatchAt(s, p) == Some(m)
    ensures IsMatch(s, m)
  {
    var u := MatchAtParts(s, p, m);
    UserScanSound(s, u, m.userEnd, m.address);
    SpanIsMatch(s, p, u, m.userEnd, m.address);
  }

  /** A match anchored at p is found by MatchAt, and is not tried before what MatchAt returns. */
  lemma MatchAtFirst(s: string, m: Span)
    requires IsMatch(s, m)
    ensures MatchAt(s, m.start).Some? && !Precedes(m, MatchAt(s, m.start).value)
  {
    var p := m.start;
    var q := p + |Phrase|;
    var u := q + |InvalidUser|;
    if m.userStart == u && LiteralAt(s, q, InvalidUser) {
      UserFirst(s, u, m.userEnd, m.address);
    } else {
      UserFirst(s, q, m.userEnd, m.address);
    }
    MatchAtUnfold(s, p);
  }

  /** SearchFrom returns only matches of the pattern. */
  lemma {:induction false} SearchFromSound(s: string, p: nat, m: Span)
    requires SearchFrom(s, p) == Some(m)
    ensures IsMatch(s, m)
    decreases |s| + 1 - p
  {
    if MatchAt(s, p).Some? {
      MatchAtSound(s, p, m);
    } else {
      SearchFromSound(s, p + 1, m);
    }
  }

  /** A match that starts at p or later is found by SearchFrom, and is not tried before what it returns. */
  lemma {:induction false} SearchFromFirst(s: string, p: nat, m: Span)
    requires IsMatch(s, m) && p <= m.start
    ensures SearchFrom(s, p).Some? && !Precedes(m, SearchFrom(s, p).value)
    decreases m.start - p
  {
    assert m.start <= |s|;
    if p == m.start {
      MatchAtFirst(s, m);
    } else if MatchAt(s, p).None? {
      SearchFromFirst(s, p + 1, m);
    }
  }

  /** Two different matches of one line are always ranked, one before the other. */
  lemma MatchesRanked(s: string, m: Span, n: Span)
    requires IsMatch(s, m) && IsMatch(s, n)
    ensures !(Precedes(m, n) && Precedes(n, m))
    ensures m != n ==> Precedes(m, n) || Precedes(n, m)
  {
    if m.start == n.start && m.userStart == n.userStart && m.userEnd == n.userEnd {
      AddressDotsUnique(s, m.userEnd + |FromWord|, m.address, n.address);
    }
  }

  /** Two addresses that start at the same place have their dots in the same places. */
  lemma AddressDotsUnique(s: string, i: nat, a: Address, b: Address)
    requires i <= |s| && AddressAt(s, i, a) && AddressAt(s, i, b)
    ensures a.dot1 == b.dot1 && a.dot2 == b.dot2 && a.dot3 == b.dot3
  {
    ScanAddressFinds(s, i, a);
    ScanAddressFinds(s, i, b);
  }

  /** The search returns only matches of the pattern (`re.search` never reports a false match). */
  lemma SearchSound(s: string)
    ensures SearchFrom(s, 0).Some? ==> IsMatch(s, SearchFrom(s, 0).value)
  {
    if SearchFrom(s, 0).Some? {
      SearchFromSound(s, 0, SearchFrom(s, 0).value);
    }
  }

  /**
    The search finds a match whenever the line has one, and returns the first of all matches
    in the engine's order: the leftmost start, the optional group taken when possible, the
    shortest user name, the longest last octet.
  */
  lemma SearchFirst(s: string, m: Span)
    requires IsMatch(s, m)
    ensures SearchFrom(s, 0).Some?
    ensures m == SearchFrom(s, 0).value || Precedes(SearchFrom(s, 0).value, m)
  {
    SearchFromFirst(s, 0, m);
    var r := SearchFrom(s, 0).value;
    SearchFromSound(s, 0, r);
    MatchesRanked(s, m, r);
  }

  /** A line yields a failure record exactly when the pattern matches it somewhere. */
  lemma MatchIffPattern(line: string)
    ensures Match(line).Some? <==> exists m :: IsMatch(line, m)
  {
    if Match(line).Some? {
      SearchSound(line);
      assert IsMatch(line, SearchFrom(line, 0).value);
    }
    if exists m :: IsMatch(line, m) {
      var m :| IsMatch(line, m);
      SearchFirst(line, m);
    }
  }

  /** The record holds the groups of the first match in the engine's order. */
  lemma MatchGroups(line: string, m: Span)
    requires IsMatch(line, m)
    requires forall n :: IsMatch(line, n) && n != m ==> Precedes(m, n)
    ensures Match(line) == Some(Groups(line, m))
  {
    SearchFirst(line, m);
    var r := SearchFrom(line, 0).value;
    SearchFromSound(line, 0, r);
    MatchesRanked(line, m, r);
  }
}
