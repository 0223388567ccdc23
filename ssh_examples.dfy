/**
  The matcher on two concrete inputs: a failed login for an unknown user, and an address whose
  octets are out of range.
*/
module SshExamples {
  import opened Outcomes
  import opened SshMatcher

  /** A failed password attempt for a user name that does not exist on the host. */
  const Sample: string := Phrase + InvalidUser + "admin" + FromWord + "10.0.0.1" + " port 22 ssh2"

  /** Where the parts of the sample line stand. */
  lemma SamplePieces()
    ensures |Sample| == 65
    ensures Sample[..20] == Phrase && Sample[20..33] == InvalidUser && Sample[33..38] == "admin"
    ensures Sample[38..44] == FromWord && Sample[44..52] == "10.0.0.1" && Sample[52] == ' '
  {
    var a := Phrase + InvalidUser;
    var b := a + "admin";
    var c := b + FromWord;
    var d := c + "10.0.0.1";
    assert Sample == d + " port 22 ssh2";
    assert d[..44] == c && d[44..] == "10.0.0.1";
    assert c[..38] == b && c[38..] == FromWord;
    assert b[..33] == a && b[33..] == "admin";
    assert a[..20] == Phrase && a[20..] == InvalidUser;
    assert Sample[..52] == d;
    assert Sample[52] == (" port 22 ssh2")[0];
  }

  /** A slice equal to w means w occurs there. */
  lemma {:induction false} SameFromSlice(s: string, i: nat, w: string, k: nat)
    requires i + |w| <= |s| && k <= |w| && s[i..i + |w|] == w
    ensures SameFrom(s, i, w, k)
    decreases |w| - k
  {
    if k < |w| {
      assert s[i + k] == s[i..i + |w|][k];
      SameFromSlice(s, i, w, k + 1);
    }
  }

  /** No newline in a slice whose characters are all other characters. */
  lemma {:induction false} NoNewlineSlice(s: string, i: nat, j: nat)
    requires i <= j <= |s| && '\n' !in s[i..j]
    ensures NoNewline(s, i, j)
    decreases j - i
  {
    if i < j {
      assert s[i] == s[i..j][0];
      assert s[i + 1..j] == s[i..j][1..];
      NoNewlineSlice(s, i + 1, j);
    }
  }

  /** The positions at which the pattern matches the sample line. */
  const SampleSpan: Span := Span(0, 33, 38, Address(46, 48, 50, 52))

  /** The pattern matches the sample line with `invalid user ` taken by the optional group. */
  lemma SampleIsMatch()
    ensures IsMatch(Sample, SampleSpan)
  {
    SamplePieces();
    PiecesMatch(Sample);
  }

  /** A line laid out as the sample is matches at the sample's positions. */
  lemma PiecesMatch(s: string)
    requires |s| == 65
    requires s[..20] == Phrase && s[20..33] == InvalidUser && s[33..38] == "admin"
    requires s[38..44] == FromWord && s[44..52] == "10.0.0.1" && s[52] == ' '
    ensures IsMatch(s, SampleSpan)
  {
    assert s[0..20] == s[..20];
    SameFromSlice(s, 0, Phrase, 0);
    SameFromSlice(s, 20, InvalidUser, 0);
    SameFromSlice(s, 38, FromWord, 0);
    assert s[33..38] == "admin";
    NoNewlineSlice(s, 33, 38);
    AddressPiece(s);
  }

  /** The address of the sample, where it stands in the line. */
  lemma AddressPiece(s: string)
    requires 52 <= |s| && s[44..52] == "10.0.0.1"
    ensures AddressAt(s, 44, Address(46, 48, 50, 52))
  {
    var t := s[44..52];
    assert forall k :: 0 <= k < 8 ==> s[44 + k] == t[k];
    assert IsDigit(s[44]) && IsDigit(s[45]) && IsDigit(s[47]) && IsDigit(s[49]) && IsDigit(s[51]);
    assert s[46] == '.' && s[48] == '.' && s[50] == '.';
    assert AllDigits(s, 45, 46) && AllDigits(s, 44, 46);
    assert AllDigits(s, 47, 48) && AllDigits(s, 49, 50) && AllDigits(s, 51, 52);
  }

  /** No match of a line laid out as the sample comes before the sample's positions. */
  lemma PiecesFirst(s: string, r: Span)
    requires |s| == 65
    requires s[..20] == Phrase && s[20..33] == InvalidUser && s[33..38] == "admin"
    requires s[38..44] == FromWord && s[44..52] == "10.0.0.1" && s[52] == ' '
    ensures IsMatch(s, r) ==> !Precedes(r, SampleSpan)
  {
    if IsMatch(s, r) {
      PiecesMatch(s);
      assert forall k :: 34 <= k < 38 ==> s[k] == s[33..38][k - 33];
      assert LiteralAt(s, r.userEnd, FromWord) && FromWord[0] == ' ';
      assert s[r.userEnd] == ' ';
      if r.start == 0 && r.userStart == 33 && r.userEnd == 38 {
        AddressDotsUnique(s, 44, r.address, SampleSpan.address);
        assert s[51] == s[44..52][7];
        assert DigitRun(s, 52) == 0;
        assert DigitRun(s, 51) == 1;
        DigitRunMaximal(s, 51, r.address.end);
      }
    }
  }

  /** A line laid out as the sample yields "admin" and "10.0.0.1": `invalid user ` is not part of the user name. */
  lemma PiecesRecord(s: string)
    requires |s| == 65
    requires s[..20] == Phrase && s[20..33] == InvalidUser && s[33..38] == "admin"
    requires s[38..44] == FromWord && s[44..52] == "10.0.0.1" && s[52] == ' '
    ensures Match(s) == Some(FailureRecord("admin", "10.0.0.1"))
  {
    PiecesMatch(s);
    SearchFirst(s, SampleSpan);
    var r := SearchFrom(s, 0).value;
    SearchFromSound(s, 0, r);
    PiecesFirst(s, r);
    assert r == SampleSpan;
  }

  /** The sample line yields the user "admin" and the address "10.0.0.1". */
  lemma SampleRecord()
    ensures Match(Sample) == Some(FailureRecord("admin", "10.0.0.1"))
  {
    SamplePieces();
    PiecesRecord(Sample);
  }

  /** Octets are not range-checked: 999.999.999.999 is an address, taken whole. */
  lemma WideAddress()
    ensures ScanAddress("999.999.999.999", 0) == Some(Address(3, 7, 11, 15))
  {
    var s := "999.999.999.999";
    assert forall k :: 0 <= k < 15 ==> (k % 4 == 3 <==> s[k] == '.') && (k % 4 != 3 ==> IsDigit(s[k]));
    assert AllDigits(s, 2, 3) && AllDigits(s, 1, 3) && AllDigits(s, 0, 3);
    assert AllDigits(s, 6, 7) && AllDigits(s, 5, 7) && AllDigits(s, 4, 7);
    assert AllDigits(s, 10, 11) && AllDigits(s, 9, 11) && AllDigits(s, 8, 11);
    assert AllDigits(s, 14, 15) && AllDigits(s, 13, 15) && AllDigits(s, 12, 15);
    ScanAddressFinds(s, 0, Address(3, 7, 11, 15));
  }
}
