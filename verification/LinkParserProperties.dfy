/** What a parsed link is, and what happens when it is parsed again or put into other surroundings. */
module LinkParserProperties {
  import opened LinkParser
  import opened Texts
  import opened Wrappers

  /** The table of top level domains has no empty entry. */
  ghost predicate ProperTables(tables: Tables) {
    !tables.isValidTld([])
  }

  /** "http://" or "https://", in any case. */
  predicate IsProtocol(s: QString) {
    7 <= |s| <= 8 && IsLetter(s[0], 'h') && IsLetter(s[1], 't') && IsLetter(s[2], 't') && IsLetter(s[3], 'p')
    && (|s| == 8 ==> IsLetter(s[4], 's'))
    && s[|s| - 3] == COLON && s[|s| - 2] == '/' as int && s[|s| - 1] == '/' as int
  }

  /** At least two labels, none of them empty, of domain characters; an address or a known top level domain. */
  ghost predicate IsHost(tables: Tables, host: QString) {
    (forall k :: 0 <= k < |host| ==> IsValidDomainChar(host[k]))
    && |AllLabels(host)| >= 2 && (forall k :: 0 <= k < |AllLabels(host)| ==> AllLabels(host)[k] != [])
    && (IsIpv4(host) || tables.isValidTld(LastLabel(AllLabels(host))))
  }

  /** Nothing, or a port, path, query or anchor; a colon is followed by digits. */
  ghost predicate IsRest(tables: Tables, rest: QString) {
    rest != [] ==> EndsHost(rest[0]) && (rest[0] == COLON ==> StartsPort(tables, rest[1..]))
  }

  // ----- Characters, addresses and ports, as they are written ---------------------------------------------------

  /** Which characters are ignored in front of a link and behind it. */
  lemma {:induction false} IgnoredCharacters(c: QChar)
    ensures IsPrefixChar(c) <==> exists i :: 0 <= i < 5 && c == "<*_~("[i] as int
    ensures IsSuffixChar(c) <==> exists i :: 0 <= i < 9 && c == ">?!.,:*~)"[i] as int
  {
    assert IsPrefixChar(c) ==> c in {"<*_~("[0] as int, "<*_~("[1] as int, "<*_~("[2] as int, "<*_~("[3] as int,
                                     "<*_~("[4] as int};
    assert IsSuffixChar(c) ==> c in {">?!.,:*~)"[0] as int, ">?!.,:*~)"[1] as int, ">?!.,:*~)"[2] as int,
                                     ">?!.,:*~)"[3] as int, ">?!.,:*~)"[4] as int, ">?!.,:*~)"[5] as int,
                                     ">?!.,:*~)"[6] as int, ">?!.,:*~)"[7] as int, ">?!.,:*~)"[8] as int};
  }

  /** Which characters end a host; none of them can be in one. */
  lemma {:induction false} HostEndingCharacters(c: QChar)
    ensures EndsHost(c) <==> exists i :: 0 <= i < 4 && c == ":/?#"[i] as int
    ensures EndsHost(c) ==> !IsValidDomainChar(c)
  {
    assert EndsHost(c) ==> c in {":/?#"[0] as int, ":/?#"[1] as int, ":/?#"[2] as int, ":/?#"[3] as int};
  }

  /** One to three digits that make a number of at most 255. */
  predicate IsByte(s: QString) {
    1 <= |s| <= 3 && AllDigits(s)
    && (|s| == 3 ==> 100 * (s[0] - '0' as int) + 10 * (s[1] - '0' as int) + (s[2] - '0' as int) <= 255)
  }

  lemma {:induction false} OctetIsByte(s: QString)
    ensures IsOctet(s) <==> IsByte(s)
  {
    if 1 <= |s| <= 3 && AllDigits(s) {
      assert Value(s[..|s| - 1]) >= 0;
      if |s| == 3 {
        assert s[..2][..1] == s[..1] && s[..2][1] == s[1] && s[..1][0] == s[0] && s[..1][..0] == [];
        assert Value(s[..1]) == s[0] - '0' as int;
        assert Value(s[..2]) == 10 * Value(s[..1]) + (s[1] - '0' as int);
      } else if |s| == 2 {
        assert s[..1][..0] == [] && Value(s[..1]) == s[0] - '0' as int;
      }
    }
  }

  lemma {:induction false} LabelsOfPrefix(a: QString, b: QString, i: nat)
    requires i <= |a|
    ensures Labels(a + b, i) == Labels(a, i)
  {
    if i > 0 {
      LabelsOfPrefix(a, b, i - 1);
    }
  }

  lemma {:induction false} LabelsOfPlain(s: QString, k: nat)
    requires DOT !in s && k <= |s|
    ensures Labels(s, k) == [s[..k]]
  {
    if k > 0 {
      LabelsOfPlain(s, k - 1);
      PrefixGrows(s, k);
    }
  }

  /** Behind one more dot there is one more label. */
  lemma {:induction false} LabelsBehindDot(front: QString, s: QString, k: nat)
    requires DOT !in s && k <= |s|
    ensures Labels(front + ([DOT] + s), |front| + 1 + k) == AllLabels(front) + [s[..k]]
  {
    var all := front + ([DOT] + s);
    if k == 0 {
      LabelsOfPrefix(front, [DOT] + s, |front|);
      assert all[|front|] == DOT;
    } else {
      LabelsBehindDot(front, s, k - 1);
      PrefixGrows(s, k);
      assert all[|front| + k] == s[k - 1] != DOT;
      var before := AllLabels(front) + [s[..k - 1]];
      assert before[|before| - 1 := s[..k]] == AllLabels(front) + [s[..k]];
    }
  }

  lemma {:induction false} OneMoreLabel(front: QString, s: QString)
    requires DOT !in s
    ensures AllLabels(front + ([DOT] + s)) == AllLabels(front) + [s]
  {
    LabelsBehindDot(front, s, |s|);
    assert s[..|s|] == s;
  }

  /** Four texts with dots between them. */
  function Dotted(a: QString, b: QString, c: QString, d: QString): QString {
    ((a + ([DOT] + b)) + ([DOT] + c)) + ([DOT] + d)
  }

  lemma {:induction false} LabelsOfDotted(a: QString, b: QString, c: QString, d: QString)
    requires DOT !in a && DOT !in b && DOT !in c && DOT !in d
    ensures AllLabels(Dotted(a, b, c, d)) == [a, b, c, d]
  {
    LabelsOfPlain(a, |a|);
    assert a[..|a|] == a;
    OneMoreLabel(a, b);
    OneMoreLabel(a + ([DOT] + b), c);
    OneMoreLabel((a + ([DOT] + b)) + ([DOT] + c), d);
  }

  lemma {:induction false} JoinedFour(labels: seq<QString>)
    requires |labels| == 4
    ensures Joined(labels) == Dotted(labels[0], labels[1], labels[2], labels[3])
  {
    assert JoinedUpTo(labels, 2) == labels[0] + ([DOT] + labels[1]);
    assert JoinedUpTo(labels, 3) == JoinedUpTo(labels, 2) + ([DOT] + labels[2]);
    assert JoinedUpTo(labels, 4) == JoinedUpTo(labels, 3) + ([DOT] + labels[3]);
  }

  lemma {:induction false} AddressIsWritten(host: QString) returns (a: QString, b: QString, c: QString, d: QString)
    requires IsIpv4(host)
    ensures IsByte(a) && IsByte(b) && IsByte(c) && IsByte(d) && host == Dotted(a, b, c, d)
  {
    var labels := AllLabels(host);
    a, b, c, d := labels[0], labels[1], labels[2], labels[3];
    LabelsJoin(host, |host|);
    assert host[..|host|] == host;
    JoinedFour(labels);
    OctetIsByte(a);
    OctetIsByte(b);
    OctetIsByte(c);
    OctetIsByte(d);
  }

  lemma {:induction false} WrittenIsAddress(a: QString, b: QString, c: QString, d: QString)
    requires IsByte(a) && IsByte(b) && IsByte(c) && IsByte(d)
    ensures IsIpv4(Dotted(a, b, c, d))
  {
    LabelsOfDotted(a, b, c, d);
    OctetIsByte(a);
    OctetIsByte(b);
    OctetIsByte(c);
    OctetIsByte(d);
  }

  /** An address is four numbers of at most 255 in at most three digits, with dots between them. */
  lemma {:induction false} AddressExactly(host: QString)
    ensures IsIpv4(host)
       <==> exists a, b, c, d :: IsByte(a) && IsByte(b) && IsByte(c) && IsByte(d) && host == Dotted(a, b, c, d)
  {
    if IsIpv4(host) {
      var a, b, c, d := AddressIsWritten(host);
    }
    if a, b, c, d :| IsByte(a) && IsByte(b) && IsByte(c) && IsByte(d) && host == Dotted(a, b, c, d) {
      WrittenIsAddress(a, b, c, d);
    }
  }

  /**
   * A port by the digits in front: there are five of them or more, or nothing comes behind them, or a
   * path, query or anchor does and there is at least one.
   */
  lemma {:induction false} PortExactly(tables: Tables, s: QString, d: nat)
    requires !tables.isDigit('/' as int) && !tables.isDigit('?' as int) && !tables.isDigit('#' as int)
    requires d <= |s| && (forall j :: 0 <= j < d ==> tables.isDigit(s[j])) && (d < |s| ==> !tables.isDigit(s[d]))
    ensures StartsPort(tables, s)
       <==> d >= 5 || d == |s| || (d >= 1 && (s[d] == '/' as int || s[d] == '?' as int || s[d] == '#' as int))
  {
    if k: nat :| IsPortOf(tables, s, k) {
      assert k <= d;
      assert k < d && k < 5 ==> tables.isDigit(s[k]);
    }
    if d >= 5 {
      assert IsPortOf(tables, s, 5);
    } else if d == |s| || (d >= 1 && IsSeparator(s[d])) {
      assert IsPortOf(tables, s, d);
    }
  }

  // ----- The shape of a link ----------------------------------------------------------------------------------

  lemma {:induction false} IsHostIsGood(tables: Tables, host: QString, atEnd: bool)
    requires ProperTables(tables)
    ensures GoodHost(tables, host, atEnd) <==> IsHost(tables, host)
  {
  }

  /** A host with two labels has a dot in it. */
  lemma {:induction false} NoDotOneLabel(host: QString, i: nat)
    requires i <= |host| && forall k :: 0 <= k < i ==> host[k] != DOT
    ensures |Labels(host, i)| == 1
  {
    if i > 0 {
      NoDotOneLabel(host, i - 1);
    }
  }

  lemma {:induction false} HostNotEmpty(tables: Tables, host: QString, atEnd: bool)
    requires GoodHost(tables, host, atEnd)
    ensures host != []
  {
    if host == [] {
      NoDotOneLabel(host, 0);
    }
  }

  /** How the parts of the stripped text lie in the source. */
  ghost predicate Stripped(source: QString, p: Parsed)
    requires p.Within(source)
  {
    (forall j :: 0 <= j < p.start ==> IsPrefixChar(source[j]))
    && (p.start < |source| ==> !IsPrefixChar(source[p.start]))
    && (forall j :: p.end <= j < |source| ==> IsSuffixChar(source[j]))
    && (p.start < p.end ==> !IsSuffixChar(source[p.end - 1]))
  }

  lemma {:induction false} CandidateIsStripped(source: QString)
    ensures Stripped(source, Candidate(source))
  {
    var b := StripStart(source, 0);
    StripStartIs(source, 0, b);
    StripEndIs(source, b, |source|, StripEnd(source, b, |source|));
  }

  lemma {:induction false} ProtocolOrNone(s: QString, b: nat, e: nat)
    requires b <= e <= |s|
    ensures HostStart(s, b, e) == b || IsProtocol(s[b..HostStart(s, b, e)])
  {
    var h := HostStart(s, b, e);
    assert forall k :: 0 <= k < h - b ==> s[b..h][k] == s[b + k];
  }

  lemma {:induction false} RestStarts(source: QString)
    ensures var p := Candidate(source); p.hostEnd < p.end ==> EndsHost(source[p.hostEnd])
  {
    var p := Candidate(source);
    HostEndIs(source, p.hostStart, p.end, p.hostEnd);
  }

  predicate AllPrefixChars(s: QString) {
    forall k :: 0 <= k < |s| ==> IsPrefixChar(s[k])
  }

  predicate AllSuffixChars(s: QString) {
    forall k :: 0 <= k < |s| ==> IsSuffixChar(s[k])
  }

  /** Views that lie next to each other make up what they are views of. */
  lemma {:induction false} ViewsJoin(source: QString, p: Parsed)
    requires p.Within(source)
    ensures p.Prefix(source) + p.Link(source) + p.Suffix(source) == source
    ensures p.Protocol(source) + p.Host(source) + p.Rest(source) == p.Link(source)
    ensures p.HasPrefix(source) <==> p.Prefix(source) != []
    ensures p.HasSuffix(source) <==> p.Suffix(source) != []
  {
  }

  /** What is left out around a link is only what is stripped. */
  lemma {:induction false} OnlyStrippedAround(source: QString, c: Parsed, p: Parsed)
    requires c.Within(source) && p.Within(source) && Stripped(source, c) && p.start == c.start && p.end >= c.end
    ensures AllPrefixChars(p.Prefix(source)) && AllSuffixChars(p.Suffix(source))
  {
  }

  /**
   * The views of a link lie next to each other and, with prefix and suffix, make up the source.  In
   * front of the link and behind it there are only characters that are ignored there.
   */
  lemma {:induction false} LinkSurroundings(tables: Tables, source: QString)
    requires ParseResult(tables, source).Some?
    ensures var p := ParseResult(tables, source).value;
      p.Prefix(source) + p.Link(source) + p.Suffix(source) == source
      && p.Protocol(source) + p.Host(source) + p.Rest(source) == p.Link(source)
      && AllPrefixChars(p.Prefix(source)) && AllSuffixChars(p.Suffix(source))
      && (p.HasPrefix(source) <==> p.Prefix(source) != []) && (p.HasSuffix(source) <==> p.Suffix(source) != [])
  {
    var p := ParseResult(tables, source).value;
    CandidateIsStripped(source);
    LinkEnd(tables, source);
    ViewsJoin(source, p);
    OnlyStrippedAround(source, Candidate(source), p);
  }

  /** Where the nesting is above zero, a parenthesis was opened. */
  lemma {:induction false} DepthHasOpen(s: QString, t: nat, k: nat) returns (i: nat)
    requires t <= k <= |s| && Depth(s, t, k) > 0
    ensures t <= i < k && s[i] == OPEN
    decreases k
  {
    if s[k - 1] == OPEN {
      i := k - 1;
    } else {
      i := DepthHasOpen(s, t, k - 1);
    }
  }

  /** A port stays one when more characters come behind it, if what it was followed by was no part of it. */
  lemma {:induction false} PortStays(tables: Tables, a: QString, b: QString, i: nat)
    requires StartsPort(tables, a) && a <= b && i < |a| && !tables.isDigit(a[i])
    ensures StartsPort(tables, b)
  {
    var k: nat :| IsPortOf(tables, a, k);
    assert IsPortOf(tables, b, k);
  }

  /** The rest of a link that was extended over a closing parenthesis has an opening one before it was extended. */
  lemma {:induction false} OpenInRest(source: QString, c: Parsed, end: nat) returns (i: nat)
    requires c.Within(source) && Stripped(source, c) && c.end <= end <= |source|
    requires ReturnsToZero(source, c.hostEnd, end)
    ensures c.hostEnd <= i < c.end && source[i] == OPEN
  {
    i := DepthHasOpen(source, c.hostEnd, end - 1);
  }

  lemma {:induction false} PrefixOfRest(source: QString, t: nat, e: nat, end: nat)
    requires t < e <= end <= |source|
    ensures source[t..e][1..] == source[t + 1..e] <= source[t..end][1..] == source[t + 1..end]
  {
    assert source[t + 1..end][..e - t - 1] == source[t + 1..e];
  }

  lemma {:induction false} IsRestOf(tables: Tables, source: QString, t: nat, e: nat)
    requires t < e <= |source|
    ensures IsRest(tables, source[t..e])
       <==> EndsHost(source[t]) && (source[t] == COLON ==> StartsPort(tables, source[t + 1..e]))
  {
    PortOfRest(source, t, e);
  }

  lemma {:induction false} PortOfLink(tables: Tables, source: QString)
    requires ParseResult(tables, source).Some?
    ensures var c := Candidate(source);
      c.hostEnd < c.end && source[c.hostEnd] == COLON ==> StartsPort(tables, source[c.hostEnd + 1..c.end])
  {
    var c := Candidate(source);
    if c.hostEnd < c.end {
      HostAndPortIs(tables, source, c.hostStart, c.hostEnd, c.end);
    }
  }

  /** The port is still one when the link was extended. */
  lemma {:induction false} ExtendedPort(tables: Tables, source: QString, c: Parsed, end: nat)
    requires !tables.isDigit(OPEN) && c.Within(source) && Stripped(source, c) && c.hostEnd < c.end
    requires c.end < end <= |source| && ReturnsToZero(source, c.hostEnd, end) && source[c.hostEnd] == COLON
    requires StartsPort(tables, source[c.hostEnd + 1..c.end])
    ensures StartsPort(tables, source[c.hostEnd + 1..end])
  {
    var i := OpenInRest(source, c, end);
    PrefixOfRest(source, c.hostEnd, c.end, end);
    PortStays(tables, source[c.hostEnd + 1..c.end], source[c.hostEnd + 1..end], i - c.hostEnd - 1);
  }

  /** The rest of a link starts as a rest must, port included, however far the link was extended. */
  lemma {:induction false} RestIsRest(tables: Tables, source: QString)
    requires ParseResult(tables, source).Some? && !tables.isDigit(OPEN)
    ensures IsRest(tables, ParseResult(tables, source).value.Rest(source))
  {
    var p, c := ParseResult(tables, source).value, Candidate(source);
    RestStarts(source);
    LinkEnd(tables, source);
    if c.hostEnd < c.end {
      PortOfLink(tables, source);
      IsRestOf(tables, source, c.hostEnd, p.end);
      if p.end > c.end && source[c.hostEnd] == COLON {
        CandidateIsStripped(source);
        ExtendedPort(tables, source, c, p.end);
      }
    }
  }

  /** The parts of a link: a protocol or none, a host, and a rest that starts as a rest must. */
  lemma {:induction false} LinkParts(tables: Tables, source: QString)
    requires ProperTables(tables) && ParseResult(tables, source).Some?
    ensures var p := ParseResult(tables, source).value;
      (p.Protocol(source) == [] || IsProtocol(p.Protocol(source)))
      && IsHost(tables, p.Host(source))
      && (p.Rest(source) != [] ==> EndsHost(p.Rest(source)[0]))
      && (!tables.isDigit(OPEN) ==> IsRest(tables, p.Rest(source)))
  {
    var c := Candidate(source);
    if !tables.isDigit(OPEN) {
      RestIsRest(tables, source);
    }
    ProtocolOrNone(source, c.start, c.end);
    RestStarts(source);
    LinkEnd(tables, source);
    IsHostIsGood(tables, c.Host(source), c.hostEnd == c.end);
  }

  /**
   * Where a link ends: at the end of the stripped text, or, if something was stripped behind a link
   * with a rest, at the last place in the whole source where the nesting of parentheses, counted from
   * the start of the rest, returns to zero, if that is later.
   */
  lemma {:induction false} LinkEnd(tables: Tables, source: QString)
    requires ParseResult(tables, source).Some?
    ensures var p, c := ParseResult(tables, source).value, Candidate(source);
      p.hostEnd == c.hostEnd && p.end >= c.end
      && (c.hostEnd == c.end ==> p.end == c.end)
      && (p.end > c.end ==> ReturnsToZero(source, p.hostEnd, p.end))
      && (c.hostEnd < c.end ==>
        forall k :: p.hostEnd < k <= |source| && ReturnsToZero(source, p.hostEnd, k)
          ==> k <= p.end || c.end == |source|)
  {
    var c := Candidate(source);
    LastCloseIs(source, c.hostEnd, c.end, |source|);
  }

  // ----- Parsing the same characters elsewhere ------------------------------------------------------------------

  /** The same characters at another place of another text. */
  ghost predicate SameText(s: QString, i: nat, s': QString, i': nat, n: nat) {
    i + n <= |s| && i' + n <= |s'| && s[i..i + n] == s'[i'..i' + n]
  }

  lemma {:induction false} SameChars(s: QString, i: nat, s': QString, i': nat, n: nat)
    requires SameText(s, i, s', i', n)
    ensures forall k :: i' <= k < i' + n ==> s'[k] == s[k - i' + i]
  {
    forall k | i' <= k < i' + n ensures s'[k] == s[k - i' + i] {
      assert s'[k] == s'[i'..i' + n][k - i'] == s[i..i + n][k - i'];
    }
  }

  lemma {:induction false} SameChar(s: QString, i: nat, s': QString, i': nat, n: nat, k: nat)
    requires SameText(s, i, s', i', n) && k < n
    ensures s'[i' + k] == s[i + k]
  {
    assert s'[i' + k] == s'[i'..i' + n][k] == s[i..i + n][k];
  }

  lemma {:induction false} SameHostStart(s: QString, b: nat, s': QString, b': nat, n: nat)
    requires SameText(s, b, s', b', n)
    ensures HostStart(s', b', b' + n) - b' == HostStart(s, b, b + n) - b
  {
    if n >= 8 {
      SameChar(s, b, s', b', n, 0);
      SameChar(s, b, s', b', n, 1);
      SameChar(s, b, s', b', n, 2);
      SameChar(s, b, s', b', n, 3);
      SameChar(s, b, s', b', n, 4);
      SameChar(s, b, s', b', n, 5);
      SameChar(s, b, s', b', n, 6);
      SameChar(s, b, s', b', n, 7);
    }
  }

  lemma {:induction false} SameHostEnd(s: QString, b: nat, s': QString, b': nat, n: nat, k: nat)
    requires SameText(s, b, s', b', n) && k <= n
    ensures HostEnd(s', b' + k, b' + n) - b' == HostEnd(s, b + k, b + n) - b
    decreases n - k
  {
    if k < n {
      SameChar(s, b, s', b', n, k);
      SameHostEnd(s, b, s', b', n, k + 1);
    }
  }

  /** Protocol and host are found in the same place. */
  lemma {:induction false} SameScan(s: QString, b: nat, s': QString, b': nat, n: nat)
    requires SameText(s, b, s', b', n)
    ensures HostStart(s', b', b' + n) - b' == HostStart(s, b, b + n) - b
    ensures HostEnd(s', HostStart(s', b', b' + n), b' + n) - b' == HostEnd(s, HostStart(s, b, b + n), b + n) - b
  {
    SameHostStart(s, b, s', b', n);
    SameHostEnd(s, b, s', b', n, HostStart(s, b, b + n) - b);
  }

  lemma {:induction false} SameSlice(s: QString, i: nat, s': QString, i': nat, n: nat, from: nat, to: nat)
    requires SameText(s, i, s', i', n) && i <= from <= to <= i + n
    ensures s[from..to] == s'[from - i + i'..to - i + i']
  {
    SliceOfSlice(s, i, i + n, from, to);
    SliceOfSlice(s', i', i' + n, from - i + i', to - i + i');
  }

  lemma {:induction false} SliceOfSlice(s: QString, i: nat, j: nat, a: nat, b: nat)
    requires i <= a <= b <= j <= |s|
    ensures s[i..j][a - i..b - i] == s[a..b]
  {
    var inner, outer := s[i..j][a - i..b - i], s[a..b];
    assert |inner| == |outer|;
    forall k | 0 <= k < |inner| ensures inner[k] == outer[k] {
      assert inner[k] == s[i..j][k + (a - i)] == s[a + k];
    }
  }

  lemma {:induction false} SameDepth(s: QString, t: nat, s': QString, t': nat, n: nat)
    requires SameText(s, t, s', t', n)
    ensures Depth(s', t', t' + n) == Depth(s, t, t + n)
    ensures ReturnsToZero(s', t', t' + n) == ReturnsToZero(s, t, t + n)
  {
    if n > 0 {
      SameSlice(s, t, s', t', n, t, t + n - 1);
      SameDepth(s, t, s', t', n - 1);
      SameChars(s, t, s', t', n);
    }
  }

  lemma {:induction false} SameApart(s: QString, b: nat, s': QString, b': nat, n: nat)
    requires SameText(s, b, s', b', n)
    ensures Apart(s', b', b' + n) == Moved(Apart(s, b, b + n), b')
  {
    SameScan(s, b, s', b', n);
  }

  /** ... and judged the same. */
  lemma {:induction false} SameLink(tables: Tables, s: QString, p: Parsed, s': QString, b': nat)
    requires p.Within(s) && SameText(s, p.start, s', b', p.end - p.start)
    ensures IsLink(tables, s', Moved(p, b')) <==> IsLink(tables, s, p)
  {
    var p' := Moved(p, b');
    SameSlice(s, p.start, s', b', p.end - p.start, p.hostStart, p.hostEnd);
    SameSlice(s, p.start, s', b', p.end - p.start, p.hostEnd, p.end);
    LinkOfParts(tables, s, p, p.Host(s), p.Rest(s));
    LinkOfParts(tables, s', p', p.Host(s), p.Rest(s));
  }

  lemma {:induction false} LinkOfParts(tables: Tables, s: QString, p: Parsed, host: QString, rest: QString)
    requires p.Within(s) && p.Host(s) == host && p.Rest(s) == rest
    ensures IsLink(tables, s, p) <==> GoodParts(tables, host, rest)
  {
  }

  /** The candidate in a text that strips down to the same characters. */
  lemma {:induction false} SameCandidate(s: QString, b: nat, e: nat, s': QString, b': nat)
    requires b < e <= |s| && StripsTo(s, b, e) && SameText(s, b, s', b', e - b) && StripsTo(s', b', b' + (e - b))
    ensures Candidate(s).start == b && Candidate(s).end == e && Candidate(s') == Moved(Candidate(s), b')
  {
    StripsToIs(s, b, e);
    StripsToIs(s', b', b' + (e - b));
    SameApart(s, b, s', b', e - b);
  }

  /** `s[b..e]` is what is left of `s` without the characters that are stripped. */
  ghost predicate StripsTo(s: QString, b: nat, e: nat) {
    b < e <= |s|
    && (forall j :: 0 <= j < b ==> IsPrefixChar(s[j])) && !IsPrefixChar(s[b])
    && (forall j :: e <= j < |s| ==> IsSuffixChar(s[j])) && !IsSuffixChar(s[e - 1])
  }

  lemma {:induction false} StripsToIs(s: QString, b: nat, e: nat)
    requires StripsTo(s, b, e)
    ensures StripStart(s, 0) == b && StripEnd(s, b, |s|) == e
  {
    StripStartIs(s, 0, b);
    StripEndIs(s, b, |s|, e);
  }

  /** The same parts, but starting at `b`. */
  function Moved(p: Parsed, b: nat): Parsed
    requires p.start <= p.hostStart <= p.hostEnd <= p.end
  {
    Parsed(b, p.hostStart - p.start + b, p.hostEnd - p.start + b, p.end - p.start + b)
  }

  lemma {:induction false} LinkNotEmpty(tables: Tables, source: QString)
    requires IsLink(tables, source, Candidate(source))
    ensures Candidate(source).start < Candidate(source).end
  {
    var c := Candidate(source);
    HostNotEmpty(tables, c.Host(source), c.hostEnd == c.end);
  }

  lemma {:induction false} SameView(source: QString, p: Parsed, i: nat, j: nat)
    requires p.Within(source) && p.start <= i <= j <= p.end
    ensures p.Link(source)[i - p.start..j - p.start] == source[i..j]
  {
    SliceOfSlice(source, p.start, p.end, i, j);
  }

  lemma {:induction false} SameHostAndRest(source: QString, p: Parsed)
    requires p.Within(source)
    ensures var again, link := Moved(p, 0), p.Link(source);
      again.Within(link) && again.Host(link) == p.Host(source) && again.Rest(link) == p.Rest(source)
  {
    SameView(source, p, p.hostStart, p.hostEnd);
    SameView(source, p, p.hostEnd, p.end);
  }

  lemma {:induction false} SameViews(source: QString, p: Parsed)
    requires p.Within(source)
    ensures var again, link := Moved(p, 0), p.Link(source);
      again.Within(link) && again.Link(link) == link && again.Protocol(link) == p.Protocol(source)
      && again.Host(link) == p.Host(source) && again.Rest(link) == p.Rest(source)
  {
    SameHostAndRest(source, p);
    SameView(source, p, p.start, p.hostStart);
    SameView(source, p, p.start, p.end);
  }

  lemma {:induction false} LastCloseHere(link: QString, t: nat, e: nat)
    requires t <= e < |link| && ReturnsToZero(link, t, |link|)
    ensures LastClose(link, t, e, |link|) == |link|
  {
  }

  /** An extension ends with the closing parenthesis that makes it extend again. */
  lemma {:induction false} ExtendsAgain(source: QString, c: Parsed, p: Parsed)
    requires c.Within(source) && p == Extended(source, c) && p.end >= c.end
    ensures Moved(c, 0).Within(p.Link(source)) && Extended(p.Link(source), Moved(c, 0)) == Moved(p, 0)
  {
    var link, t := p.Link(source), c.hostEnd - c.start;
    if p.end > c.end {
      LastCloseIs(source, c.hostEnd, c.end, |source|);
      SameView(source, p, c.hostEnd, p.end);
      SameDepth(source, c.hostEnd, link, t, p.end - c.hostEnd);
      LastCloseHere(link, t, c.end - c.start);
    }
  }

  lemma {:induction false} StrippedStripsTo(source: QString, c: Parsed)
    requires c.Within(source) && Stripped(source, c) && c.start < c.end
    ensures StripsTo(source, c.start, c.end)
  {
  }

  lemma {:induction false} PartStripsTo(source: QString, b: nat, e: nat, end: nat)
    requires e <= end <= |source| && StripsTo(source, b, e)
    ensures StripsTo(source[b..end], 0, e - b) && SameText(source, b, source[b..end], 0, e - b)
  {
    var link := source[b..end];
    assert forall j :: 0 <= j < |link| ==> link[j] == source[b + j];
    assert link[..e - b] == source[b..e];
  }

  /** The text of a link strips down to the same candidate. */
  lemma {:induction false} LinkStripsToCandidate(source: QString, p: Parsed)
    requires p.Within(source) && Stripped(source, Candidate(source)) && Candidate(source).start < Candidate(source).end
    requires p.start == Candidate(source).start && p.end >= Candidate(source).end
    ensures Candidate(p.Link(source)) == Moved(Candidate(source), 0)
  {
    var c, link := Candidate(source), p.Link(source);
    StrippedStripsTo(source, c);
    PartStripsTo(source, c.start, c.end, p.end);
    SameCandidate(source, c.start, c.end, link, 0);
  }

  /** Parsing a link again, alone, gives the same link with the same parts. */
  lemma {:induction false} ParseIsIdempotent(tables: Tables, source: QString)
    requires ParseResult(tables, source).Some?
    ensures var p := ParseResult(tables, source).value; var link := p.Link(source);
      ParseResult(tables, link) == Some(Moved(p, 0))
      && Moved(p, 0).Link(link) == link
      && Moved(p, 0).Protocol(link) == p.Protocol(source)
      && Moved(p, 0).Host(link) == p.Host(source)
      && Moved(p, 0).Rest(link) == p.Rest(source)
  {
    var p, c := ParseResult(tables, source).value, Candidate(source);
    LinkNotEmpty(tables, source);
    CandidateIsStripped(source);
    LinkEnd(tables, source);
    LinkStripsToCandidate(source, p);
    SameLink(tables, source, c, p.Link(source), 0);
    ExtendsAgain(source, c, p);
    SameViews(source, p);
  }

  // ----- A link in other surroundings -----------------------------------------------------------------------------

  /** The closing parentheses among the first `j` characters. */
  function Closings(s: QString, j: nat): nat
    requires j <= |s|
  {
    if j == 0 then 0 else Closings(s, j - 1) + if s[j - 1] == CLOSE then 1 else 0
  }

  /** Behind the link, where no parenthesis is opened, the nesting only goes down. */
  lemma {:induction false} DepthBehind(source: QString, t: nat, e: nat, suffix: QString, j: nat)
    requires t <= e && j <= |suffix| && e + |suffix| == |source| && source[e..] == suffix && AllSuffixChars(suffix)
    ensures var open, closed := Depth(source, t, e), Closings(suffix, j);
      Depth(source, t, e + j) == if closed < open then open - closed else 0
  {
    if j > 0 {
      DepthBehind(source, t, e, suffix, j - 1);
      assert source[e + j - 1] == source[e..][j - 1] == suffix[j - 1];
      assert IsSuffixChar(suffix[j - 1]);
    }
  }

  /** If enough are closed, the nesting returns to zero at one of the closing parentheses. */
  lemma {:induction false} ClosesSomewhere(source: QString, t: nat, e: nat, suffix: QString, j: nat) returns (k: nat)
    requires t <= e && j <= |suffix| && e + |suffix| == |source| && source[e..] == suffix && AllSuffixChars(suffix)
    requires 0 < Depth(source, t, e) <= Closings(suffix, j)
    ensures e < k <= |source| && ReturnsToZero(source, t, k)
  {
    if Closings(suffix, j - 1) >= Depth(source, t, e) {
      k := ClosesSomewhere(source, t, e, suffix, j - 1);
    } else {
      DepthBehind(source, t, e, suffix, j - 1);
      assert source[e + j - 1] == source[e..][j - 1];
      k := e + j;
    }
  }

  /** The nesting returns to zero behind `e` exactly if what is open there is closed there. */
  lemma {:induction false} ClosedBehind(source: QString, t: nat, e: nat, suffix: QString)
    requires t <= e && e + |suffix| == |source| && source[e..] == suffix && AllSuffixChars(suffix)
    ensures (exists k :: e < k <= |source| && ReturnsToZero(source, t, k))
       <==> 0 < Depth(source, t, e) <= Closings(suffix, |suffix|)
  {
    if 0 < Depth(source, t, e) <= Closings(suffix, |suffix|) {
      var k := ClosesSomewhere(source, t, e, suffix, |suffix|);
    }
    forall k | e < k <= |source| && ReturnsToZero(source, t, k)
      ensures 0 < Depth(source, t, e) <= Closings(suffix, |suffix|)
    {
      DepthBehind(source, t, e, suffix, k - 1 - e);
      DepthBehind(source, t, e, suffix, k - e);
      ClosingsGrow(suffix, k - e, |suffix|);
      assert suffix[k - 1 - e] == source[e..][k - 1 - e] == source[k - 1];
    }
  }

  lemma {:induction false} ClosingsGrow(s: QString, i: nat, j: nat)
    requires i <= j <= |s|
    ensures Closings(s, i) <= Closings(s, j)
  {
    if i < j {
      ClosingsGrow(s, i, j - 1);
    }
  }

  /** A text that is a link from its start to its end. */
  ghost predicate IsWholeLink(tables: Tables, link: QString) {
    var r := ParseResult(tables, link);
    r.Some? && r.value.start == 0 && r.value.end == |link|
  }

  lemma {:induction false} StripsInContext(link: QString, e: nat, prefix: QString, suffix: QString)
    requires StripsTo(link, 0, e) && AllPrefixChars(prefix) && AllSuffixChars(suffix)
    ensures StripsTo(prefix + link + suffix, |prefix|, |prefix| + e)
  {
    var source := prefix + link + suffix;
    forall j | |prefix| + e <= j < |source| ensures IsSuffixChar(source[j]) {
      assert source[j] == if j < |prefix| + |link| then link[j - |prefix|] else suffix[j - |prefix| - |link|];
    }
  }

  lemma {:induction false} TextInContext(link: QString, e: nat, prefix: QString, suffix: QString)
    requires e <= |link|
    ensures SameText(link, 0, prefix + link + suffix, |prefix|, e)
  {
    assert prefix + link + suffix == prefix + (link[..e] + (link[e..] + suffix));
  }

  /** The candidate is found again between characters that are stripped. */
  lemma {:induction false} CandidateInContext(tables: Tables, link: QString, prefix: QString, suffix: QString)
    requires IsWholeLink(tables, link) && AllPrefixChars(prefix) && AllSuffixChars(suffix)
    ensures var source := prefix + link + suffix;
      Candidate(source) == Moved(Candidate(link), |prefix|) && IsLink(tables, source, Candidate(source))
  {
    var source, e := prefix + link + suffix, Candidate(link).end;
    LinkNotEmpty(tables, link);
    WholeLinkStrips(tables, link);
    StripsInContext(link, e, prefix, suffix);
    TextInContext(link, e, prefix, suffix);
    SameCandidate(link, 0, e, source, |prefix|);
    SameLink(tables, link, Candidate(link), source, |prefix|);
  }

  lemma {:induction false} WholeLinkStrips(tables: Tables, link: QString)
    requires IsWholeLink(tables, link)
    ensures Candidate(link).start == 0 && StripsTo(link, 0, Candidate(link).end)
  {
    LinkNotEmpty(tables, link);
    CandidateIsStripped(link);
  }

  lemma {:induction false} DepthInContext(source: QString, d: nat, link: QString, t: nat)
    requires t <= |link| && d + |link| <= |source| && source[d..d + |link|] == link
    ensures Depth(source, d + t, d + |link|) == Depth(link, t, |link|)
    ensures ReturnsToZero(source, d + t, d + |link|) == ReturnsToZero(link, t, |link|)
  {
    SliceOfSlice(source, d, d + |link|, d + t, d + |link|);
    SameDepth(link, t, source, d + t, |link| - t);
  }

  lemma {:induction false} ClosesInContext(source: QString, d: nat, link: QString, suffix: QString, t: nat, e: nat)
    requires t <= e <= |link| && (e == |link| || ReturnsToZero(link, t, |link|)) && AllSuffixChars(suffix)
    requires d + |link| + |suffix| == |source| && source[d..d + |link|] == link && source[d + |link|..] == suffix
    ensures LastClose(source, d + t, d + e, |source|) == d + |link|
       <==> !(0 < Depth(link, t, |link|) <= Closings(suffix, |suffix|))
  {
    DepthInContext(source, d, link, t);
    ClosedBehind(source, d + t, d + |link|, suffix);
    LastCloseAt(source, d + t, d + e, d + |link|);
  }

  /** Where the extension ends in the new surroundings. */
  lemma {:induction false} ExtendsInContext(source: QString, d: nat, link: QString, suffix: QString, c: Parsed)
    requires c.Within(link) && Extended(link, c).end == |link| && AllSuffixChars(suffix) && c.start == 0
    requires d + |link| + |suffix| == |source| && source[d..d + |link|] == link && source[d + |link|..] == suffix
    ensures Extended(source, Moved(c, d)).end == d + |link|
       <==> !(0 < Depth(link, c.hostEnd, |link|) <= Closings(suffix, |suffix|))
  {
    if c.hostEnd == c.end {
      assert Depth(link, c.hostEnd, |link|) == 0;
    } else if d + c.end == |source| {
      assert Closings(suffix, |suffix|) == 0;
    } else {
      LastCloseIs(link, c.hostEnd, c.end, |link|);
      ClosesInContext(source, d, link, suffix, c.hostEnd, c.end);
    }
  }

  /** The scan ends at `end` if it is a place to end at, and there is none behind it. */
  lemma {:induction false} LastCloseAt(source: QString, t: nat, e: nat, end: nat)
    requires t <= e <= end <= |source| && (e == end || ReturnsToZero(source, t, end))
    ensures LastClose(source, t, e, |source|) == end
       <==> !(exists k :: end < k <= |source| && ReturnsToZero(source, t, k))
  {
    LastCloseIs(source, t, e, |source|);
  }

  /**
   * A link between characters that are ignored there is found with the same protocol and host, and
   * as the same link exactly if the parentheses that it leaves open are not all closed behind it.
   */
  lemma {:induction false} ParseInContext(tables: Tables, link: QString, prefix: QString, suffix: QString)
    requires IsWholeLink(tables, link) && AllPrefixChars(prefix) && AllSuffixChars(suffix)
    ensures var source, p := prefix + link + suffix, ParseResult(tables, link).value;
      var r := ParseResult(tables, source);
      r.Some? && r.value.start == |prefix|
      && r.value.hostStart == |prefix| + p.hostStart && r.value.hostEnd == |prefix| + p.hostEnd
      && (r.value.end == |prefix| + |link| <==>
          !(0 < Depth(link, p.hostEnd, |link|) <= Closings(suffix, |suffix|)))
  {
    var source := prefix + link + suffix;
    CandidateInContext(tables, link, prefix, suffix);
    assert source[|prefix|..|prefix| + |link|] == link && source[|prefix| + |link|..] == suffix;
    ExtendsInContext(source, |prefix|, link, suffix, Candidate(link));
  }

  // ----- Putting a link together ---------------------------------------------------------------------------------

  lemma {:induction false} DotOf(host: QString, i: nat) returns (k: nat)
    requires i <= |host| && |Labels(host, i)| > 1
    ensures k < i && host[k] == DOT
  {
    if host[i - 1] == DOT {
      k := i - 1;
    } else {
      k := DotOf(host, i - 1);
    }
  }

  /** A host does not start with a protocol: that has a colon where the host has no dot yet. */
  lemma {:induction false} NoProtocol(link: QString, n: nat, dot: nat)
    requires dot < n <= |link| && link[dot] == DOT && forall k :: 0 <= k < n ==> IsValidDomainChar(link[k])
    ensures HostStart(link, 0, |link|) == 0
  {
  }

  lemma {:induction false} HostStartOfParts(tables: Tables, protocol: QString, host: QString, rest: QString)
    requires (protocol == [] || IsProtocol(protocol)) && IsHost(tables, host)
    ensures var link := protocol + host + rest; HostStart(link, 0, |link|) == |protocol|
  {
    var link := protocol + host + rest;
    var dot := DotOf(host, |host|);
    if protocol == [] {
      assert forall k :: 0 <= k < |host| ==> link[k] == host[k];
      NoProtocol(link, |host|, dot);
    } else {
      assert link[..|protocol|] == protocol;
      assert forall k :: 0 <= k < |protocol| ==> link[k] == protocol[k];
    }
  }

  lemma {:induction false} HostEndOfParts(tables: Tables, protocol: QString, host: QString, rest: QString)
    requires IsHost(tables, host) && IsRest(tables, rest)
    ensures var link := protocol + host + rest; HostEnd(link, |protocol|, |link|) == |protocol| + |host|
  {
    var link, h, t := protocol + host + rest, |protocol|, |protocol| + |host|;
    assert forall k :: h <= k < t ==> link[k] == host[k - h] && IsValidDomainChar(link[k]);
    assert rest != [] ==> link[t] == rest[0];
    HostEndIs(link, h, |link|, t);
  }

  /**
   * A protocol or none, a host and a rest make a link that is taken apart into just these, if nothing
   * of it is stripped.
   */
  lemma {:induction false} ParseOfParts(tables: Tables, protocol: QString, host: QString, rest: QString)
    requires ProperTables(tables)
    requires (protocol == [] || IsProtocol(protocol)) && IsHost(tables, host) && IsRest(tables, rest)
    requires var link := protocol + host + rest; link != [] && !IsPrefixChar(link[0]) && !IsSuffixChar(link[|link| - 1])
    ensures ParseResult(tables, protocol + host + rest)
         == Some(Parsed(0, |protocol|, |protocol| + |host|, |protocol| + |host| + |rest|))
  {
    var link, h, t := protocol + host + rest, |protocol|, |protocol| + |host|;
    StripsToIs(link, 0, |link|);
    HostStartOfParts(tables, protocol, host, rest);
    HostEndOfParts(tables, protocol, host, rest);
    var p := Parsed(0, h, t, |link|);
    assert p.Host(link) == host && p.Rest(link) == rest;
    LinkOfParts(tables, link, p, host, rest);
    IsHostIsGood(tables, host, rest == []);
  }
}

/** A link that other surroundings change. */
module LinkParserExamples {
  import opened LinkParser
  import opened LinkParserProperties
  import opened Texts
  import opened Wrappers

  const COM: QString := ['c' as int, 'o' as int, 'm' as int]

  /** "a.com" */
  const EXAMPLE_HOST: QString := ['a' as int, DOT, 'c' as int, 'o' as int, 'm' as int]

  /** "/(foo" */
  const EXAMPLE_REST: QString := ['/' as int, OPEN, 'f' as int, 'o' as int, 'o' as int]

  lemma {:induction false} LabelGrows(host: QString, i: nat, front: seq<QString>, last: QString, longer: QString)
    requires i < |host| && Labels(host, i) == front + [last] && host[i] != DOT && longer == last + [host[i]]
    ensures Labels(host, i + 1) == front + [longer]
  {
  }

  lemma {:induction false} LabelEnds(host: QString, i: nat, labels: seq<QString>)
    requires i < |host| && Labels(host, i) == labels && host[i] == DOT
    ensures Labels(host, i + 1) == labels + [[]]
  {
  }

  lemma {:induction false} LabelsOfExample()
    ensures AllLabels(EXAMPLE_HOST) == [['a' as int], COM]
  {
    var host: QString := EXAMPLE_HOST;
    var a: QString, c: QString, co: QString := ['a' as int], ['c' as int], ['c' as int, 'o' as int];
    assert Labels(host, 0) == [] + [[]];
    LabelGrows(host, 0, [], [], a);
    assert [] + [a] == [a];
    LabelEnds(host, 1, [a]);
    LabelGrows(host, 2, [a], [], c);
    LabelGrows(host, 3, [a], c, co);
    LabelGrows(host, 4, [a], co, COM);
    assert [a] + [COM] == [a, COM];
  }

  lemma {:induction false} ExampleIsHost(tables: Tables)
    requires tables.isValidTld(COM)
    ensures IsHost(tables, EXAMPLE_HOST)
  {
    LabelsOfExample();
  }

  lemma {:induction false} ExampleIsLink(tables: Tables)
    requires ProperTables(tables) && tables.isValidTld(COM)
    ensures var link := EXAMPLE_HOST + EXAMPLE_REST;
      ParseResult(tables, link) == Some(Parsed(0, 0, 5, 10)) && Candidate(link).end == 10
  {
    var link := EXAMPLE_HOST + EXAMPLE_REST;
    ExampleIsHost(tables);
    assert [] + EXAMPLE_HOST + EXAMPLE_REST == link;
    ParseOfParts(tables, [], EXAMPLE_HOST, EXAMPLE_REST);
    LinkEnd(tables, link);
  }

  lemma {:induction false} ExampleIsOpen()
    ensures Depth(EXAMPLE_HOST + EXAMPLE_REST, 5, 10) == 1 && Closings([CLOSE], 1) == 1
  {
    var link := EXAMPLE_HOST + EXAMPLE_REST;
    assert Depth(link, 5, 6) == 0;
    assert Depth(link, 5, 8) == Depth(link, 5, 7) == 1;
    assert Depth(link, 5, 9) == 1;
    assert Closings([CLOSE], 0) == 0;
  }

  /** "a.com/(foo" alone is a link, but in front of ")" it is found together with that. */
  lemma {:induction false} OpenLinkIsExtended(tables: Tables)
    requires ProperTables(tables) && tables.isValidTld(COM)
    ensures var link := EXAMPLE_HOST + EXAMPLE_REST;
      IsWholeLink(tables, link) && IsWholeLink(tables, link + [CLOSE])
  {
    var link := EXAMPLE_HOST + EXAMPLE_REST;
    ExampleIsLink(tables);
    ExampleIsOpen();
    assert [] + link + [CLOSE] == link + [CLOSE];
    ParseInContext(tables, link, [], [CLOSE]);
    CandidateInContext(tables, link, [], [CLOSE]);
    LinkEnd(tables, link + [CLOSE]);
  }
}
