/**
 * Finding a link in a word (src/common/LinkParser.cpp and LinkParser.hpp), after section 6.9,
 * "Autolinks (extension)", of the GitHub Flavored Markdown Spec.
 *
 * A view into a text is a pair of positions.
 */
module LinkParser {
  import opened Arithmetic
  import opened Sequences
  import opened Texts
  import opened Wrappers

  newtype uint8 = n: int | 0 <= n < 0x100
  newtype uint16 = n: int | 0 <= n < 0x10000

  /** The table of top level domains and what Qt calls a digit. */
  datatype Tables = Tables(isValidTld: QString -> bool, isDigit: QChar -> bool)

  /** The four views of a link, by the positions between them: protocol, host, rest; the link is all of them. */
  datatype Parsed = Parsed(start: nat, hostStart: nat, hostEnd: nat, end: nat) {
    predicate Within(source: QString) {
      start <= hostStart <= hostEnd <= end <= |source|
    }

    function Protocol(source: QString): QString
      requires Within(source)
    {
      source[start..hostStart]
    }

    function Host(source: QString): QString
      requires Within(source)
    {
      source[hostStart..hostEnd]
    }

    function Rest(source: QString): QString
      requires Within(source)
    {
      source[hostEnd..end]
    }

    function Link(source: QString): QString
      requires Within(source)
    {
      source[start..end]
    }

    predicate HasPrefix(source: QString)
      requires Within(source)
    {
      start != 0
    }

    function Prefix(source: QString): QString
      requires Within(source)
    {
      source[..start]
    }

    predicate HasSuffix(source: QString)
      requires Within(source)
    {
      end != |source|
    }

    function Suffix(source: QString): QString
      requires Within(source)
    {
      source[end..]
    }
  }

  // ----- Characters --------------------------------------------------------------------------------------

  const DOT: QChar := '.' as int
  const COLON: QChar := ':' as int
  const OPEN: QChar := '(' as int
  const CLOSE: QChar := ')' as int

  /** Ignored in front of a link. */
  predicate IsPrefixChar(c: QChar) {
    c == '<' as int || c == '*' as int || c == '_' as int || c == '~' as int || c == OPEN
  }

  /** Ignored behind a link; unlike in the specification, '_' is not. */
  predicate IsSuffixChar(c: QChar) {
    c == '>' as int || c == '?' as int || c == '!' as int || c == DOT || c == ',' as int ||
    c == COLON || c == '*' as int || c == '~' as int || c == CLOSE
  }

  predicate IsValidDomainChar(c: QChar) {
    c >= 0x80 || '0' as int <= c <= '9' as int || 'A' as int <= c <= 'Z' as int ||
    'a' as int <= c <= 'z' as int || c == '_' as int || c == '-' as int || c == DOT
  }

  /** Starts the path, the query or the anchor. */
  predicate IsSeparator(c: QChar) {
    c == '/' as int || c == '?' as int || c == '#' as int
  }

  predicate EndsHost(c: QChar) {
    c == COLON || IsSeparator(c)
  }

  // ----- Labels of a host ----------------------------------------------------------------------------------

  /** The first `i` characters, split at the dots. */
  function Labels(host: QString, i: nat): (labels: seq<QString>)
    requires i <= |host|
    ensures |labels| >= 1
  {
    if i == 0 then [[]] else
      var before := Labels(host, i - 1);
      var n := |before| - 1;
      if host[i - 1] == DOT then before + [[]] else before[n := before[n] + [host[i - 1]]]
  }

  function AllLabels(host: QString): seq<QString> {
    Labels(host, |host|)
  }

  function LastLabel(labels: seq<QString>): QString
    requires labels != []
  {
    labels[|labels| - 1]
  }

  /** The first `k` labels with dots between them. */
  function JoinedUpTo(labels: seq<QString>, k: nat): QString
    requires 0 < k <= |labels|
  {
    if k == 1 then labels[0] else JoinedUpTo(labels, k - 1) + [DOT] + labels[k - 1]
  }

  function Joined(labels: seq<QString>): QString
    requires labels != []
  {
    JoinedUpTo(labels, |labels|)
  }

  lemma {:induction false} JoinedPrefix(a: seq<QString>, b: seq<QString>, k: nat)
    requires 0 < k <= |a| && k <= |b| && forall j :: 0 <= j < k ==> a[j] == b[j]
    ensures JoinedUpTo(a, k) == JoinedUpTo(b, k)
  {
    if k > 1 {
      JoinedPrefix(a, b, k - 1);
    }
  }

  lemma {:induction false} LabelsHaveNoDots(host: QString, i: nat)
    requires i <= |host|
    ensures forall k :: 0 <= k < |Labels(host, i)| ==> DOT !in Labels(host, i)[k]
  {
    if i > 0 {
      LabelsHaveNoDots(host, i - 1);
    }
  }

  lemma {:induction false} LongerLabelJoins(labels: seq<QString>, c: QChar)
    requires labels != []
    ensures Joined(labels[|labels| - 1 := LastLabel(labels) + [c]]) == Joined(labels) + [c]
  {
    var n := |labels| - 1;
    var longer := labels[n := LastLabel(labels) + [c]];
    if n > 0 {
      JoinedPrefix(longer, labels, n);
      ConcatAssociates(JoinedUpTo(labels, n) + [DOT], LastLabel(labels), [c]);
    }
  }

  lemma {:induction false} NewLabelJoins(labels: seq<QString>)
    requires labels != []
    ensures Joined(labels + [[]]) == Joined(labels) + [DOT]
  {
    JoinedPrefix(labels + [[]], labels, |labels|);
  }

  lemma {:induction false} PrefixGrows(s: QString, k: nat)
    requires 0 < k <= |s|
    ensures s[..k] == s[..k - 1] + [s[k - 1]]
  {
  }

  lemma {:induction false} LabelsJoinUpTo(host: QString, i: nat)
    requires i <= |host|
    ensures Joined(Labels(host, i)) == host[..i]
  {
    if i > 0 {
      LabelsJoinUpTo(host, i - 1);
      PrefixGrows(host, i);
      if host[i - 1] == DOT {
        NewLabelJoins(Labels(host, i - 1));
      } else {
        LongerLabelJoins(Labels(host, i - 1), host[i - 1]);
      }
    }
  }

  /** Splitting is exact: the labels have no dots in them and make up the host again. */
  lemma {:induction false} LabelsJoin(host: QString, i: nat)
    requires i <= |host|
    ensures Joined(Labels(host, i)) == host[..i]
    ensures forall k :: 0 <= k < |Labels(host, i)| ==> DOT !in Labels(host, i)[k]
  {
    LabelsJoinUpTo(host, i);
    LabelsHaveNoDots(host, i);
  }

  /** Reading on changes only the last part, which becomes longer, and adds labels behind it. */
  lemma {:induction false} LabelsGrow(host: QString, i: nat, n: nat)
    requires i <= n <= |host|
    ensures |Labels(host, i)| <= |Labels(host, n)|
    ensures Labels(host, i)[..|Labels(host, i)| - 1] <= Labels(host, n)
    ensures LastLabel(Labels(host, i)) <= Labels(host, n)[|Labels(host, i)| - 1]
  {
    if i < n {
      LabelsGrow(host, i, n - 1);
    }
  }

  /** Only the last label changes. */
  lemma {:induction false} LabelStays(host: QString, i: nat, n: nat, j: nat)
    requires i <= n <= |host| && j < |Labels(host, i)| - 1
    ensures j < |Labels(host, n)| - 1 && Labels(host, n)[j] == Labels(host, i)[j]
  {
    if i < n {
      LabelStays(host, i, n - 1, j);
    }
  }

  // ----- IPv4 addresses ------------------------------------------------------------------------------------------

  function Value(digits: QString): (v: nat)
    requires AllDigits(digits)
  {
    if digits == [] then 0
    else 10 * Value(digits[..|digits| - 1]) + (digits[|digits| - 1] - '0' as int)
  }

  /** The start of a group of the address: at most three digits with a value of at most 255. */
  predicate StartsOctet(s: QString) {
    |s| <= 3 && AllDigits(s) && Value(s) <= 255
  }

  /** One to three digits, leading zeros allowed, with a value of at most 255. */
  predicate IsOctet(s: QString) {
    s != [] && StartsOctet(s)
  }

  predicate IsIpv4(host: QString) {
    |AllLabels(host)| == 4 && forall k :: 0 <= k < 4 ==> IsOctet(AllLabels(host)[k])
  }

  lemma {:induction false} ValueGrows(a: QString, b: QString)
    requires a <= b && AllDigits(b)
    ensures AllDigits(a) && Value(a) <= Value(b)
    decreases |b|
  {
    if a != b {
      assert a <= b[..|b| - 1];
      ValueGrows(a, b[..|b| - 1]);
    } else {
      assert a == b;
    }
  }

  /** What is known after `i` characters. */
  ghost predicate Ipv4SoFar(host: QString, i: nat)
    requires i <= |host|
  {
    var labels := Labels(host, i);
    |labels| <= 4 && StartsOctet(LastLabel(labels)) && forall k :: 0 <= k < |labels| - 1 ==> IsOctet(labels[k])
  }

  /** An address never leaves this state, so that the loop may give up when it does. */
  lemma {:induction false} Ipv4StaysGood(host: QString, i: nat)
    requires i <= |host| && IsIpv4(host)
    ensures Ipv4SoFar(host, i)
  {
    LabelsGrow(host, i, |host|);
    var labels, all := Labels(host, i), AllLabels(host);
    ValueGrows(LastLabel(labels), all[|labels| - 1]);
    forall k | 0 <= k < |labels| - 1 ensures IsOctet(labels[k]) {
      assert labels[..|labels| - 1][k] == all[k];
    }
  }

  lemma {:induction false} Ipv4Fails(host: QString, i: nat)
    requires i <= |host| && !Ipv4SoFar(host, i)
    ensures !IsIpv4(host)
  {
    if IsIpv4(host) {
      Ipv4StaysGood(host, i);
    }
  }

  lemma {:induction false} Ipv4Dot(host: QString, i: nat)
    requires i < |host| && Ipv4SoFar(host, i) && host[i] == DOT
    ensures Ipv4SoFar(host, i + 1) <==> LastLabel(Labels(host, i)) != [] && |Labels(host, i)| < 4
    ensures Labels(host, i + 1) == Labels(host, i) + [[]]
  {
    var labels, next := Labels(host, i), Labels(host, i + 1);
    assert next[|labels| - 1] == LastLabel(labels);
    assert forall k :: 0 <= k < |labels| - 1 ==> next[k] == labels[k];
  }

  lemma {:induction false} Ipv4Digit(host: QString, i: nat)
    requires i < |host| && Ipv4SoFar(host, i) && host[i] != DOT
    ensures var s, c := LastLabel(Labels(host, i)), host[i];
      LastLabel(Labels(host, i + 1)) == s + [c] && |Labels(host, i + 1)| == |Labels(host, i)|
      && (Ipv4SoFar(host, i + 1) <==> IsAsciiDigit(c) && |s| < 3 && 10 * Value(s) + (c - '0' as int) <= 255)
      && (IsAsciiDigit(c) ==> AllDigits(s + [c]) && Value(s + [c]) == 10 * Value(s) + (c - '0' as int))
  {
    var s, c := LastLabel(Labels(host, i)), host[i];
    assert (s + [c])[..|s|] == s && (s + [c])[|s|] == c;
  }

  /** The counters of the loop after `i` characters. */
  ghost predicate Counted(host: QString, i: nat, value: int, octets: int, digits: int, lastWasDot: bool) {
    i <= |host| && Ipv4SoFar(host, i) && octets == |Labels(host, i)| - 1
    && digits == |LastLabel(Labels(host, i))| && value == Value(LastLabel(Labels(host, i)))
    && (lastWasDot <==> digits == 0)
  }

  lemma {:induction false} CountedFits(host: QString, i: nat, value: int, octets: int, digits: int, lastWasDot: bool)
    requires Counted(host, i, value, octets, digits, lastWasDot)
    ensures 0 <= value <= 255 && 0 <= octets <= 3 && 0 <= digits <= 3
  {
  }

  lemma {:induction false} CountDot(host: QString, i: nat, value: int, octets: int, digits: int, lastWasDot: bool)
    requires Counted(host, i, value, octets, digits, lastWasDot) && i < |host| && host[i] == DOT
    ensures if lastWasDot || octets == 3 then !IsIpv4(host) else Counted(host, i + 1, 0, octets + 1, 0, true)
  {
    Ipv4Dot(host, i);
    if lastWasDot || octets == 3 {
      Ipv4Fails(host, i + 1);
    }
  }

  lemma {:induction false} CountDigit(host: QString, i: nat, value: int, octets: int, digits: int, lastWasDot: bool)
    requires Counted(host, i, value, octets, digits, lastWasDot) && i < |host| && host[i] != DOT
    ensures var next := 10 * value + (host[i] - '0' as int);
      if IsAsciiDigit(host[i]) && next <= 255 && digits < 3 then Counted(host, i + 1, next, octets, digits + 1, false)
      else !IsIpv4(host)
  {
    Ipv4Digit(host, i);
    if !(IsAsciiDigit(host[i]) && 10 * value + (host[i] - '0' as int) <= 255 && digits < 3) {
      Ipv4Fails(host, i + 1);
    }
  }

  lemma {:induction false} CountedAll(host: QString, value: int, octets: int, digits: int, lastWasDot: bool)
    requires Counted(host, |host|, value, octets, digits, lastWasDot)
    ensures IsIpv4(host) <==> octets == 3 && !lastWasDot
  {
  }

  /** The counters have the widths of the original and never leave them. */
  method IsValidIpv4(host: QString) returns (valid: bool)
    ensures valid <==> IsIpv4(host)
  {
    var sectionValue: uint16 := 0;
    var octetNumber: uint8 := 0;
    var sectionDigits: uint8 := 0;
    var lastWasDot := true;
    for i := 0 to |host|
      invariant Counted(host, i, sectionValue as int, octetNumber as int, sectionDigits as int, lastWasDot)
    {
      var current := host[i];
      CountedFits(host, i, sectionValue as int, octetNumber as int, sectionDigits as int, lastWasDot);
      if current == DOT {
        CountDot(host, i, sectionValue as int, octetNumber as int, sectionDigits as int, lastWasDot);
        if lastWasDot || octetNumber == 3 {
          return false;
        }
        lastWasDot := true;
        octetNumber := octetNumber + 1;
        sectionValue := 0;
        sectionDigits := 0;
      } else {
        CountDigit(host, i, sectionValue as int, octetNumber as int, sectionDigits as int, lastWasDot);
        lastWasDot := false;
        if current > '9' as int || current < '0' as int {
          return false;
        }
        sectionValue := sectionValue * 10 + (current - '0' as int) as uint16;
        sectionDigits := sectionDigits + 1;
        if sectionValue >= 256 || sectionDigits > 3 {
          return false;
        }
      }
    }
    CountedAll(host, sectionValue as int, octetNumber as int, sectionDigits as int, lastWasDot);
    return octetNumber == 3 && !lastWasDot;
  }

  // ----- Stripping ---------------------------------------------------------------------------------------------

  function StripStart(s: QString, i: nat): (b: nat)
    requires i <= |s|
    ensures i <= b <= |s|
    decreases |s| - i
  {
    if i == |s| || !IsPrefixChar(s[i]) then i else StripStart(s, i + 1)
  }

  function StripEnd(s: QString, b: nat, k: nat): (e: nat)
    requires b <= k <= |s|
    ensures b <= e <= k
    decreases k
  {
    if k == b || !IsSuffixChar(s[k - 1]) then k else StripEnd(s, b, k - 1)
  }

  /** The stripped text starts at the first character that is not stripped, and only there. */
  lemma {:induction false} StripStartIs(s: QString, i: nat, b: nat)
    requires i <= b <= |s|
    ensures StripStart(s, i) == b <==>
      (forall j :: i <= j < b ==> IsPrefixChar(s[j])) && (b < |s| ==> !IsPrefixChar(s[b]))
    decreases |s| - i
  {
    if i < b {
      StripStartIs(s, i + 1, b);
    }
  }

  lemma {:induction false} StripEndIs(s: QString, b: nat, k: nat, e: nat)
    requires b <= e <= k <= |s|
    ensures StripEnd(s, b, k) == e <==>
      (forall j :: e <= j < k ==> IsSuffixChar(s[j])) && (b < e ==> !IsSuffixChar(s[e - 1]))
    decreases k
  {
    if e < k {
      StripEndIs(s, b, k - 1, e);
    }
  }

  method Strip(source: QString) returns (b: nat, e: nat)
    ensures b == StripStart(source, 0) && e == StripEnd(source, b, |source|)
  {
    b, e := 0, |source|;
    while b < e && IsPrefixChar(source[b])
      invariant b <= e && StripStart(source, 0) == StripStart(source, b)
    {
      b := b + 1;
    }
    while b < e && IsSuffixChar(source[e - 1])
      invariant b <= e <= |source| && StripEnd(source, b, |source|) == StripEnd(source, b, e)
    {
      e := e - 1;
    }
  }

  // ----- Protocol, host and port --------------------------------------------------------------------------------

  /** ASCII letters, either case. */
  predicate IsLetter(c: QChar, lower: char)
    requires 'a' <= lower <= 'z'
  {
    c == lower as int || c == lower as int - 32
  }

  /** Where the host starts: behind "http://" or "https://", if at least eight characters start with that. */
  function HostStart(s: QString, b: nat, e: nat): (h: nat)
    requires b <= e <= |s|
    ensures b <= h <= e
  {
    if e - b >= 8 && IsLetter(s[b], 'h') && IsLetter(s[b + 1], 't') && IsLetter(s[b + 2], 't')
       && IsLetter(s[b + 3], 'p')
    then
      var w := if IsLetter(s[b + 4], 's') then b + 5 else b + 4;
      if s[w] == COLON && s[w + 1] == '/' as int && s[w + 2] == '/' as int then w + 3 else b
    else b
  }

  /** The host goes up to a port, path, query or anchor. */
  function HostEnd(s: QString, i: nat, e: nat): (t: nat)
    requires i <= e <= |s|
    ensures i <= t <= e
    decreases e - i
  {
    if i == e || EndsHost(s[i]) then i else HostEnd(s, i + 1, e)
  }

  lemma {:induction false} HostEndIs(s: QString, i: nat, e: nat, t: nat)
    requires i <= t <= e <= |s|
    ensures HostEnd(s, i, e) == t <==> (forall j :: i <= j < t ==> !EndsHost(s[j])) && (t < e ==> EndsHost(s[t]))
    decreases e - i
  {
    if i < t {
      HostEndIs(s, i + 1, e, t);
    }
  }

  /** The first `k` characters are digits, and there are five of them or the port ends there. */
  predicate IsPortOf(tables: Tables, s: QString, k: nat) {
    k <= 5 && k <= |s| && (forall j :: 0 <= j < k ==> tables.isDigit(s[j]))
    && (k == 5 || k == |s| || (k >= 1 && IsSeparator(s[k])))
  }

  /** Of a longer run of digits only the first five are looked at. */
  ghost predicate StartsPort(tables: Tables, s: QString) {
    exists k: nat :: IsPortOf(tables, s, k)
  }

  method StartsWithPort(tables: Tables, s: QString) returns (port: bool)
    ensures port <==> StartsPort(tables, s)
  {
    var n := if |s| < 5 then |s| else 5;
    for i := 0 to n
      invariant forall j :: 0 <= j < i ==> tables.isDigit(s[j])
      invariant forall j :: 1 <= j < i ==> !IsSeparator(s[j])
    {
      if i >= 1 && IsSeparator(s[i]) {
        assert IsPortOf(tables, s, i);
        return true;
      }
      if !tables.isDigit(s[i]) {
        return false;
      }
    }
    assert IsPortOf(tables, s, n);
    return true;
  }

  /** A dot does not stand in front or behind another dot, and at the end only if something follows the host. */
  ghost predicate GoodLabels(labels: seq<QString>, atEnd: bool)
    requires labels != []
  {
    |labels| >= 2 && (forall k :: 0 <= k < |labels| - 1 ==> labels[k] != []) && (atEnd ==> LastLabel(labels) != [])
  }

  ghost predicate GoodHost(tables: Tables, host: QString, atEnd: bool) {
    (forall k :: 0 <= k < |host| ==> IsValidDomainChar(host[k]))
    && GoodLabels(AllLabels(host), atEnd)
    && (IsIpv4(host) || tables.isValidTld(LastLabel(AllLabels(host))))
  }

  ghost predicate NeverGood(host: QString) {
    forall tables, atEnd :: !GoodHost(tables, host, atEnd)
  }

  // ----- Parentheses --------------------------------------------------------------------------------------------

  /** How deep the text is in parentheses after `k`, counted from `t`; a closing one too many does not count. */
  function Depth(s: QString, t: nat, k: nat): nat
    requires t <= k <= |s|
    decreases k
  {
    if k == t then 0
    else
      var d := Depth(s, t, k - 1);
      if s[k - 1] == OPEN then d + 1 else if s[k - 1] == CLOSE && d > 0 then d - 1 else d
  }

  /** A closing parenthesis in front of `k` brings the nesting back to zero. */
  predicate ReturnsToZero(s: QString, t: nat, k: nat)
    requires t <= k <= |s|
  {
    t < k && s[k - 1] == CLOSE && Depth(s, t, k - 1) == 1
  }

  /** The later of `e` and the last such place up to `k`. */
  function LastClose(s: QString, t: nat, e: nat, k: nat): (r: nat)
    requires t <= k <= |s|
    ensures r == e || t < r <= k
    decreases k
  {
    if k == t then e
    else if ReturnsToZero(s, t, k) && k > e then k
    else LastClose(s, t, e, k - 1)
  }

  lemma {:induction false} LastCloseIs(s: QString, t: nat, e: nat, k: nat)
    requires t <= k <= |s|
    ensures var r := LastClose(s, t, e, k);
      r >= e && (r > e ==> ReturnsToZero(s, t, r))
      && forall j :: t < j <= k && ReturnsToZero(s, t, j) ==> j <= r
    decreases k
  {
    if k > t {
      LastCloseIs(s, t, e, k - 1);
    }
  }

  /** The nesting counter, which is unsigned, is lowered only when it is not zero. */
  method ScanParentheses(source: QString, hostEnd: nat, end: nat) returns (newEnd: nat)
    requires hostEnd <= end <= |source|
    ensures newEnd == LastClose(source, hostEnd, end, |source|)
  {
    var nestingLevel: nat := 0;
    var lastClose: nat := end;
    var it: nat := hostEnd;
    while it < |source|
      invariant hostEnd <= it <= |source| && nestingLevel == Depth(source, hostEnd, it)
      invariant Max(end, lastClose) == LastClose(source, hostEnd, end, it)
    {
      if source[it] == OPEN {
        nestingLevel := nestingLevel + 1;
      } else if nestingLevel != 0 && source[it] == CLOSE {
        nestingLevel := nestingLevel - 1;
        if nestingLevel == 0 {
          lastClose := it + 1;
        }
      }
      it := it + 1;
    }
    newEnd := Max(end, lastClose);
  }

  // ----- Parsing ------------------------------------------------------------------------------------------------

  /** What the stripped text `s[b..e]` is taken apart into. */
  function Apart(s: QString, b: nat, e: nat): (p: Parsed)
    requires b <= e <= |s|
    ensures p.Within(s)
  {
    var h := HostStart(s, b, e);
    Parsed(b, h, HostEnd(s, h, e), e)
  }

  /** The candidate that the scan finds: the parts of the stripped text, before parentheses are looked at. */
  function Candidate(source: QString): (p: Parsed)
    ensures p.Within(source)
  {
    var b := StripStart(source, 0);
    Apart(source, b, StripEnd(source, b, |source|))
  }

  /** A host, and behind it a port, something else, or nothing. */
  ghost predicate GoodParts(tables: Tables, host: QString, rest: QString) {
    GoodHost(tables, host, rest == []) && (rest != [] && rest[0] == COLON ==> StartsPort(tables, rest[1..]))
  }

  /** A host in `source[h..t]`, and behind it up to `e` a port or something else. */
  ghost predicate HostAndPort(tables: Tables, source: QString, h: nat, t: nat, e: nat)
    requires h <= t <= e <= |source|
  {
    GoodParts(tables, source[h..t], source[t..e])
  }

  /** Whether the candidate is a link. */
  ghost predicate IsLink(tables: Tables, source: QString, p: Parsed)
    requires p.Within(source)
  {
    HostAndPort(tables, source, p.hostStart, p.hostEnd, p.end)
  }

  /** If something was stripped behind a link with a rest, the link is extended over closing parentheses. */
  function Extended(source: QString, p: Parsed): (r: Parsed)
    requires p.Within(source)
    ensures r.Within(source)
  {
    if p.end != |source| && p.hostEnd < p.end then
      LastCloseIs(source, p.hostEnd, p.end, |source|);
      p.(end := LastClose(source, p.hostEnd, p.end, |source|))
    else p
  }

  ghost function ParseResult(tables: Tables, source: QString): Option<Parsed> {
    var p := Candidate(source);
    if IsLink(tables, source, p) then Some(Extended(source, p)) else None
  }

  /** What the host loop knows after the first `k` characters of the host. */
  ghost predicate HostSoFar(host: QString, k: nat, lastWasDot: bool, lastDotPos: int, nDots: nat)
    requires k <= |host|
  {
    var labels := Labels(host, k);
    (forall j :: 0 <= j < k ==> IsValidDomainChar(host[j]))
    && (forall j :: 0 <= j < |labels| - 1 ==> labels[j] != [])
    && nDots == |labels| - 1 && (lastWasDot <==> LastLabel(labels) == [])
    && (if nDots == 0 then lastDotPos == -1 else 0 < lastDotPos < k)
    && host[lastDotPos + 1..k] == LastLabel(labels)
  }

  /** One character that is no dot. */
  lemma {:induction false} HostGoesOn(host: QString, k: nat, lastWasDot: bool, lastDotPos: int, nDots: nat)
    requires k < |host| && HostSoFar(host, k, lastWasDot, lastDotPos, nDots)
    requires host[k] != DOT && IsValidDomainChar(host[k])
    ensures HostSoFar(host, k + 1, false, lastDotPos, nDots)
  {
    var labels, next := Labels(host, k), Labels(host, k + 1);
    assert host[lastDotPos + 1..k + 1] == host[lastDotPos + 1..k] + [host[k]];
    assert forall j :: 0 <= j < |labels| - 1 ==> next[j] == labels[j];
  }

  /** A dot behind a label. */
  lemma {:induction false} HostHasDot(host: QString, k: nat, lastDotPos: int, nDots: nat)
    requires k < |host| && HostSoFar(host, k, false, lastDotPos, nDots) && host[k] == DOT
    ensures HostSoFar(host, k + 1, true, k, nDots + 1)
  {
    var labels, next := Labels(host, k), Labels(host, k + 1);
    assert next[|labels| - 1] == LastLabel(labels);
    assert host[k + 1..k + 1] == [];
  }

  lemma {:induction false} EmptyLabelIsBad(host: QString, j: nat)
    requires j < |AllLabels(host)| - 1 && AllLabels(host)[j] == []
    ensures NeverGood(host)
  {
  }

  /** A dot behind a dot, or in front of everything. */
  lemma {:induction false} DoubleDotIsBad(host: QString, k: nat, lastDotPos: int, nDots: nat)
    requires k < |host| && HostSoFar(host, k, true, lastDotPos, nDots) && host[k] == DOT
    ensures NeverGood(host)
  {
    var j := |Labels(host, k)| - 1;
    assert Labels(host, k + 1) == Labels(host, k) + [[]];
    LabelStays(host, k + 1, |host|, j);
    EmptyLabelIsBad(host, j);
  }

  /** What is known about the whole host, and whether the last thing seen was a dot. */
  ghost predicate HostScanned(host: QString, atEnd: bool, lastWasDot: bool, lastDotPos: int, nDots: nat) {
    HostSoFar(host, |host|, LastLabel(AllLabels(host)) == [], lastDotPos, nDots)
    && (lastWasDot <==> LastLabel(AllLabels(host)) == [] && atEnd)
  }

  /** The checks behind the loop decide whether the host is a good one. */
  lemma {:induction false} HostDecides(tables: Tables, host: QString, atEnd: bool, lastWasDot: bool,
      lastDotPos: int, nDots: nat)
    requires HostScanned(host, atEnd, lastWasDot, lastDotPos, nDots)
    ensures GoodLabels(AllLabels(host), atEnd) <==> !lastWasDot && lastDotPos > 0
    ensures -1 <= lastDotPos < |host| || lastDotPos == -1
    ensures lastDotPos < |host| && host[lastDotPos + 1..] == LastLabel(AllLabels(host))
    ensures IsIpv4(host) ==> nDots == 3
  {
    assert host[lastDotPos + 1..|host|] == host[lastDotPos + 1..];
  }

  /** One character of the host, at place `k` of it. */
  method HostChar(ghost host: QString, k: nat, c: QChar, wasDot: bool, dotPos: int, dots: nat)
    returns (ok: bool, lastWasDot: bool, lastDotPos: int, nDots: nat)
    requires k < |host| && host[k] == c && HostSoFar(host, k, wasDot, dotPos, dots)
    ensures ok ==> HostSoFar(host, k + 1, lastWasDot, lastDotPos, nDots)
    ensures !ok ==> NeverGood(host)
  {
    if c == DOT {
      if wasDot {
        DoubleDotIsBad(host, k, dotPos, dots);
        return false, wasDot, dotPos, dots;
      }
      HostHasDot(host, k, dotPos, dots);
      return true, true, k, dots + 1;
    }
    if !IsValidDomainChar(c) {
      return false, wasDot, dotPos, dots;
    }
    HostGoesOn(host, k, wasDot, dotPos, dots);
    return true, false, dotPos, dots;
  }

  lemma {:induction false} CharOfSlice(source: QString, h: nat, end: nat, t: nat)
    requires h <= t < end <= |source|
    ensures t - h < |source[h..end]| && source[h..end][t - h] == source[t]
  {
  }

  lemma {:induction false} NothingOfHost(host: QString)
    ensures HostSoFar(host, 0, true, -1, 0)
  {
  }

  /** The loop that extracts the host from `source[h..e]`, up to what ends it. */
  method ScanLabels(source: QString, h: nat, e: nat)
    returns (ok: bool, t: nat, lastWasDot: bool, lastDotPos: int, nDots: nat)
    requires h <= e <= |source|
    ensures ok ==> t == HostEnd(source, h, e) && HostSoFar(source[h..t], t - h, lastWasDot, lastDotPos, nDots)
    ensures !ok ==> NeverGood(source[h..HostEnd(source, h, e)])
  {
    ghost var end := HostEnd(source, h, e);
    ghost var host := source[h..end];
    HostEndIs(source, h, e, end);
    ok, t, lastWasDot, lastDotPos, nDots := true, h, true, -1, 0;
    NothingOfHost(host);
    while t < e && !EndsHost(source[t])
      invariant ok && h <= t <= end
      invariant HostSoFar(host, t - h, lastWasDot, lastDotPos, nDots)
    {
      CharOfSlice(source, h, end, t);
      ok, lastWasDot, lastDotPos, nDots := HostChar(host, t - h, source[t], lastWasDot, lastDotPos, nDots);
      if !ok {
        return;
      }
      t := t + 1;
    }
  }

  lemma {:induction false} PortOfRest(source: QString, t: nat, e: nat)
    requires t < e <= |source|
    ensures source[t..e] != [] && source[t..e][0] == source[t] && source[t..e][1..] == source[t + 1..e]
  {
  }

  lemma {:induction false} HostAndPortIs(tables: Tables, source: QString, h: nat, t: nat, e: nat)
    requires h <= t < e <= |source|
    ensures HostAndPort(tables, source, h, t, e) <==>
      GoodHost(tables, source[h..t], false) && (source[t] == COLON ==> StartsPort(tables, source[t + 1..e]))
  {
    PortOfRest(source, t, e);
  }

  /** ... and the port, if one comes next; `ok` is false when the text cannot be a link. */
  method ScanHost(tables: Tables, source: QString, h: nat, e: nat)
    returns (ok: bool, t: nat, lastWasDot: bool, lastDotPos: int, nDots: nat)
    requires h <= e <= |source|
    ensures ok ==> t == HostEnd(source, h, e)
    ensures ok ==> HostScanned(source[h..t], t == e, lastWasDot, lastDotPos, nDots)
    ensures ok ==> t < e && source[t] == COLON ==> StartsPort(tables, source[t + 1..e])
    ensures !ok ==> !HostAndPort(tables, source, h, HostEnd(source, h, e), e)
  {
    ok, t, lastWasDot, lastDotPos, nDots := ScanLabels(source, h, e);
    if ok && t < e {
      HostAndPortIs(tables, source, h, t, e);
      lastWasDot := false;
      if source[t] == COLON {
        ok := StartsWithPort(tables, source[t + 1..e]);
      }
    }
  }

  /** The checks behind the loop, which decide about the host. */
  method JudgeHost(tables: Tables, host: QString, ghost atEnd: bool, lastWasDot: bool, lastDotPos: int, nDots: nat)
    returns (good: bool)
    requires HostScanned(host, atEnd, lastWasDot, lastDotPos, nDots)
    ensures good <==> GoodHost(tables, host, atEnd)
  {
    HostDecides(tables, host, atEnd, lastWasDot, lastDotPos, nDots);
    if lastWasDot || lastDotPos <= 0 {
      return false;
    }
    var isIpv4 := IsValidIpv4(host);
    return (nDots == 3 && isIpv4) || tables.isValidTld(host[lastDotPos + 1..]);
  }

  lemma {:induction false} PartsAreGood(tables: Tables, source: QString, h: nat, t: nat, e: nat)
    requires h <= t <= e <= |source|
    requires t < e && source[t] == COLON ==> StartsPort(tables, source[t + 1..e])
    ensures HostAndPort(tables, source, h, t, e) <==> GoodHost(tables, source[h..t], t == e)
  {
    if t < e {
      HostAndPortIs(tables, source, h, t, e);
    }
  }

  method Parse(tables: Tables, source: QString) returns (result: Option<Parsed>)
    ensures result == ParseResult(tables, source)
  {
    var b, e := Strip(source);
    var h := HostStart(source, b, e);
    var ok, t, lastWasDot, lastDotPos, nDots := ScanHost(tables, source, h, e);
    if !ok {
      return None;
    }
    PartsAreGood(tables, source, h, t, e);
    var good := JudgeHost(tables, source[h..t], t == e, lastWasDot, lastDotPos, nDots);
    if good {
      var end := e;
      if e != |source| && t != e {
        end := ScanParentheses(source, t, e);
      }
      return Some(Parsed(b, h, t, end));
    }
    return None;
  }
}
