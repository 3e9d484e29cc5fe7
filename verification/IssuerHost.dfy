/** The check an issuer must pass before anything is fetched from it: a regular expression and
    a domain-suffix test, and what the two say about the labels of the host. */
module IssuerHost {
  import opened Basics

  const DOT: Byte := '.' as int
  const HYPHEN: Byte := '-' as int

  predicate IsDigit(c: Byte) {
    '0' as int <= c <= '9' as int
  }

  predicate IsUpper(c: Byte) {
    'A' as int <= c <= 'Z' as int
  }

  predicate IsLabelChar(c: Byte) {
    IsDigit(c) || IsUpper(c) || 'a' as int <= c <= 'z' as int || c == HYPHEN
  }

  /* Regular expressions */

  datatype Regex = Class(chars: set<Byte>) | Cat(a: Regex, b: Regex) | Plus(body: Regex) | Opt(body: Regex)

  const LABEL_CHARS: set<Byte> := set c: Byte | 0 <= c < 256 && IsLabelChar(c)
  const DIGITS: set<Byte> := set c: Byte | 0 <= c < 256 && IsDigit(c)

  const LABEL: Regex := Plus(Class(LABEL_CHARS))
  const DOTTED: Regex := Plus(Cat(LABEL, Class({DOT})))
  const PORT: Regex := Cat(Class({COLON}), Plus(Class(DIGITS)))

  /** One or more labels with a dot each, a last label, and perhaps a port. */
  const ISSUER: Regex := Cat(DOTTED, Cat(LABEL, Opt(PORT)))

  /** The whole of `s` matches `r`. */
  ghost predicate Matches(r: Regex, s: Bytes)
    decreases r, |s|
  {
    match r
    case Class(chars) => |s| == 1 && s[0] in chars
    case Cat(a, b) => exists k :: 0 <= k <= |s| && Matches(a, s[..k]) && Matches(b, s[k..])
    case Plus(body) => Matches(body, s) || exists k :: 0 < k <= |s| && Matches(body, s[..k]) && Matches(r, s[k..])
    case Opt(body) => s == [] || Matches(body, s)
  }

  lemma {:induction false} MatchesClassPlus(chars: set<Byte>, s: Bytes)
    ensures Matches(Plus(Class(chars)), s) <==> s != [] && forall c <- s :: c in chars
  {
    var r := Plus(Class(chars));
    if Matches(r, s) && !Matches(Class(chars), s) {
      var k :| 0 < k <= |s| && Matches(Class(chars), s[..k]) && Matches(r, s[k..]);
      MatchesClassPlus(chars, s[k..]);
      assert s == s[..k] + s[k..];
    }
    if s != [] && forall c <- s :: c in chars {
      if |s| > 1 {
        MatchesClassPlus(chars, s[1..]);
        assert Matches(Class(chars), s[..1]) && Matches(r, s[1..]);
      }
    }
  }

  lemma MatchesCat(a: Regex, b: Regex, s: Bytes, t: Bytes)
    requires Matches(a, s) && Matches(b, t)
    ensures Matches(Cat(a, b), s + t)
  {
    assert (s + t)[..|s|] == s && (s + t)[|s|..] == t;
  }

  lemma CatParts(a: Regex, b: Regex, s: Bytes) returns (x: Bytes, y: Bytes)
    requires Matches(Cat(a, b), s)
    ensures s == x + y && Matches(a, x) && Matches(b, y)
  {
    var k :| 0 <= k <= |s| && Matches(a, s[..k]) && Matches(b, s[k..]);
    x, y := s[..k], s[k..];
  }

  /* Labels */

  predicate IsLabel(l: Bytes) {
    l != [] && forall c <- l :: IsLabelChar(c)
  }

  predicate IsPort(p: Bytes) {
    p != [] && forall c <- p :: IsDigit(c)
  }

  /** At least two labels, and digits for a port if there is one. */
  predicate ValidIssuer(labels: seq<Bytes>, port: Option<Bytes>) {
    |labels| >= 2 && (forall l <- labels :: IsLabel(l)) && (port.Some? ==> IsPort(port.value))
  }

  function Join(labels: seq<Bytes>): Bytes {
    if labels == [] then []
    else if |labels| == 1 then labels[0]
    else labels[0] + [DOT] + Join(labels[1..])
  }

  function PortText(port: Option<Bytes>): Bytes {
    if port.None? then [] else [COLON] + port.value
  }

  function IssuerText(labels: seq<Bytes>, port: Option<Bytes>): Bytes {
    Join(labels) + PortText(port)
  }

  function Split(s: Bytes): (labels: seq<Bytes>)
    ensures labels != []
  {
    if s == [] then [[]]
    else
      var rest := Split(s[1..]);
      if s[0] == DOT then [[]] + rest else [[s[0]] + rest[0]] + rest[1..]
  }

  lemma LabelMatches(s: Bytes)
    ensures Matches(LABEL, s) <==> IsLabel(s)
  {
    MatchesClassPlus(LABEL_CHARS, s);
    assert forall c: Byte :: c in LABEL_CHARS <==> IsLabelChar(c);
  }

  lemma PortMatches(s: Bytes)
    ensures Matches(PORT, s) <==> s != [] && s[0] == COLON && IsPort(s[1..])
  {
    assert forall c: Byte :: c in DIGITS <==> IsDigit(c);
    if Matches(PORT, s) {
      var k :| 0 <= k <= |s| && Matches(Class({COLON}), s[..k]) && Matches(Plus(Class(DIGITS)), s[k..]);
      MatchesClassPlus(DIGITS, s[k..]);
    }
    if s != [] && s[0] == COLON && IsPort(s[1..]) {
      MatchesClassPlus(DIGITS, s[1..]);
      assert Matches(Class({COLON}), s[..1]);
    }
  }

  /** Labels with a dot after each. */
  function Dotted(labels: seq<Bytes>): Bytes {
    if labels == [] then [] else labels[0] + [DOT] + Dotted(labels[1..])
  }

  lemma {:induction false} DottedMatches(labels: seq<Bytes>)
    requires labels != [] && forall l <- labels :: IsLabel(l)
    ensures Matches(DOTTED, Dotted(labels))
  {
    var one := Cat(LABEL, Class({DOT}));
    var first := labels[0] + [DOT];
    LabelMatches(labels[0]);
    assert Matches(Class({DOT}), [DOT]);
    MatchesCat(LABEL, Class({DOT}), labels[0], [DOT]);
    var s := Dotted(labels);
    if |labels| == 1 {
      assert Dotted(labels[1..]) == [] && s == first + [] == first;
      assert Matches(one, s);
    } else {
      DottedMatches(labels[1..]);
      assert s[..|first|] == first && s[|first|..] == Dotted(labels[1..]);
    }
  }

  lemma {:induction false} DottedMatch(s: Bytes) returns (labels: seq<Bytes>)
    requires Matches(DOTTED, s)
    ensures labels != [] && (forall l <- labels :: IsLabel(l)) && s == Dotted(labels)
    decreases |s|
  {
    var one := Cat(LABEL, Class({DOT}));
    if Matches(one, s) {
      var l := OneDotted(s);
      labels := [l];
      assert Dotted(labels) == l + [DOT] + Dotted([]);
    } else {
      var k :| 0 < k <= |s| && Matches(one, s[..k]) && Matches(DOTTED, s[k..]);
      var l := OneDotted(s[..k]);
      var rest := DottedMatch(s[k..]);
      labels := [l] + rest;
      assert s == s[..k] + s[k..] && labels[1..] == rest;
    }
  }

  lemma OneDotted(s: Bytes) returns (l: Bytes)
    requires Matches(Cat(LABEL, Class({DOT})), s)
    ensures IsLabel(l) && s == l + [DOT]
  {
    var k :| 0 <= k <= |s| && Matches(LABEL, s[..k]) && Matches(Class({DOT}), s[k..]);
    LabelMatches(s[..k]);
    l := s[..k];
    assert s == s[..k] + s[k..];
  }

  lemma {:induction false} JoinDotted(labels: seq<Bytes>, last: Bytes)
    ensures Join(labels + [last]) == Dotted(labels) + last
  {
    if labels != [] {
      assert (labels + [last])[1..] == labels[1..] + [last];
      JoinDotted(labels[1..], last);
    }
  }

  /** The regular expression describes exactly the texts of two or more labels with an optional port. */
  lemma IssuerMatchesText(labels: seq<Bytes>, port: Option<Bytes>)
    requires ValidIssuer(labels, port)
    ensures Matches(ISSUER, IssuerText(labels, port))
  {
    var init, last := labels[..|labels| - 1], labels[|labels| - 1];
    IssuerTextParts(labels, port);
    DottedMatches(init);
    TailMatches(last, port);
    MatchesCat(DOTTED, Cat(LABEL, Opt(PORT)), Dotted(init), last + PortText(port));
  }

  lemma IssuerTextParts(labels: seq<Bytes>, port: Option<Bytes>)
    requires labels != []
    ensures IssuerText(labels, port) == Dotted(labels[..|labels| - 1]) + (labels[|labels| - 1] + PortText(port))
  {
    var init, last := labels[..|labels| - 1], labels[|labels| - 1];
    assert labels == init + [last];
    JoinDotted(init, last);
  }

  lemma TailMatches(last: Bytes, port: Option<Bytes>)
    requires IsLabel(last) && (port.Some? ==> IsPort(port.value))
    ensures Matches(Cat(LABEL, Opt(PORT)), last + PortText(port))
  {
    var tail := PortText(port);
    LabelMatches(last);
    if port.Some? {
      assert tail[1..] == port.value;
      PortMatches(tail);
    }
    assert Matches(Opt(PORT), tail);
    MatchesCat(LABEL, Opt(PORT), last, tail);
  }

  lemma IssuerMatch(s: Bytes) returns (labels: seq<Bytes>, port: Option<Bytes>)
    requires Matches(ISSUER, s)
    ensures ValidIssuer(labels, port) && s == IssuerText(labels, port)
  {
    var x, y := CatParts(DOTTED, Cat(LABEL, Opt(PORT)), s);
    labels, port := IssuerParts(x, y);
  }

  lemma IssuerParts(x: Bytes, y: Bytes) returns (labels: seq<Bytes>, port: Option<Bytes>)
    requires Matches(DOTTED, x) && Matches(Cat(LABEL, Opt(PORT)), y)
    ensures ValidIssuer(labels, port) && x + y == IssuerText(labels, port)
  {
    var init := DottedMatch(x);
    var last, p := TailMatch(y);
    labels, port := init + [last], p;
    TextOfParts(init, last, p);
  }

  lemma TextOfParts(init: seq<Bytes>, last: Bytes, port: Option<Bytes>)
    ensures Dotted(init) + (last + PortText(port)) == IssuerText(init + [last], port)
  {
    JoinDotted(init, last);
    ConcatAssociative(Dotted(init), last, PortText(port));
  }

  lemma TailMatch(t: Bytes) returns (last: Bytes, port: Option<Bytes>)
    requires Matches(Cat(LABEL, Opt(PORT)), t)
    ensures IsLabel(last) && (port.Some? ==> IsPort(port.value)) && t == last + PortText(port)
  {
    var x, y := CatParts(LABEL, Opt(PORT), t);
    LabelMatches(x);
    last := x;
    port := PortMatch(y);
  }

  lemma PortMatch(s: Bytes) returns (port: Option<Bytes>)
    requires Matches(Opt(PORT), s)
    ensures (port.Some? ==> IsPort(port.value)) && s == PortText(port)
  {
    if s == [] {
      port := None;
    } else {
      PortMatches(s);
      port := Some(s[1..]);
    }
  }

  /* Splitting into labels */

  lemma {:induction false} SplitLabel(l: Bytes, rest: Bytes)
    requires DOT !in l
    ensures Split(l) == [l]
    ensures Split(l + [DOT] + rest) == [l] + Split(rest)
  {
    var s := l + [DOT] + rest;
    if l == [] {
      assert s[1..] == rest;
    } else {
      SplitLabel(l[1..], rest);
      assert s[1..] == l[1..] + [DOT] + rest && s[0] == l[0] && l[0] in l;
      assert l == [l[0]] + l[1..];
    }
  }

  lemma {:induction false} SplitJoin(labels: seq<Bytes>)
    requires labels != [] && forall l <- labels :: DOT !in l
    ensures Split(Join(labels)) == labels
  {
    if |labels| == 1 {
      SplitLabel(labels[0], []);
    } else {
      SplitJoin(labels[1..]);
      SplitLabel(labels[0], Join(labels[1..]));
    }
  }

  lemma {:induction false} JoinSplit(s: Bytes)
    ensures Join(Split(s)) == s
  {
    if s != [] {
      JoinSplit(s[1..]);
      var rest := Split(s[1..]);
      if s[0] == DOT {
        assert ([[]] + rest)[1..] == rest;
        assert [] + [DOT] + Join(rest) == s;
      } else {
        JoinFirst(s[0], rest);
      }
    }
  }

  lemma JoinFirst(c: Byte, labels: seq<Bytes>)
    requires labels != []
    ensures Join([[c] + labels[0]] + labels[1..]) == [c] + Join(labels)
  {
    var more := [[c] + labels[0]] + labels[1..];
    assert more[1..] == labels[1..];
  }

  lemma {:induction false} SplitNoDot(s: Bytes)
    ensures forall l <- Split(s) :: DOT !in l
  {
    if s != [] {
      SplitNoDot(s[1..]);
      assert Split(s[1..])[0] in Split(s[1..]);
    }
  }

  lemma {:induction false} JoinConcat(a: seq<Bytes>, b: seq<Bytes>)
    requires a != [] && b != []
    ensures Join(a + b) == Join(a) + [DOT] + Join(b)
  {
    if |a| == 1 {
      assert (a + b)[1..] == b;
    } else {
      assert (a + b)[1..] == a[1..] + b;
      JoinConcat(a[1..], b);
    }
  }

  lemma SuffixSplits(host: Bytes, domain: Bytes)
    requires HasSuffix(host, [DOT] + domain)
    ensures HasSuffix(Split(host), Split(domain))
  {
    var x := host[..|host| - |domain| - 1];
    assert host == x + [DOT] + domain;
    JoinSplit(x);
    SplitNoDot(x);
    JoinSplit(domain);
    SplitNoDot(domain);
    JoinConcat(Split(x), Split(domain));
    SplitJoin(Split(x) + Split(domain));
  }

  lemma SuffixOfConcat<T>(a: seq<T>, b: seq<T>)
    ensures HasSuffix(a + b, b)
  {
  }

  lemma SuffixJoins(hs: seq<Bytes>, ds: seq<Bytes>)
    requires HasSuffix(hs, ds) && |hs| > |ds| > 0
    ensures HasSuffix(Join(hs), [DOT] + Join(ds))
  {
    var a := hs[..|hs| - |ds|];
    assert hs == a + ds;
    JoinConcat(a, ds);
    ConcatAssociative(Join(a), [DOT], Join(ds));
    SuffixOfConcat(Join(a), [DOT] + Join(ds));
  }

  /** A host is a domain or below it exactly when the labels of the domain end those of the host. */
  lemma SuffixIsLabelSuffix(host: Bytes, domain: Bytes)
    ensures host == domain || HasSuffix(host, [DOT] + domain) <==> HasSuffix(Split(host), Split(domain))
  {
    JoinSplit(host);
    JoinSplit(domain);
    if HasSuffix(host, [DOT] + domain) {
      SuffixSplits(host, domain);
    }
    if HasSuffix(Split(host), Split(domain)) {
      if |Split(host)| > |Split(domain)| {
        SuffixJoins(Split(host), Split(domain));
      } else {
        assert Split(host) == Split(domain);
      }
    }
  }

  /* The check */

  function LowerByte(c: Byte): Byte {
    if IsUpper(c) then c + 32 else c
  }

  /** Lower-casing of ASCII text. */
  function Lower(s: Bytes): (r: Bytes)
    ensures |r| == |s| && forall i :: 0 <= i < |s| ==> r[i] == LowerByte(s[i])
  {
    seq(|s|, i requires 0 <= i < |s| => LowerByte(s[i]))
  }

  function LowerAll(labels: seq<Bytes>): (r: seq<Bytes>)
    ensures |r| == |labels| && forall i :: 0 <= i < |labels| ==> r[i] == Lower(labels[i])
  {
    seq(|labels|, i requires 0 <= i < |labels| => Lower(labels[i]))
  }

  function HostOf(issuer: Bytes): (host: Bytes) {
    if issuer == [] || issuer[0] == COLON then [] else [issuer[0]] + HostOf(issuer[1..])
  }

  function AfterHost(issuer: Bytes): Bytes {
    if issuer == [] || issuer[0] == COLON then issuer else AfterHost(issuer[1..])
  }

  /** The regular expression as a decision: split at the first colon and at the dots. */
  predicate IsPlainHost(issuer: Bytes) {
    var labels, port := Split(HostOf(issuer)), AfterHost(issuer);
    |labels| >= 2 && (forall l <- labels :: IsLabel(l)) && (port == [] || IsPort(port[1..]))
  }

  /** Lower-casing of any text; for ASCII it must be the usual one. */
  type LowerCase = Bytes -> Bytes

  ghost predicate LowersAscii(lower: LowerCase) {
    forall s :: IsAscii(s) ==> lower(s) == Lower(s)
  }

  predicate InDomain(hostLower: Bytes, domainLower: Bytes) {
    hostLower == domainLower || HasSuffix(hostLower, [DOT] + domainLower)
  }

  /** What the program asks for. */
  ghost predicate Acceptable(lower: LowerCase, issuer: Bytes, allowedDomains: seq<Bytes>) {
    Matches(ISSUER, issuer) && exists d <- allowedDomains :: InDomain(lower(HostOf(issuer)), lower(d))
  }

  method ValidateIssuer(lower: LowerCase, issuer: Bytes, allowedDomains: seq<Bytes>) returns (r: Result<Bytes>)
    ensures r == if Acceptable(lower, issuer, allowedDomains) then Ok(issuer) else Error
  {
    PlainHostExact(issuer);
    if !IsPlainHost(issuer) { return Error; }
    var hostLower := lower(HostOf(issuer));
    for i := 0 to |allowedDomains|
      invariant forall d <- allowedDomains[..i] :: !InDomain(hostLower, lower(d))
    {
      var dl := lower(allowedDomains[i]);
      if hostLower == dl || HasSuffix(hostLower, [DOT] + dl) {
        assert InDomain(hostLower, lower(allowedDomains[i]));
        return Ok(issuer);
      }
      assert allowedDomains[..i + 1] == allowedDomains[..i] + [allowedDomains[i]];
    }
    assert allowedDomains[..|allowedDomains|] == allowedDomains;
    r := Error;
  }

  lemma {:induction false} HostOfText(host: Bytes, tail: Bytes)
    requires COLON !in host && (tail == [] || tail[0] == COLON)
    ensures HostOf(host + tail) == host && AfterHost(host + tail) == tail
  {
    if host == [] {
      assert host + tail == tail;
    } else {
      assert (host + tail)[1..] == host[1..] + tail && host[0] in host;
      HostOfText(host[1..], tail);
      assert host == [host[0]] + host[1..];
    }
  }

  lemma {:induction false} HostParts(issuer: Bytes)
    ensures HostOf(issuer) + AfterHost(issuer) == issuer
    ensures AfterHost(issuer) != [] ==> AfterHost(issuer)[0] == COLON
  {
    if issuer != [] && issuer[0] != COLON {
      HostParts(issuer[1..]);
      assert issuer == [issuer[0]] + issuer[1..];
    }
  }

  lemma {:induction false} JoinNoColon(labels: seq<Bytes>)
    requires forall l <- labels :: IsLabel(l)
    ensures COLON !in Join(labels)
  {
    assert !IsLabelChar(COLON);
    if labels != [] {
      assert labels[0] in labels && COLON !in labels[0];
      JoinNoColon(labels[1..]);
    }
  }

  lemma HostLabels(labels: seq<Bytes>, port: Option<Bytes>)
    requires ValidIssuer(labels, port)
    ensures HostOf(IssuerText(labels, port)) == Join(labels) && AfterHost(IssuerText(labels, port)) == PortText(port)
    ensures Split(HostOf(IssuerText(labels, port))) == labels
  {
    JoinNoColon(labels);
    HostOfText(Join(labels), PortText(port));
    SplitJoin(labels);
  }

  lemma PlainHostExact(issuer: Bytes)
    ensures IsPlainHost(issuer) <==> Matches(ISSUER, issuer)
  {
    if Matches(ISSUER, issuer) {
      var labels, port := IssuerMatch(issuer);
      HostLabels(labels, port);
      assert port.Some? ==> PortText(port)[1..] == port.value;
    }
    if IsPlainHost(issuer) {
      HostParts(issuer);
      var after := AfterHost(issuer);
      var labels, port := Split(HostOf(issuer)), if after == [] then None else Some(after[1..]);
      JoinSplit(HostOf(issuer));
      assert after == PortText(port);
      IssuerMatchesText(labels, port);
    }
  }

  lemma {:induction false} SplitLower(s: Bytes)
    ensures Split(Lower(s)) == LowerAll(Split(s))
  {
    if s != [] {
      SplitLower(s[1..]);
      assert Lower(s)[1..] == Lower(s[1..]);
      assert LowerByte(s[0]) == DOT <==> s[0] == DOT;
      assert Split(Lower(s)) == LowerAll(Split(s)) by {
        var rest := Split(s[1..]);
        if s[0] != DOT {
          assert Lower([s[0]] + rest[0]) == [LowerByte(s[0])] + Lower(rest[0]);
        }
      }
    }
  }

  /** The check in terms of labels: the issuer is two or more labels joined by dots with an optional
      port, and the labels of some lower-cased allowed domain end the lower-cased labels of the host. */
  lemma AcceptableByLabels(lower: LowerCase, issuer: Bytes, allowedDomains: seq<Bytes>)
    requires LowersAscii(lower)
    ensures Acceptable(lower, issuer, allowedDomains) <==>
              exists labels, port ::
                && ValidIssuer(labels, port) && issuer == IssuerText(labels, port)
                && exists d <- allowedDomains :: HasSuffix(LowerAll(labels), Split(lower(d)))
  {
    if Acceptable(lower, issuer, allowedDomains) {
      var labels, port := IssuerMatch(issuer);
      var d :| d in allowedDomains && InDomain(lower(HostOf(issuer)), lower(d));
      DomainByLabels(lower, labels, port, d);
    }
    if exists labels, port ::
         && ValidIssuer(labels, port) && issuer == IssuerText(labels, port)
         && exists d <- allowedDomains :: HasSuffix(LowerAll(labels), Split(lower(d)))
    {
      var labels, port :|
        && ValidIssuer(labels, port) && issuer == IssuerText(labels, port)
        && exists d <- allowedDomains :: HasSuffix(LowerAll(labels), Split(lower(d)));
      var d :| d in allowedDomains && HasSuffix(LowerAll(labels), Split(lower(d)));
      IssuerMatchesText(labels, port);
      DomainByLabels(lower, labels, port, d);
    }
  }

  lemma DomainByLabels(lower: LowerCase, labels: seq<Bytes>, port: Option<Bytes>, d: Bytes)
    requires ValidIssuer(labels, port) && LowersAscii(lower)
    ensures InDomain(lower(HostOf(IssuerText(labels, port))), lower(d))
            <==> HasSuffix(LowerAll(labels), Split(lower(d)))
  {
    HostLabels(labels, port);
    JoinAscii(labels);
    SplitLower(Join(labels));
    SuffixIsLabelSuffix(Lower(Join(labels)), lower(d));
  }

  lemma {:induction false} JoinAscii(labels: seq<Bytes>)
    requires forall l <- labels :: IsLabel(l)
    ensures IsAscii(Join(labels))
  {
    if labels != [] {
      assert labels[0] in labels && IsAscii(labels[0]);
      JoinAscii(labels[1..]);
    }
  }

  /** For an ASCII domain these are its own labels in lower case. */
  lemma AsciiDomainLabels(lower: LowerCase, d: Bytes)
    requires LowersAscii(lower) && IsAscii(d)
    ensures Split(lower(d)) == LowerAll(Split(d))
  {
    SplitLower(d);
  }

  lemma PortIsAscii(port: Option<Bytes>)
    requires port.Some? ==> IsPort(port.value)
    ensures IsAscii(PortText(port))
  {
  }

  lemma IssuerIsAscii(issuer: Bytes)
    requires Matches(ISSUER, issuer)
    ensures IsAscii(issuer) && IsAscii(HostOf(issuer))
  {
    var labels, port := IssuerMatch(issuer);
    HostLabels(labels, port);
    JoinAscii(labels);
    PortIsAscii(port);
  }

  lemma {:induction false} PortIsCut(issuer: Bytes)
    ensures |HostOf(issuer)| <= |issuer|
    ensures if COLON in issuer then |HostOf(issuer)| < |issuer| else HostOf(issuer) == issuer
  {
    if issuer != [] && issuer[0] != COLON {
      PortIsCut(issuer[1..]);
      assert issuer == [issuer[0]] + issuer[1..];
    }
  }

  /** The port is cut from an issuer but not from an allowed domain, so an issuer with a port is not
      accepted by an allow list of just itself. */
  lemma OwnAllowList(lower: LowerCase, issuer: Bytes)
    requires LowersAscii(lower)
    ensures Acceptable(lower, issuer, [issuer]) <==> Matches(ISSUER, issuer) && COLON !in issuer
  {
    PortIsCut(issuer);
    if Matches(ISSUER, issuer) {
      IssuerIsAscii(issuer);
      assert issuer in [issuer];
    }
  }

  /* The characters themselves */

  /** A label has ASCII letters, ASCII digits and hyphens. */
  lemma LabelCharacters(c: Byte)
    ensures Matches(LABEL, [c]) <==> 97 <= c <= 122 || 65 <= c <= 90 || 48 <= c <= 57 || c == 45
  {
    LabelMatches([c]);
    assert c in [c];
  }

  /** A port is a colon and ASCII digits. */
  lemma PortCharacters(c: Byte)
    ensures Matches(PORT, [58, c]) <==> 48 <= c <= 57
  {
    PortMatches([58, c]);
    assert [58, c][1..] == [c] && c in [c];
  }

  predicate HostChars(s: Bytes) {
    s != [] && forall c <- s :: 97 <= c <= 122 || 65 <= c <= 90 || 48 <= c <= 57 || c == 45
  }

  predicate DigitChars(s: Bytes) {
    s != [] && forall c <- s :: 48 <= c <= 57
  }

  predicate InGrammar(labels: seq<Bytes>, port: Option<Bytes>) {
    |labels| >= 2 && (forall l <- labels :: HostChars(l)) && (port.Some? ==> DigitChars(port.value))
  }

  /** The labels with a dot between any two, then a colon and the port if there is one. */
  function Spelled(labels: seq<Bytes>, port: Option<Bytes>): Bytes {
    if labels == [] then (if port.None? then [] else [58] + port.value)
    else labels[0] + (if |labels| == 1 then [] else [46]) + Spelled(labels[1..], port)
  }

  lemma {:induction false} SpelledIsText(labels: seq<Bytes>, port: Option<Bytes>)
    ensures Spelled(labels, port) == IssuerText(labels, port)
  {
    if labels == [] {
      assert [] + PortText(port) == PortText(port);
    } else {
      SpelledIsText(labels[1..], port);
      SpelledStep(labels[0], labels[1..], port);
      assert labels == [labels[0]] + labels[1..];
    }
  }

  lemma SpelledCons(l: Bytes, rest: seq<Bytes>, port: Option<Bytes>)
    ensures Spelled([l] + rest, port) == l + (if rest == [] then [] else [46]) + Spelled(rest, port)
  {
    assert ([l] + rest)[1..] == rest;
  }

  lemma JoinCons(l: Bytes, rest: seq<Bytes>)
    ensures Join([l] + rest) == if rest == [] then l else l + [46] + Join(rest)
  {
    assert ([l] + rest)[1..] == rest;
  }

  lemma SpelledStep(l: Bytes, rest: seq<Bytes>, port: Option<Bytes>)
    requires Spelled(rest, port) == IssuerText(rest, port)
    ensures Spelled([l] + rest, port) == IssuerText([l] + rest, port)
  {
    SpelledCons(l, rest, port);
    JoinCons(l, rest);
    if rest == [] {
      assert l + [] == l && Join(rest) == [] && [] + PortText(port) == PortText(port);
    } else {
      ConcatAssociative(l + [46], Join(rest), PortText(port));
    }
  }

  lemma PlainLabels(labels: seq<Bytes>, port: Option<Bytes>)
    ensures ValidIssuer(labels, port) <==> InGrammar(labels, port)
  {
    forall l <- labels ensures IsLabel(l) <==> HostChars(l) {
    }
  }

  /** The regular expression, spelled out: two or more labels joined by dots, and perhaps a port. */
  lemma IssuerGrammar(s: Bytes)
    ensures Matches(ISSUER, s) <==> exists labels, port :: InGrammar(labels, port) && s == Spelled(labels, port)
  {
    if Matches(ISSUER, s) {
      var labels, port := IssuerMatch(s);
      PlainLabels(labels, port);
      SpelledIsText(labels, port);
    }
    if exists labels, port :: InGrammar(labels, port) && s == Spelled(labels, port) {
      var labels, port :| InGrammar(labels, port) && s == Spelled(labels, port);
      PlainLabels(labels, port);
      SpelledIsText(labels, port);
      IssuerMatchesText(labels, port);
    }
  }

  /** The domain from which keys may be fetched by default. */
  const DEFAULT_DOMAIN: Bytes := Ascii("confidential-ledger.azure.com")

  lemma AsciiConcat(s: string, t: string)
    ensures Ascii(s + t) == Ascii(s) + Ascii(t)
  {
  }

  lemma DefaultDomainParts()
    ensures DEFAULT_DOMAIN
            == Ascii("confidential-ledger") + (Ascii(".") + (Ascii("azure") + (Ascii(".") + Ascii("com"))))
  {
    assert "confidential-ledger.azure.com" == "confidential-ledger" + ("." + ("azure" + ("." + "com")));
    AsciiConcat("confidential-ledger", "." + ("azure" + ("." + "com")));
    AsciiConcat(".", "azure" + ("." + "com"));
    AsciiConcat("azure", "." + "com");
    AsciiConcat(".", "com");
  }

  predicate LowerOrHyphen(s: string) {
    forall c <- s :: 'a' <= c <= 'z' || c == '-'
  }

  lemma AsciiLabel(s: string)
    requires s != "" && LowerOrHyphen(s)
    ensures HostChars(Ascii(s))
  {
    forall c <- Ascii(s) ensures 97 <= c <= 122 || c == 45 {
      var i :| 0 <= i < |s| && Ascii(s)[i] == c;
      assert s[i] in s;
    }
  }

  lemma DefaultDomainLabels()
    ensures HostChars(Ascii("confidential-ledger")) && HostChars(Ascii("azure")) && HostChars(Ascii("com"))
  {
    AsciiLabel("confidential-ledger");
    AsciiLabel("azure");
    AsciiLabel("com");
  }

  /** Every ledger under the default domain is accepted by default. */
  lemma DefaultDomain(lower: LowerCase, name: Bytes)
    requires LowersAscii(lower) && HostChars(name)
    ensures Acceptable(lower, name + ([46] + DEFAULT_DOMAIN), [DEFAULT_DOMAIN])
  {
    var a, b, c := Ascii("confidential-ledger"), Ascii("azure"), Ascii("com");
    DefaultDomainParts();
    DefaultDomainLabels();
    assert Ascii(".") == [46];
    SubdomainAccepted(lower, name, a, b, c);
  }

  lemma SubdomainAccepted(lower: LowerCase, l: Bytes, a: Bytes, b: Bytes, c: Bytes)
    requires LowersAscii(lower) && HostChars(l) && HostChars(a) && HostChars(b) && HostChars(c)
    ensures var d := a + ([46] + (b + ([46] + c))); Acceptable(lower, l + ([46] + d), [d])
  {
    var d, labels := a + ([46] + (b + ([46] + c))), [l, a, b, c];
    FourLabels(l, a, b, c);
    PlainLabels(labels, None);
    IssuerMatchesText(labels, None);
    DomainLabels(a, b, c);
    AsciiDomainLabels(lower, d);
    SuffixOfMapped(l, a, b, c);
    DomainByLabels(lower, labels, None, d);
    assert d in [d];
  }

  lemma SuffixOfMapped(l: Bytes, a: Bytes, b: Bytes, c: Bytes)
    ensures HasSuffix(LowerAll([l, a, b, c]), LowerAll([a, b, c]))
  {
  }

  lemma DomainLabels(a: Bytes, b: Bytes, c: Bytes)
    requires HostChars(a) && HostChars(b) && HostChars(c)
    ensures var d := a + ([46] + (b + ([46] + c))); IsAscii(d) && Split(d) == [a, b, c]
  {
    var labels := [a, b, c];
    PlainLabels(labels, None);
    ThreeLabels(a, b, c);
    JoinAscii(labels);
    SplitJoin(labels);
  }

  lemma FourLabels(l: Bytes, a: Bytes, b: Bytes, c: Bytes)
    ensures IssuerText([l, a, b, c], None) == l + ([46] + (a + ([46] + (b + ([46] + c)))))
  {
    ThreeLabels(a, b, c);
    assert [l, a, b, c][1..] == [a, b, c];
  }

  lemma ThreeLabels(a: Bytes, b: Bytes, c: Bytes)
    ensures Join([a, b, c]) == a + ([46] + (b + ([46] + c)))
  {
    assert [a, b, c][1..] == [b, c] && [b, c][1..] == [c];
    assert Join([c]) == c && Join([b, c]) == b + [46] + c;
  }

  /** Upper and lower case of ASCII letters. */
  lemma LowerCases(c: Byte)
    ensures Lower([c]) == [if 65 <= c <= 90 then c + 32 else c]
  {
  }
}
