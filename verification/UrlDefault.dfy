/** URLs that name no port: what the parser makes of a scheme, a host and a path as a user types them. */
module UrlDefaults {
  import opened Options
  import opened Urls
  import opened UrlRoundTrips

  predicate SameLetter(c: char, small: char) {
    c == small || ('a' <= small <= 'z' && c as int + 32 == small as int)
  }

  /** The text is the word, in any mixture of small and capital letters. */
  predicate IsWord(text: string, word: string) {
    |text| == |word| && forall i | 0 <= i < |word| :: SameLetter(text[i], word[i])
  }

  predicate IsScheme(text: string, p: Protocol) {
    match p
    case Http => IsWord(text, "http")
    case Https => IsWord(text, "https")
    case Ftp => IsWord(text, "ftp")
    case Danejoe => IsWord(text, "danejoe")
    case Unknown =>
      && ':' !in text && '#' !in text
      && !IsWord(text, "http") && !IsWord(text, "https") && !IsWord(text, "ftp") && !IsWord(text, "danejoe")
  }

  /** A host that the parser takes whole when no port follows. */
  predicate IsPlainHost(host: string) {
    ':' !in host && '/' !in host && '#' !in host
  }

  predicate IsPlainPath(path: string) {
    path != "" && path[0] == '/' && '?' !in path && '#' !in path
  }

  // ---------------------------------------------------------------- schemes

  lemma SmallWord(text: string, word: string)
    requires IsWord(text, word) && forall i | 0 <= i < |word| :: 'a' <= word[i] <= 'z'
    ensures ToLower(text) == word && ':' !in text && '#' !in text
  {
    forall i | 0 <= i < |word| ensures ToLower(text)[i] == word[i] && text[i] != ':' && text[i] != '#' {
      assert SameLetter(text[i], word[i]);
    }
  }

  lemma LoweredIsWord(text: string, word: string)
    requires ToLower(text) == word
    ensures IsWord(text, word)
  {
    forall i | 0 <= i < |word| ensures SameLetter(text[i], word[i]) {
      assert ToLower(text)[i] == word[i];
    }
  }

  /** Every scheme is recognised whatever the case of its letters, and nothing else is. */
  lemma SchemeIsRead(text: string, p: Protocol)
    requires IsScheme(text, p)
    ensures ToProtocol(text) == p && ':' !in text && '#' !in text
  {
    hide ToLower, IsWord;
    match p
    case Http => SmallWord(text, "http");
    case Https => SmallWord(text, "https");
    case Ftp => SmallWord(text, "ftp");
    case Danejoe => SmallWord(text, "danejoe");
    case Unknown => LoweredIsWord(text, ToLower(text));
  }

  // ---------------------------------------------------------------- the text

  /** "scheme://", the host, and what is behind it. */
  function Typed(scheme: string, host: string, behind: string): string {
    (scheme + "://") + (host + behind)
  }

  /** Where the parts lie. */
  lemma TypedParts(scheme: string, host: string, behind: string)
    ensures var url, at := Typed(scheme, host, behind), |scheme| + 3;
            && at + |host| <= |url|
            && url[..|scheme|] == scheme
            && url[|scheme|] == ':' && url[|scheme| + 1] == '/' && url[|scheme| + 2] == '/'
            && url[at..at + |host|] == host
            && url[at + |host|..] == behind
  {
    var url, front := Typed(scheme, host, behind), scheme + "://";
    assert url[0..] == url;
    Cut(url, front, host + behind, 0);
    Cut(url, host, behind, |front|);
    assert url[..|front|][..|scheme|] == url[..|scheme|];
    var k := |scheme|;
    assert url[k] == url[..|front|][k] && url[k + 1] == url[..|front|][k + 1] && url[k + 2] == url[..|front|][k + 2];
  }

  /** The parser cuts off the scheme, and there is no fragment. */
  lemma {:induction false} SchemeIsCut(scheme: string, p: Protocol, host: string, behind: string)
    requires IsScheme(scheme, p) && |Typed(scheme, host, behind)| < NPOS && '#' !in host && '#' !in behind
    ensures var url, at := Typed(scheme, host, behind), |scheme| + 3;
            at <= |url| && EndOf(url) == |url| && Parse(url) == ParseHost(url, |url|, at, p)
  {
    hide ToProtocol, ParseHost, IsScheme;
    var url, at := Typed(scheme, host, behind), |scheme| + 3;
    SchemeIsRead(scheme, p);
    TypedParts(scheme, host, behind);
    hide Typed, FindChar, FindSeparator;
    assert url[at + |host|..at + |host| + |behind|] == behind;
    LacksIn(url, 0, scheme, ':');
    LacksIn(url, 0, scheme, '#');
    LacksIn(url, at, host, '#');
    LacksIn(url, at + |host|, behind, '#');
    FoundNowhere(url, '#', 0);
    SeparatorAt(url, |scheme|);
  }

  /** Where the path begins: at the end of the text or at its '/'. */
  lemma {:induction false} SlashIsFound(url: string, at: nat, pathAt: nat)
    requires at <= pathAt <= |url| < NPOS && (pathAt < |url| ==> url[pathAt] == '/')
    requires forall i | at <= i < pathAt :: url[i] != '/'
    ensures var slash := FindChar(url, '/', at);
            (if slash == NPOS then |url| else slash) == pathAt
  {
    if pathAt == |url| {
      FoundNowhere(url, '/', at);
    } else {
      FoundAt(url, '/', at, pathAt);
    }
  }

  lemma PlainHostLacksHash(host: string)
    requires IsPlainHost(host)
    ensures '#' !in host
  {
  }

  lemma {:induction false} HostIsTaken(url: string, at: nat, p: Protocol, host: string)
    requires at + |host| <= |url| < NPOS && url[at..at + |host|] == host && IsPlainHost(host)
    requires at + |host| < |url| ==> url[at + |host|] == '/'
    ensures ParseHost(url, |url|, at, p) == Some(ParsePath(url, |url|, at + |host|, p, host, DefaultPort(p)))
  {
    hide FindChar, ParsePath, DefaultPort;
    var pathAt := at + |host|;
    LacksIn(url, at, host, ':');
    LacksIn(url, at, host, '/');
    SlashIsFound(url, at, pathAt);
  }

  /** Up to the path the parser finds nothing but the parts. */
  lemma {:induction false} HostIsRead(scheme: string, p: Protocol, host: string, behind: string)
    requires IsScheme(scheme, p) && IsPlainHost(host) && |Typed(scheme, host, behind)| < NPOS
    requires '#' !in behind && (behind == "" || behind[0] == '/')
    ensures var url, pathAt := Typed(scheme, host, behind), |scheme| + 3 + |host|;
            && pathAt <= |url| && EndOf(url) == |url| && url[pathAt..] == behind
            && Parse(url) == Some(ParsePath(url, |url|, pathAt, p, host, DefaultPort(p)))
  {
    hide *;
    var url, at := Typed(scheme, host, behind), |scheme| + 3;
    PlainHostLacksHash(host);
    SchemeIsCut(scheme, p, host, behind);
    TypedParts(scheme, host, behind);
    assert at + |host| < |url| ==> url[at + |host|] == url[at + |host|..][0];
    HostIsTaken(url, at, p, host);
  }

  // ---------------------------------------------------------------- the main result

  /** The port that goes with a scheme. */
  predicate IsPortOf(p: Protocol, port: nat) {
    && (p == Http ==> port == 80) && (p == Https ==> port == 443) && (p == Ftp ==> port == 21)
    && (p == Danejoe ==> port == 8080) && (p == Unknown ==> port == 0)
  }

  lemma PortOfScheme(p: Protocol)
    ensures IsPortOf(p, DefaultPort(p))
  {
  }

  /** A scheme and a host alone: the whole host, the port of the scheme, the path "/" and no query. */
  lemma HostAloneIsRead(scheme: string, p: Protocol, host: string)
    requires IsScheme(scheme, p) && IsPlainHost(host) && |Typed(scheme, host, "")| < NPOS
    ensures var r := Parse(Typed(scheme, host, ""));
            && r.Some? && r.value.protocol == p && r.value.host == host && IsPortOf(p, r.value.port)
            && r.value.path == "/" && r.value.query == multiset{}
  {
    var url := Typed(scheme, host, "");
    HostIsRead(scheme, p, host, "");
    TypedParts(scheme, host, "");
    hide Parse, Typed;
    assert |scheme| + 3 + |host| == |url|;
    assert FindChar(url, '?', |url|) == NPOS;
  }

  function QueryText(order: seq<Pair>): string {
    if order == [] then "" else "?" + Joined(order)
  }

  /** With a path, and a query or none: the same, and the path and the query as they are written. */
  lemma PathWithoutPortIsRead(scheme: string, p: Protocol, host: string, path: string, order: seq<Pair>)
    requires IsScheme(scheme, p) && IsPlainHost(host) && IsPlainPath(path) && forall q | q in order :: IsCleanPair(q)
    requires |Typed(scheme, host, path + QueryText(order))| < NPOS
    ensures var r := Parse(Typed(scheme, host, path + QueryText(order)));
            && r.Some? && r.value.protocol == p && r.value.host == host && IsPortOf(p, r.value.port)
            && r.value.path == path && r.value.query == multiset(order)
  {
    var behind := path + QueryText(order);
    hide *;
    PathAndQueryArePlain(path, order);
    PortOfScheme(p);
    HostIsRead(scheme, p, host, behind);
    PathIsRead(Typed(scheme, host, behind), |scheme| + 3 + |host|, path, order, p, host, DefaultPort(p));
  }

  lemma {:induction false} PathIsRead(
      url: string, pathAt: nat, path: string, order: seq<Pair>, p: Protocol, host: string, port: nat)
    requires pathAt <= |url| < NPOS && EndOf(url) == |url| && url[pathAt..] == path + QueryText(order)
    requires IsPlainPath(path) && forall q | q in order :: IsCleanPair(q)
    ensures ParsePath(url, |url|, pathAt, p, host, port) == UrlInfo(p, host, port, path, multiset(order))
  {
    hide Joined, FindChar, ParsePath, ParseQuery, EndOf;
    var queryAt := pathAt + |path|;
    Cut(url, path, QueryText(order), pathAt);
    LacksIn(url, pathAt, path, '?');
    assert url[pathAt] == url[pathAt..queryAt][0];
    PathReads(url, |url|, pathAt, p, host, port);
    if order == [] {
      FoundNowhere(url, '?', pathAt);
    } else {
      CutChar(url, '?', Joined(order), queryAt);
      FoundAt(url, '?', pathAt, queryAt);
      QueryRoundTripIff(url, order, queryAt + 1);
    }
  }

  lemma {:induction false} PathAndQueryArePlain(path: string, order: seq<Pair>)
    requires IsPlainPath(path) && forall q | q in order :: IsCleanPair(q)
    ensures var behind := path + QueryText(order); '#' !in behind && behind != "" && behind[0] == '/'
  {
    hide QueryText;
    NoHashInQuery(order);
  }

  lemma {:induction false} NoHashInQuery(order: seq<Pair>)
    requires forall q | q in order :: IsCleanPair(q)
    ensures '#' !in QueryText(order)
  {
    if order != [] {
      JoinedMentions(order, '#');
      assert forall k | 0 <= k < |order| :: IsCleanPair(order[k]);
    }
  }

  // ---------------------------------------------------------------- port numbers

  /** Numbers are written in tens. */
  lemma PortTexts()
    ensures Decimal(65535) == "65535" && Decimal(8080) == "8080" && Decimal(0) == "0"
  {
    assert Decimal(6) == "6" && Decimal(65) == "65" && Decimal(655) == "655" && Decimal(6553) == "6553";
    assert Decimal(8) == "8" && Decimal(80) == "80" && Decimal(808) == "808";
  }

  lemma SpaceIsSkipped(c: char, s: string)
    requires c == ' ' || c == '\t' || c == '\n' || c == '\r' || c == '\U{0B}' || c == '\U{0C}'
    ensures Stoi([c] + s) == Stoi(s)
  {
    assert ([c] + s)[1..] == s;
  }

  lemma {:induction false} DigitsEnd(digits: string, rest: string)
    requires (forall i | 0 <= i < |digits| :: IsDigit(digits[i])) && (rest != "" ==> !IsDigit(rest[0]))
    ensures DigitCount(digits + rest) == |digits|
  {
    if digits == "" {
      assert digits + rest == rest;
    } else {
      DigitsEnd(digits[1..], rest);
      assert (digits + rest)[1..] == digits[1..] + rest;
    }
  }

  /** A sign may stand before the digits, and anything behind them; numbers that are no int are refused. */
  lemma {:induction false} SignedNumberIsRead(sign: string, n: nat, rest: string)
    requires (sign == "" || sign == "+" || sign == "-") && (rest != "" ==> !IsDigit(rest[0]))
    ensures var value := if sign == "-" then 0 - n else n;
            Stoi(sign + (Decimal(n) + rest)) == if -2147483648 <= value <= 2147483647 then Some(value) else None
  {
    var digits := Decimal(n) + rest;
    var text := sign + digits;
    assert IsDigit(Decimal(n)[0]);
    DigitsEnd(Decimal(n), rest);
    hide Decimal, DigitCount, ValueOf;
    assert text[0] == if sign == "" then digits[0] else sign[0];
    assert SkipSpace(text) == text;
    assert (if sign == "" then text else text[1..]) == digits;
    assert digits[..|Decimal(n)|] == Decimal(n);
  }

  /** Without a digit behind spaces and sign there is no number. */
  lemma NoDigitIsRefused(sign: string, rest: string)
    requires sign == "" || sign == "+" || sign == "-"
    requires rest != "" ==> !IsDigit(rest[0]) && (sign == "" ==> rest[0] !in " \t\n\r\U{0B}\U{0C}+-")
    ensures Stoi(sign + rest) == None
  {
    var text := sign + rest;
    assert SkipSpace(text) == text;
    assert sign != "" ==> text[1..] == rest;
    assert sign == "" ==> text == rest;
  }

  // ---------------------------------------------------------------- texts with a port

  lemma {:induction false} PortIsTaken(url: string, at: nat, p: Protocol, host: string, portText: string)
    requires at + |host| + 1 + |portText| <= |url| < NPOS && IsPlainHost(host) && '/' !in portText
    requires url[at..at + |host|] == host && url[at + |host|] == ':'
    requires url[at + |host| + 1..at + |host| + 1 + |portText|] == portText
    requires at + |host| + 1 + |portText| < |url| ==> url[at + |host| + 1 + |portText|] == '/'
    ensures ParseHost(url, |url|, at, p)
            == match Stoi(portText)
               case None => None
               case Some(n) => Some(ParsePath(url, |url|, at + |host| + 1 + |portText|, p, host, n % 65536))
  {
    hide FindChar, ParsePath, DefaultPort, Stoi;
    var colon := at + |host|;
    LacksIn(url, at, host, ':');
    LacksIn(url, at, host, '/');
    LacksIn(url, colon + 1, portText, '/');
    FoundAt(url, ':', at, colon);
    SlashIsFound(url, at, colon + 1 + |portText|);
  }

  lemma PortIsCut(url: string, colon: nat, portText: string, behind: string)
    requires colon <= |url| && url[colon..] == [':'] + (portText + behind) && (behind == "" || behind[0] == '/')
    ensures var pathAt := colon + 1 + |portText|;
            && pathAt <= |url| && url[colon] == ':' && url[colon + 1..pathAt] == portText && url[pathAt..] == behind
            && (pathAt < |url| ==> url[pathAt] == '/')
  {
    CutChar(url, ':', portText + behind, colon);
    Cut(url, portText, behind, colon + 1);
    var pathAt := colon + 1 + |portText|;
    assert pathAt < |url| ==> url[pathAt] == url[pathAt..][0];
  }

  /** A scheme, a host and a port: a port that is no number is refused, any other is cut to 16 bits. */
  lemma {:induction false} PortIsRead(scheme: string, p: Protocol, host: string, portText: string, behind: string)
    requires IsScheme(scheme, p) && IsPlainHost(host) && '/' !in portText && '#' !in portText
    requires |Typed(scheme, host, [':'] + (portText + behind))| < NPOS
    requires '#' !in behind && (behind == "" || behind[0] == '/')
    ensures var url := Typed(scheme, host, [':'] + (portText + behind));
            var pathAt := |scheme| + 3 + |host| + 1 + |portText|;
            && pathAt <= |url| && EndOf(url) == |url| && url[pathAt..] == behind
            && Parse(url) == match Stoi(portText)
                             case None => None
                             case Some(n) => Some(ParsePath(url, |url|, pathAt, p, host, n % 65536))
  {
    hide *;
    var rest := [':'] + (portText + behind);
    var url, at := Typed(scheme, host, rest), |scheme| + 3;
    PlainHostLacksHash(host);
    SchemeIsCut(scheme, p, host, rest);
    TypedParts(scheme, host, rest);
    PortIsCut(url, at + |host|, portText, behind);
    PortIsTaken(url, at, p, host, portText);
    PortIsTaken(url, at, p, host, portText);
  }

  /** With a number for a port: the host, the number cut to 16 bits, and path and query as they are written. */
  lemma {:induction false} NumberedPortIsRead(scheme: string, p: Protocol, host: string, n: nat, path: string,
                                              order: seq<Pair>)
    requires IsScheme(scheme, p) && IsPlainHost(host) && IsPlainPath(path) && forall q | q in order :: IsCleanPair(q)
    requires n <= 2147483647 && |Typed(scheme, host, [':'] + (Decimal(n) + (path + QueryText(order))))| < NPOS
    ensures Parse(Typed(scheme, host, [':'] + (Decimal(n) + (path + QueryText(order)))))
            == Some(UrlInfo(p, host, n % 65536, path, multiset(order)))
  {
    hide *;
    var portText, behind := Decimal(n), path + QueryText(order);
    SignedNumberIsRead("", n, "");
    assert "" + (portText + "") == portText;
    DecimalLacks(n);
    PathAndQueryArePlain(path, order);
    PortIsRead(scheme, p, host, portText, behind);
    var url := Typed(scheme, host, [':'] + (portText + behind));
    PathIsRead(url, |scheme| + 3 + |host| + 1 + |portText|, path, order, p, host, n % 65536);
  }

  lemma {:induction false} DecimalLacks(n: nat)
    ensures '/' !in Decimal(n) && '#' !in Decimal(n)
  {
    assert forall i | 0 <= i < |Decimal(n)| :: IsDigit(Decimal(n)[i]);
    hide Decimal;
  }

  // ---------------------------------------------------------------- texts without a scheme

  /** Without "://", or with a '#' in front of every "://", nothing is found. */
  lemma NothingIsFound(url: string)
    requires |url| < NPOS && forall k | 0 <= k <= |url| - 3 && url[k..k + 3] == "://" :: '#' in url[..k]
    ensures Parse(url) == Some(UrlInfo(Unknown, "", 0, "/", multiset{}))
  {
    var sep := FindSeparator(url, 0);
    if sep != NPOS {
      assert url[sep..sep + 3] == "://";
      var k :| 0 <= k < sep && url[..sep][k] == '#';
      assert url[k] == '#';
      assert EndOf(url) <= k;
      hide EndOf, FindSeparator, ToLower;
      HashIsNoScheme(url[..sep]);
    }
  }

  lemma HashIsNoScheme(text: string)
    requires '#' in text
    ensures ToProtocol(text) == Unknown
  {
    hide ToLower, IsWord;
    var small := ToLower(text);
    LoweredIsWord(text, small);
    if small == "http" || small == "https" || small == "ftp" || small == "danejoe" {
      SmallWord(text, small);
      assert false;
    }
  }
}
