/** Parsing and printing of URLs (url_resolver.cpp). */
module Urls {
  import opened Options
  import opened Sequences

  /** std::string::npos, larger than any length. */
  const NPOS: nat := 0xFFFF_FFFF_FFFF_FFFF

  datatype Protocol = Unknown | Http | Https | Ftp | Danejoe

  type Pair = (string, string)

  datatype UrlInfo = UrlInfo(protocol: Protocol, host: string, port: nat, path: string, query: multiset<Pair>)

  // ---------------------------------------------------------------- searching

  /** The first position of c at or after from. */
  function FindChar(s: string, c: char, from: nat): (r: nat)
    requires |s| < NPOS
    ensures r == NPOS || (from <= r < |s| && s[r] == c)
    ensures forall k | from <= k < |s| && k < r :: s[k] != c
    decreases |s| - from
  {
    if from >= |s| then NPOS else if s[from] == c then from else FindChar(s, c, from + 1)
  }

  predicate IsSeparator(s: string, k: nat) {
    k + 3 <= |s| && s[k] == ':' && s[k + 1] == '/' && s[k + 2] == '/'
  }

  /** The first position of "://". */
  function FindSeparator(s: string, from: nat): (r: nat)
    requires |s| < NPOS
    ensures r == NPOS || (from <= r && IsSeparator(s, r))
    ensures forall k | from <= k < |s| && k < r :: !IsSeparator(s, k)
    decreases |s| - from
  {
    if from >= |s| then NPOS else if IsSeparator(s, from) then from else FindSeparator(s, from + 1)
  }

  lemma {:induction false} FoundAt(s: string, c: char, from: nat, k: nat)
    requires |s| < NPOS && from <= k < |s| && s[k] == c && forall i | from <= i < k :: s[i] != c
    ensures FindChar(s, c, from) == k
  {
  }

  lemma {:induction false} FoundNowhere(s: string, c: char, from: nat)
    requires |s| < NPOS && forall i | from <= i < |s| :: s[i] != c
    ensures FindChar(s, c, from) == NPOS
  {
  }

  // ---------------------------------------------------------------- numbers

  predicate IsDigit(c: char) {
    '0' <= c <= '9'
  }

  function DigitCount(s: string): (n: nat)
    ensures n <= |s| && forall i | 0 <= i < n :: IsDigit(s[i])
    ensures n < |s| ==> !IsDigit(s[n])
  {
    if s == [] || !IsDigit(s[0]) then 0 else 1 + DigitCount(s[1..])
  }

  function DigitValue(c: char): nat
    requires IsDigit(c)
  {
    c as int - '0' as int
  }

  function ValueOf(s: string): nat
    requires forall i | 0 <= i < |s| :: IsDigit(s[i])
  {
    if s == [] then 0 else 10 * ValueOf(s[..|s| - 1]) + DigitValue(s[|s| - 1])
  }

  function SkipSpace(s: string): string {
    if s != [] && s[0] in " \t\n\r\U{0B}\U{0C}" then SkipSpace(s[1..]) else s
  }

  /** std::stoi: spaces, a sign, digits, and anything behind them; it throws without a digit and when
      the number is not an int. */
  function Stoi(s: string): Option<int> {
    var t := SkipSpace(s);
    var signed := t != [] && (t[0] == '-' || t[0] == '+');
    var digits := if signed then t[1..] else t;
    var n := DigitCount(digits);
    if n == 0 then None
    else
      var magnitude: int := ValueOf(digits[..n]);
      var value := if signed && t[0] == '-' then 0 - magnitude else magnitude;
      if -0x8000_0000 <= value < 0x8000_0000 then Some(value) else None
  }

  function Digit(n: nat): (c: char)
    requires n < 10
    ensures IsDigit(c) && DigitValue(c) == n
  {
    '0' + n as char
  }

  function Decimal(n: nat): (s: string)
    ensures |s| > 0 && forall i | 0 <= i < |s| :: IsDigit(s[i])
    ensures ValueOf(s) == n
  {
    if n < 10 then [Digit(n)]
    else
      var s := Decimal(n / 10) + [Digit(n % 10)];
      assert s[..|s| - 1] == Decimal(n / 10);
      s
  }

  lemma {:induction false} AllDigits(s: string)
    requires forall i | 0 <= i < |s| :: IsDigit(s[i])
    ensures DigitCount(s) == |s|
  {
    if s != [] {
      AllDigits(s[1..]);
    }
  }

  lemma {:induction false} StoiReadsDecimal(n: nat)
    requires n < 0x8000_0000
    ensures Stoi(Decimal(n)) == Some(n)
  {
    var s := Decimal(n);
    assert IsDigit(s[0]);
    AllDigits(s);
    assert s[..|s|] == s;
  }

  // ---------------------------------------------------------------- protocols

  function ToLower(s: string): (r: string)
    ensures |r| == |s|
  {
    seq(|s|, i requires 0 <= i < |s| => if 'A' <= s[i] <= 'Z' then s[i] - 'A' + 'a' else s[i])
  }

  function ToProtocol(s: string): Protocol {
    var temp := ToLower(s);
    if temp == "http" then Http
    else if temp == "https" then Https
    else if temp == "ftp" then Ftp
    else if temp == "danejoe" then Danejoe
    else Unknown
  }

  function ProtocolText(p: Protocol): string {
    match p
    case Http => "http"
    case Https => "https"
    case Danejoe => "danejoe"
    case Ftp => "ftp"
    case Unknown => ""
  }

  lemma ProtocolRoundTrip(p: Protocol)
    ensures ToProtocol(ProtocolText(p)) == p
  {
    match p
    case Http => assert ToLower("http") == "http";
    case Https => assert ToLower("https") == "https";
    case Danejoe => assert ToLower("danejoe") == "danejoe";
    case Ftp => assert ToLower("ftp") == "ftp";
    case Unknown =>
  }

  function DefaultPort(p: Protocol): nat {
    match p
    case Http => 80
    case Https => 443
    case Ftp => 21
    case Danejoe => 8080
    case Unknown => 0
  }

  // ---------------------------------------------------------------- parsing

  /** The end of the text, or the '#' that starts the fragment. */
  predicate IsEnd(url: string, urlEnd: nat) {
    urlEnd == |url| || (urlEnd < |url| && url[urlEnd] == '#')
  }

  function EndOf(url: string): (r: nat)
    requires |url| < NPOS
    ensures IsEnd(url, r)
  {
    var hash := FindChar(url, '#', 0);
    if hash == NPOS then |url| else hash
  }

  function Parse(url: string): Option<UrlInfo>
    requires |url| < NPOS
  {
    var sep := FindSeparator(url, 0);
    if sep == NPOS then Some(UrlInfo(Unknown, "", 0, "/", multiset{}))
    else ParseHost(url, EndOf(url), sep + 3, ToProtocol(url[..sep]))
  }

  function ParseHost(url: string, urlEnd: nat, at: nat, protocol: Protocol): Option<UrlInfo>
    requires |url| < NPOS && IsEnd(url, urlEnd) && at <= |url|
  {
    if at > urlEnd then Some(UrlInfo(protocol, "", 0, "/", multiset{}))
    else
      var colon, slash := FindChar(url, ':', at), FindChar(url, '/', at);
      var hostEnd := if slash == NPOS then urlEnd else slash;
      if colon > hostEnd then Some(ParsePath(url, urlEnd, hostEnd, protocol, url[at..hostEnd], DefaultPort(protocol)))
      else if colon + 1 > urlEnd then Some(UrlInfo(protocol, url[at..colon], 0, "/", multiset{}))
      else
        match Stoi(url[colon + 1..hostEnd])
        case None => None
        case Some(n) => Some(ParsePath(url, urlEnd, hostEnd, protocol, url[at..colon], n % 0x1_0000))
  }

  function ParsePath(url: string, urlEnd: nat, at: nat, protocol: Protocol, host: string, port: nat): UrlInfo
    requires |url| < NPOS && IsEnd(url, urlEnd) && at <= |url|
  {
    if at > urlEnd then UrlInfo(protocol, host, port, "/", multiset{})
    else
      var question := FindChar(url, '?', at);
      var pathEnd := if question == NPOS then urlEnd else question;
      var path := if pathEnd == at then "/" else url[at..pathEnd];
      if pathEnd + 1 > urlEnd then UrlInfo(protocol, host, port, path, multiset{})
      else UrlInfo(protocol, host, port, path, multiset(ParseQuery(url, urlEnd, pathEnd + 1)))
  }

  /** Where the value that starts at from ends. */
  function ValueEnd(url: string, urlEnd: nat, from: nat): (r: nat)
    requires |url| < NPOS && IsEnd(url, urlEnd) && from <= urlEnd
    ensures from <= r <= |url| && (urlEnd < |url| ==> r < |url|)
    ensures '&' !in url[from..r]
  {
    var ampersand := FindChar(url, '&', from);
    if ampersand == NPOS then urlEnd else ampersand
  }

  function ParseQuery(url: string, urlEnd: nat, at: nat): seq<Pair>
    requires |url| < NPOS && IsEnd(url, urlEnd) && at <= urlEnd
    decreases |url| - at
  {
    var equal := FindChar(url, '=', at);
    if equal == NPOS || equal + 1 > urlEnd then []
    else
      var valueEnd := ValueEnd(url, urlEnd, equal + 1);
      [(url[at..equal], url[equal + 1..valueEnd])] + QueryBehind(url, urlEnd, valueEnd)
  }

  /** The pairs behind a value. */
  function QueryBehind(url: string, urlEnd: nat, valueEnd: nat): seq<Pair>
    requires |url| < NPOS && IsEnd(url, urlEnd) && valueEnd <= |url|
    decreases |url| - valueEnd
  {
    if valueEnd + 1 > urlEnd then [] else ParseQuery(url, urlEnd, valueEnd + 1)
  }

  /** The parser as a loop: it ends for every text, reads no position outside it, and gives up only when
      the port is no number. */
  method ParseUrl(url: string) returns (info: Option<UrlInfo>)
    requires |url| < NPOS
    ensures info == Parse(url)
  {
    hide FindChar, FindSeparator, ParseHost, ToProtocol;
    var urlEnd := FindChar(url, '#', 0);
    urlEnd := if urlEnd == NPOS then |url| else urlEnd;
    var protocolEnd := FindSeparator(url, 0);
    var result := UrlInfo(Unknown, "", 0, "/", multiset{});
    if protocolEnd == NPOS {
      return Some(result);
    }
    result := result.(protocol := ToProtocol(url[..protocolEnd]));
    info := ParseAuthority(url, urlEnd, protocolEnd + 3, result);
  }

  /** The part of the parser behind the protocol. */
  method ParseAuthority(url: string, urlEnd: nat, at: nat, was: UrlInfo) returns (info: Option<UrlInfo>)
    requires |url| < NPOS && IsEnd(url, urlEnd) && at <= |url| && was == UrlInfo(was.protocol, "", 0, "/", multiset{})
    ensures info == ParseHost(url, urlEnd, at, was.protocol)
  {
    hide FindChar, Stoi, ParsePath;
    var result, current := was, at;
    if current > urlEnd {
      return Some(result);
    }
    var portSign := FindChar(url, ':', current);
    var hostPortEnd := FindChar(url, '/', current);
    if hostPortEnd == NPOS {
      hostPortEnd := urlEnd;
    }
    if portSign > hostPortEnd {
      portSign := NPOS;
    }
    if portSign == NPOS {
      result := result.(host := url[current..hostPortEnd], port := DefaultPort(result.protocol));
    } else {
      result := result.(host := url[current..portSign]);
      current := portSign + 1;
      if current > urlEnd {
        return Some(result);
      }
      var port := Stoi(url[current..hostPortEnd]);
      if port.None? {
        return None;
      }
      result := result.(port := port.value % 0x1_0000);
    }
    result := ParseRest(url, urlEnd, hostPortEnd, result);
    return Some(result);
  }

  /** The part of the parser behind host and port. */
  method ParseRest(url: string, urlEnd: nat, at: nat, was: UrlInfo) returns (result: UrlInfo)
    requires |url| < NPOS && IsEnd(url, urlEnd) && at <= |url| && was.path == "/" && was.query == multiset{}
    ensures result == ParsePath(url, urlEnd, at, was.protocol, was.host, was.port)
  {
    hide FindChar, ParseQuery;
    result := was;
    var current := at;
    if current > urlEnd {
      return;
    }
    var queryPos := FindChar(url, '?', current);
    var pathEnd := urlEnd;
    if queryPos != NPOS {
      pathEnd := queryPos;
    }
    result := result.(path := if pathEnd == current then "/" else url[current..pathEnd]);
    current := pathEnd + 1;
    if current > urlEnd {
      return;
    }
    var query := ParsePairs(url, urlEnd, current);
    result := result.(query := query);
  }

  /** The query loop. */
  method ParsePairs(url: string, urlEnd: nat, at: nat) returns (query: multiset<Pair>)
    requires |url| < NPOS && IsEnd(url, urlEnd) && at <= urlEnd
    ensures query == multiset(ParseQuery(url, urlEnd, at))
  {
    hide FindChar, ParseQuery;
    query := multiset{};
    var current := at;
    while true
      invariant current <= urlEnd
      invariant query + multiset(ParseQuery(url, urlEnd, current)) == multiset(ParseQuery(url, urlEnd, at))
      decreases |url| - current
    {
      QueryUnfolds(url, urlEnd, current);
      var equalPos := FindChar(url, '=', current);
      if equalPos == NPOS {
        return;
      }
      var key := url[current..equalPos];
      if equalPos + 1 > urlEnd {
        return;
      }
      var andPos := FindChar(url, '&', equalPos + 1);
      var valueEnd := if andPos == NPOS then urlEnd else andPos;
      var value := url[equalPos + 1..valueEnd];
      query := query + multiset{(key, value)};
      current := valueEnd + 1;
      if current > urlEnd {
        return;
      }
    }
  }

  lemma {:induction false} QueryUnfolds(url: string, urlEnd: nat, at: nat)
    requires |url| < NPOS && IsEnd(url, urlEnd) && at <= urlEnd
    ensures var equal := FindChar(url, '=', at);
            if equal == NPOS || equal + 1 > urlEnd then ParseQuery(url, urlEnd, at) == []
            else
              var valueEnd := ValueEnd(url, urlEnd, equal + 1);
              multiset(ParseQuery(url, urlEnd, at))
              == multiset{(url[at..equal], url[equal + 1..valueEnd])} + multiset(QueryBehind(url, urlEnd, valueEnd))
  {
    hide FindChar, ValueEnd, QueryBehind;
  }

  // ---------------------------------------------------------------- printing

  function Item(p: Pair): string {
    p.0 + "=" + p.1 + "&"
  }

  /** key=value pairs, each followed by an ampersand. */
  function Marked(order: seq<Pair>): string {
    if order == [] then "" else Marked(order[..|order| - 1]) + Item(order[|order| - 1])
  }

  /** key=value pairs with ampersands between them. */
  function Joined(order: seq<Pair>): string {
    if order == [] then ""
    else if |order| == 1 then order[0].0 + "=" + order[0].1
    else Item(order[0]) + Joined(order[1..])
  }

  function Head(info: UrlInfo): string {
    ProtocolText(info.protocol) + "://" + info.host + ":" + Decimal(info.port)
  }

  /** The text of a URL whose query is visited in the given order. */
  function Build(info: UrlInfo, order: seq<Pair>): string {
    Head(info) + info.path + (if order == [] then "" else "?" + Joined(order))
  }

  lemma {:induction false} MarkedTail(order: seq<Pair>)
    requires order != []
    ensures Marked(order) == Item(order[0]) + Marked(order[1..])
  {
    hide Item;
    var n := |order| - 1;
    if n == 0 {
      assert order[..0] == [];
    } else {
      MarkedTail(order[..n]);
      assert order[..n][1..] == order[1..][..n - 1];
      Regrouped(Item(order[0]), Marked(order[1..][..n - 1]), Item(order[n]));
    }
  }

  lemma {:induction false} MarkedIsJoined(order: seq<Pair>)
    requires order != []
    ensures Marked(order) == Joined(order) + "&"
  {
    MarkedTail(order);
    if |order| > 1 {
      hide Item;
      MarkedIsJoined(order[1..]);
      Regrouped(Item(order[0]), Joined(order[1..]), "&");
    }
  }

  /** The printer: the order is the one in which the multimap is visited. */
  method BuildUrl(info: UrlInfo, order: seq<Pair>) returns (result: string)
    requires multiset(order) == info.query
    ensures result == Build(info, order)
  {
    result := ProtocolText(info.protocol) + "://" + info.host + ":" + Decimal(info.port) + info.path;
    if |order| > 0 {
      result := result + "?";
      ghost var start := result;
      for i := 0 to |order|
        invariant result == start + Marked(order[..i])
      {
        assert order[..i + 1][..i] == order[..i];
        Regrouped(start, Marked(order[..i]), Item(order[i]));
        result := result + (order[i].0 + "=" + order[i].1 + "&");
      }
      assert order[..|order|] == order;
      MarkedIsJoined(order);
      result := result[..|result| - 1];
      assert result == start + Joined(order);
    }
  }
}
