/** Which URLs survive being printed and parsed again. */
module UrlRoundTrips {
  import opened Options
  import opened Urls
  import opened Sequences

  predicate IsCleanPair(p: Pair) {
    '=' !in p.0 && '#' !in p.0 && '&' !in p.1 && '#' !in p.1
  }

  /** What a caller checks before printing. A host with '#' ends the URL for the parser, which then
      returns port 0, path "/" and no query. */
  predicate IsPrintable(info: UrlInfo) {
    && ':' !in info.host && '/' !in info.host
    && if '#' in info.host then info.port == 0 && info.path == "/" && info.query == multiset{}
       else
         && info.path != "" && info.path[0] == '/' && '?' !in info.path && '#' !in info.path
         && forall p | p in info.query :: IsCleanPair(p)
  }

  // ---------------------------------------------------------------- the query

  lemma {:induction false} JoinedItem(order: seq<Pair>)
    requires |order| > 1
    ensures Joined(order) == order[0].0 + "=" + order[0].1 + "&" + Joined(order[1..])
  {
    Regrouped(order[0].0 + "=" + order[0].1, "&", Joined(order[1..]));
  }

  lemma SplitItem(url: string, at: nat, p: Pair)
    requires var item := p.0 + "=" + p.1; at + |item| <= |url| && url[at..at + |item|] == item
    ensures url[at..at + |p.0|] == p.0 && url[at + |p.0|] == '='
    ensures url[at + |p.0| + 1..at + |p.0| + 1 + |p.1|] == p.1
  {
    var item := p.0 + "=" + p.1;
    var n := |p.0|;
    assert item[..n] == p.0 && item[n] == '=' && item[n + 1..] == p.1;
    assert url[at..at + n] == url[at..at + |item|][..n];
    assert url[at + n] == url[at..at + |item|][n];
    assert url[at + n + 1..at + n + 1 + |p.1|] == url[at..at + |item|][n + 1..];
  }

  lemma LacksIn(url: string, from: nat, s: string, c: char)
    requires from + |s| <= |url| && url[from..from + |s|] == s && c !in s
    ensures forall i | from <= i < from + |s| :: url[i] != c
  {
    forall i | from <= i < from + |s| ensures url[i] == s[i - from] {
      assert url[from..from + |s|][i - from] == url[i];
    }
  }

  lemma {:induction false} Unfolds(url: string, urlEnd: nat, at: nat)
    requires |url| < NPOS && IsEnd(url, urlEnd) && at <= urlEnd
    ensures var equal := FindChar(url, '=', at);
            if equal == NPOS || equal + 1 > urlEnd then ParseQuery(url, urlEnd, at) == []
            else
              var valueEnd := ValueEnd(url, urlEnd, equal + 1);
              ParseQuery(url, urlEnd, at)
              == [(url[at..equal], url[equal + 1..valueEnd])] + QueryBehind(url, urlEnd, valueEnd)
  {
    hide FindChar, ValueEnd, QueryBehind;
  }

  lemma {:induction false} RestUnfolds(url: string, urlEnd: nat, valueEnd: nat)
    requires |url| < NPOS && IsEnd(url, urlEnd) && valueEnd <= |url|
    ensures QueryBehind(url, urlEnd, valueEnd)
            == if valueEnd + 1 > urlEnd then [] else ParseQuery(url, urlEnd, valueEnd + 1)
  {
    hide ParseQuery;
  }

  /** One pair is read off the front of the rest of the query. */
  lemma ReadsPair(url: string, at: nat, p: Pair, more: bool)
    requires |url| < NPOS && '=' !in p.0 && '&' !in p.1
    requires var item := p.0 + "=" + p.1;
             && at + |item| + (if more then 1 else 0) <= |url|
             && url[at..at + |item|] == item
             && (more ==> url[at + |item|] == '&')
             && (!more ==> at + |item| == |url|)
    ensures var next := at + |p.0| + |p.1| + 2;
            ParseQuery(url, |url|, at) == [p] + (if more then ParseQuery(url, |url|, next) else [])
  {
    hide FindChar, ParseQuery;
    var equal := at + |p.0|;
    SplitItem(url, at, p);
    LacksIn(url, at, p.0, '=');
    LacksIn(url, equal + 1, p.1, '&');
    FoundAt(url, '=', at, equal);
    if more {
      FoundAt(url, '&', equal + 1, equal + 1 + |p.1|);
    } else {
      FoundNowhere(url, '&', equal + 1);
    }
    assert ValueEnd(url, |url|, equal + 1) == equal + 1 + |p.1|;
    Unfolds(url, |url|, at);
  }

  /** Clean pairs are read back one by one, in order. */
  lemma {:induction false} ParseJoined(url: string, order: seq<Pair>, at: nat)
    requires |url| < NPOS && at <= |url| && url[at..] == Joined(order)
    requires order != [] && forall k | 0 <= k < |order| :: '=' !in order[k].0 && '&' !in order[k].1
    ensures ParseQuery(url, |url|, at) == order
    decreases |order|
  {
    hide ParseQuery;
    var p := order[0];
    var item := p.0 + "=" + p.1;
    if |order| == 1 {
      assert url[at..] == item;
      ReadsPair(url, at, p, false);
    } else {
      JoinedItem(order);
      JoinedStarts(url, at, item, Joined(order[1..]));
      ReadsPair(url, at, p, true);
      ParseJoined(url, order[1..], at + |item| + 1);
    }
  }

  lemma JoinedStarts(url: string, at: nat, item: string, rest: string)
    requires at <= |url| && url[at..] == item + "&" + rest
    ensures at + |item| + 1 <= |url| && url[at..at + |item|] == item && url[at + |item|] == '&'
    ensures url[at + |item| + 1..] == rest
  {
    var n := |item|;
    assert |url[at..]| == n + 1 + |rest|;
    assert url[at..at + n] == url[at..][..n];
    assert url[at + n] == url[at..][n];
    assert url[at + n + 1..] == url[at..][n + 1..];
  }

  predicate IsShaped(p: Pair) {
    '=' !in p.0 && '&' !in p.1
  }

  lemma ShapedHead(p: Pair, rest: seq<Pair>)
    requires IsShaped(p) && forall r | r in rest :: IsShaped(r)
    ensures forall r | r in [p] + rest :: IsShaped(r)
  {
    hide IsShaped;
  }

  /** Whatever the text, a parsed key has no '=' and a parsed value no '&'. */
  lemma {:induction false} ParsedShape(url: string, urlEnd: nat, at: nat)
    requires |url| < NPOS && IsEnd(url, urlEnd) && at <= urlEnd
    ensures forall p | p in ParseQuery(url, urlEnd, at) :: IsShaped(p)
    decreases |url| - at
  {
    var equal := FindChar(url, '=', at);
    if equal == NPOS || equal + 1 > urlEnd {
      assert ParseQuery(url, urlEnd, at) == [];
    } else {
      hide FindChar, ValueEnd, ParseQuery;
      var valueEnd := ValueEnd(url, urlEnd, equal + 1);
      if valueEnd + 1 <= urlEnd {
        ParsedShape(url, urlEnd, valueEnd + 1);
      }
      Unfolds(url, urlEnd, at);
      assert IsShaped((url[at..equal], url[equal + 1..valueEnd]));
      hide IsShaped;
      ShapedHead((url[at..equal], url[equal + 1..valueEnd]), QueryBehind(url, urlEnd, valueEnd));
    }
  }

  /** How much text the pairs take, with their separators. */
  function Size(order: seq<Pair>): nat {
    if order == [] then 0 else |order[0].0| + |order[0].1| + 2 + Size(order[1..])
  }

  lemma {:induction false} SizeOfJoined(order: seq<Pair>)
    requires order != []
    ensures |Joined(order)| + 1 == Size(order)
  {
    if |order| > 1 {
      SizeOfJoined(order[1..]);
    }
  }

  lemma {:induction false} SizeAppend(a: seq<Pair>, b: seq<Pair>)
    ensures Size(a + b) == Size(a) + Size(b)
  {
    if a == [] {
      assert a + b == b;
    } else {
      assert (a + b)[1..] == a[1..] + b;
      SizeAppend(a[1..], b);
    }
  }

  lemma {:induction false} SizeHead(p: Pair, rest: seq<Pair>)
    ensures Size([p] + rest) == |p.0| + |p.1| + 2 + Size(rest)
  {
    assert ([p] + rest)[1..] == rest;
  }

  lemma TakeOut(a: seq<Pair>, b: seq<Pair>) returns (front: seq<Pair>, back: seq<Pair>)
    requires a != [] && multiset(a) == multiset(b)
    ensures b == front + ([a[0]] + back) && multiset(a[1..]) == multiset(front + back)
  {
    assert a[0] in multiset(b);
    var j :| 0 <= j < |b| && b[j] == a[0];
    front, back := b[..j], b[j + 1..];
    assert b == front + ([b[j]] + back);
    assert a == [a[0]] + a[1..];
    assert multiset(a) == multiset{a[0]} + multiset(a[1..]);
    assert multiset(b) == multiset{a[0]} + multiset(front + back);
    assert multiset(a[1..]) == multiset(a) - multiset{a[0]};
  }

  lemma {:induction false} SizeOfMultiset(a: seq<Pair>, b: seq<Pair>)
    requires multiset(a) == multiset(b)
    ensures Size(a) == Size(b)
    decreases |a|
  {
    if a == [] {
      assert |multiset(b)| == 0;
    } else {
      var front, back := TakeOut(a, b);
      SizeOfMultiset(a[1..], front + back);
      SizeAppend(front, back);
      SizeAppend(front, [a[0]] + back);
      SizeHead(a[0], back);
    }
  }

  lemma {:induction false} PairSize(url: string, at: nat, equal: nat, valueEnd: nat, rest: seq<Pair>)
    requires at <= equal < valueEnd <= |url|
    ensures Size([(url[at..equal], url[equal + 1..valueEnd])] + rest) == valueEnd - at + 1 + Size(rest)
  {
    SizeHead((url[at..equal], url[equal + 1..valueEnd]), rest);
  }

  /** A pair that ends before the end, with the pairs behind it. */
  lemma {:induction false} PairAndRestFit(url: string, at: nat, equal: nat, valueEnd: nat, rest: seq<Pair>)
    requires at <= equal < valueEnd <= |url|
    requires Size(rest) <= |url| - valueEnd - 1
    ensures Size([(url[at..equal], url[equal + 1..valueEnd])] + rest) <= |url| - at
  {
    hide Size;
    PairSize(url, at, equal, valueEnd, rest);
  }

  /** With a '#' behind it, the query that is read is too short to be the whole text. */
  lemma {:induction false} ParsedIsShort(url: string, urlEnd: nat, at: nat)
    requires |url| < NPOS && IsEnd(url, urlEnd) && at <= urlEnd < |url|
    ensures Size(ParseQuery(url, urlEnd, at)) <= |url| - at
    decreases |url| - at
  {
    hide FindChar, ParseQuery, QueryBehind, ValueEnd, Size, IsEnd;
    var equal := FindChar(url, '=', at);
    Unfolds(url, urlEnd, at);
    if equal == NPOS || equal + 1 > urlEnd {
      SizeOfNothing();
    } else {
      var valueEnd := ValueEnd(url, urlEnd, equal + 1);
      RestUnfolds(url, urlEnd, valueEnd);
      if valueEnd + 1 <= urlEnd {
        ParsedIsShort(url, urlEnd, valueEnd + 1);
      } else {
        SizeOfNothing();
      }
      PairAndRestFit(url, at, equal, valueEnd, QueryBehind(url, urlEnd, valueEnd));
    }
  }

  lemma SizeOfNothing()
    ensures Size([]) == 0
  {
  }

  predicate Mentions(order: seq<Pair>, c: char) {
    exists k | 0 <= k < |order| :: c in order[k].0 || c in order[k].1
  }

  lemma {:induction false} JoinedMentions(order: seq<Pair>, c: char)
    requires c != '=' && c != '&'
    ensures c in Joined(order) <==> Mentions(order, c)
  {
    if |order| > 1 {
      JoinedItem(order);
      JoinedMentions(order[1..], c);
      assert forall k | 0 <= k < |order| - 1 :: order[1..][k] == order[k + 1];
      if Mentions(order, c) && !(c in order[0].0 || c in order[0].1) {
        var k :| 0 <= k < |order| && (c in order[k].0 || c in order[k].1);
        assert order[1..][k - 1] == order[k];
      }
      if k :| 0 <= k < |order| - 1 && (c in order[1..][k].0 || c in order[1..][k].1) {
        assert c in order[k + 1].0 || c in order[k + 1].1;
      }
    }
  }

  /** The query comes back if and only if every pair is clean. */
  lemma {:induction false} QueryRoundTripIff(url: string, order: seq<Pair>, at: nat)
    requires |url| < NPOS && order != [] && at <= |url| && url[at..] == Joined(order) && at <= EndOf(url)
    ensures multiset(ParseQuery(url, EndOf(url), at)) == multiset(order)
            <==> forall p | p in multiset(order) :: IsCleanPair(p)
  {
    hide FindChar, Joined, ParseQuery, Size;
    JoinedMentions(order, '#');
    HashInRest(url, at);
    var urlEnd := EndOf(url);
    var parsed := ParseQuery(url, urlEnd, at);
    if '#' in url[at..] {
      assert multiset(parsed) != multiset(order) by {
        if multiset(parsed) == multiset(order) {
          SizeOfMultiset(parsed, order);
          SizeOfJoined(order);
          ParsedIsShort(url, urlEnd, at);
          assert false;
        }
      }
      var k :| 0 <= k < |order| && ('#' in order[k].0 || '#' in order[k].1);
      assert order[k] in multiset(order) && !IsCleanPair(order[k]);
    } else {
      assert forall k | 0 <= k < |order| :: '#' !in order[k].0 && '#' !in order[k].1;
      if forall p | p in multiset(order) :: IsCleanPair(p) {
        forall k | 0 <= k < |order| ensures '=' !in order[k].0 && '&' !in order[k].1 {
          assert order[k] in multiset(order);
        }
        ParseJoined(url, order, at);
      } else {
        var p :| p in multiset(order) && !IsCleanPair(p);
        var k :| 0 <= k < |order| && order[k] == p;
        ParsedShape(url, urlEnd, at);
        assert p !in parsed;
        assert p !in multiset(parsed);
      }
    }
  }

  lemma HashInRest(url: string, at: nat)
    requires |url| < NPOS && at <= |url| && at <= EndOf(url)
    ensures '#' in url[at..] <==> EndOf(url) < |url|
  {
    hide FindChar;
    var urlEnd := EndOf(url);
    if urlEnd < |url| {
      assert url[at..][urlEnd - at] == '#';
    }
    if '#' in url[at..] {
      var k :| 0 <= k < |url| - at && url[at..][k] == '#';
      assert url[at + k] == '#';
    }
  }

  // ---------------------------------------------------------------- the printed text

  /** Where the parts of a printed URL lie. */
  ghost predicate Layout(url: string, info: UrlInfo, order: seq<Pair>, at: nat) {
    && |url| < NPOS
    && var portAt := at + |info.host| + 1;
       var pathAt := portAt + |Decimal(info.port)|;
       var queryAt := pathAt + |info.path|;
       && queryAt <= |url|
       && url[at..portAt - 1] == info.host
       && url[portAt - 1] == ':'
       && url[portAt..pathAt] == Decimal(info.port)
       && url[pathAt..queryAt] == info.path
       && (order == [] ==> queryAt == |url|)
       && (order != [] ==> queryAt < |url| && url[queryAt] == '?' && url[queryAt + 1..] == Joined(order))
  }

  lemma Cut(whole: string, a: string, b: string, at: nat)
    requires at <= |whole| && whole[at..] == a + b
    ensures at + |a| <= |whole| && whole[at..at + |a|] == a && whole[at + |a|..] == b
  {
    assert |whole[at..]| == |a| + |b|;
    assert whole[at..at + |a|] == whole[at..][..|a|];
    assert whole[at + |a|..] == whole[at..][|a|..];
  }

  lemma BuildParts(info: UrlInfo, order: seq<Pair>) returns (rest: string)
    ensures var query := if order == [] then "" else "?" + Joined(order);
            rest == info.host + (":" + (Decimal(info.port) + (info.path + query)))
    ensures Build(info, order) == (ProtocolText(info.protocol) + "://") + rest
  {
    hide Joined, Decimal, ProtocolText;
    var query := if order == [] then "" else "?" + Joined(order);
    var p, d := ProtocolText(info.protocol) + "://", Decimal(info.port);
    rest := info.host + (":" + (d + (info.path + query)));
    Regrouped(p, info.host, ":");
    assert Build(info, order) == (((p + info.host) + ":") + d) + info.path + query;
  }

  lemma CutChar(whole: string, c: char, b: string, at: nat)
    requires at <= |whole| && whole[at..] == [c] + b
    ensures at < |whole| && whole[at] == c && whole[at + 1..] == b
  {
    Cut(whole, [c], b, at);
    assert whole[at..at + 1][0] == whole[at];
  }

  lemma CutTail(url: string, at: nat, host: string, d: string, path: string, query: string)
    requires at <= |url| && url[at..] == host + (":" + (d + (path + query)))
    ensures var portAt := at + |host| + 1;
            var queryAt := portAt + |d| + |path|;
            && queryAt <= |url|
            && url[at..portAt - 1] == host && url[portAt - 1] == ':'
            && url[portAt..portAt + |d|] == d && url[portAt + |d|..queryAt] == path && url[queryAt..] == query
  {
    var behindHost, behindPort := d + (path + query), path + query;
    Cut(url, host, ":" + behindHost, at);
    CutChar(url, ':', behindHost, at + |host|);
    Cut(url, d, behindPort, at + |host| + 1);
    Cut(url, path, query, at + |host| + 1 + |d|);
  }

  lemma {:induction false} LayoutFrom(url: string, info: UrlInfo, order: seq<Pair>, at: nat, query: string)
    requires at <= |url| < NPOS
    requires url[at..] == info.host + (":" + (Decimal(info.port) + (info.path + query)))
    requires query == if order == [] then "" else "?" + Joined(order)
    ensures Layout(url, info, order, at)
  {
    hide Joined, Decimal;
    CutTail(url, at, info.host, Decimal(info.port), info.path, query);
    if order != [] {
      CutChar(url, '?', Joined(order), at + |info.host| + 1 + |Decimal(info.port)| + |info.path|);
    }
  }

  lemma BuildHasLayout(info: UrlInfo, order: seq<Pair>)
    requires |Build(info, order)| < NPOS
    ensures var at := |ProtocolText(info.protocol)| + 3;
            && Layout(Build(info, order), info, order, at)
            && Build(info, order)[..at] == ProtocolText(info.protocol) + "://"
  {
    hide Build, Joined, Decimal, ProtocolText, Layout;
    var url := Build(info, order);
    var rest := BuildParts(info, order);
    var front := ProtocolText(info.protocol) + "://";
    assert url[0..] == url;
    Cut(url, front, rest, 0);
    LayoutFrom(url, info, order, |front|, if order == [] then "" else "?" + Joined(order));
  }

  // ---------------------------------------------------------------- host and port

  lemma ProtocolIsPlain(p: Protocol)
    ensures ':' !in ProtocolText(p) && '#' !in ProtocolText(p)
  {
  }

  /** No text before the host has a character that matters. */
  lemma {:induction false} FrontIsPlain(url: string, info: UrlInfo, at: nat)
    requires at == |ProtocolText(info.protocol)| + 3 && at <= |url| < NPOS
    requires url[..at] == ProtocolText(info.protocol) + "://"
    ensures FindSeparator(url, 0) == at - 3 && at <= EndOf(url)
    ensures ToProtocol(url[..at - 3]) == info.protocol
    ensures Parse(url) == ParseHost(url, EndOf(url), at, info.protocol)
  {
    hide FindChar, FindSeparator, ToProtocol, ParseHost, ProtocolText;
    var text := ProtocolText(info.protocol);
    ProtocolIsPlain(info.protocol);
    assert url[..at - 3] == text && url[at - 3] == ':' && url[at - 2] == '/' && url[at - 1] == '/' by {
      assert url[..at - 3] == url[..at][..at - 3];
      assert forall i | at - 3 <= i < at :: url[i] == url[..at][i];
    }
    LacksIn(url, 0, text, ':');
    LacksIn(url, 0, text, '#');
    SeparatorAt(url, at - 3);
    ProtocolRoundTrip(info.protocol);
  }

  lemma {:induction false} SeparatorAt(s: string, k: nat)
    requires |s| < NPOS && IsSeparator(s, k) && forall i | 0 <= i < k :: s[i] != ':'
    ensures FindSeparator(s, 0) == k
  {
    var r := FindSeparator(s, 0);
    hide FindSeparator;
    if r == NPOS || r > k {
      assert false;
    }
  }

  /** The parsed host is the text up to the first ':' or the end of the authority. */
  lemma {:induction false} HostIsCut(url: string, at: nat, protocol: Protocol)
    requires |url| < NPOS && at <= EndOf(url)
    ensures var r := ParseHost(url, EndOf(url), at, protocol);
            var colon, slash := FindChar(url, ':', at), FindChar(url, '/', at);
            r.Some? ==>
              && (colon != NPOS ==> |r.value.host| <= colon - at)
              && (slash != NPOS ==> |r.value.host| <= slash - at)
                && (slash == NPOS && EndOf(url) < colon ==> |r.value.host| <= EndOf(url) - at)
  {
    hide FindChar, Stoi, ParseQuery;
  }

  lemma LayoutHas(url: string, info: UrlInfo, order: seq<Pair>, at: nat)
    requires Layout(url, info, order, at)
    ensures var portAt := at + |info.host| + 1;
            var pathAt := portAt + |Decimal(info.port)|;
            && pathAt + |info.path| <= |url| < NPOS
            && (forall i | at <= i < portAt - 1 :: url[i] == info.host[i - at])
            && url[portAt - 1] == ':'
            && (forall i | portAt <= i < pathAt :: IsDigit(url[i]))
            && (forall i | pathAt <= i < pathAt + |info.path| :: url[i] == info.path[i - pathAt])
  {
    hide Decimal, Joined;
    var d := Decimal(info.port);
    var portAt := at + |info.host| + 1;
    var pathAt := portAt + |d|;
    assert forall i | at <= i < portAt - 1 :: url[i] == url[at..portAt - 1][i - at];
    assert forall i | portAt <= i < pathAt :: url[i] == url[portAt..pathAt][i - portAt];
    assert forall i | pathAt <= i < pathAt + |info.path| :: url[i] == url[pathAt..pathAt + |info.path|][i - pathAt];
  }

  /** A host with ':' or '/' is cut short. */
  lemma BadHost(url: string, info: UrlInfo, order: seq<Pair>, at: nat)
    requires Layout(url, info, order, at) && at <= EndOf(url)
    requires ':' in info.host || '/' in info.host
    ensures ParseHost(url, EndOf(url), at, info.protocol) != Some(info)
  {
    hide FindChar, ParseHost, Decimal, Joined;
    LayoutHas(url, info, order, at);
    hide Layout;
    HostIsCut(url, at, info.protocol);
    var c := if ':' in info.host then ':' else '/';
    var j :| 0 <= j < |info.host| && info.host[j] == c;
    assert url[at + j] == c;
  }

  /** Where the parser finds the port and the path when the host has no ':' and no '/'. */
  lemma {:induction false} HostEnds(url: string, info: UrlInfo, order: seq<Pair>, at: nat)
    requires Layout(url, info, order, at) && ':' !in info.host && '/' !in info.host
    ensures FindChar(url, ':', at) == at + |info.host|
    ensures FindChar(url, '/', at) >= at + |info.host| + 1 + |Decimal(info.port)|
    ensures info.path != "" && info.path[0] == '/' ==>
              FindChar(url, '/', at) == at + |info.host| + 1 + |Decimal(info.port)|
  {
    hide FindChar, Decimal, Joined;
    LayoutHas(url, info, order, at);
    hide Layout;
    FoundAt(url, ':', at, at + |info.host|);
    assert forall i | at <= i < at + |info.host| + 1 + |Decimal(info.port)| :: url[i] != '/';
    if info.path != "" && info.path[0] == '/' {
      FoundAt(url, '/', at, at + |info.host| + 1 + |Decimal(info.port)|);
    }
  }

  lemma EndLies(url: string, info: UrlInfo, order: seq<Pair>, at: nat)
    requires Layout(url, info, order, at) && at <= EndOf(url)
    ensures '#' in info.host ==> EndOf(url) < at + |info.host|
    ensures '#' !in info.host ==> EndOf(url) >= at + |info.host| + 1 + |Decimal(info.port)|
  {
    hide FindChar, Decimal, Joined;
    LayoutHas(url, info, order, at);
    if '#' in info.host {
      var j :| 0 <= j < |info.host| && info.host[j] == '#';
      assert url[at + j] == '#';
    }
  }

  lemma HashHost(url: string, info: UrlInfo, order: seq<Pair>, at: nat)
    requires Layout(url, info, order, at) && at <= EndOf(url)
    requires ':' !in info.host && '/' !in info.host && '#' in info.host
    ensures ParseHost(url, EndOf(url), at, info.protocol) == Some(info)
            <==> info.port == 0 && info.path == "/" && info.query == multiset{}
  {
    hide FindChar, Decimal, EndOf, Joined, Stoi, ParsePath;
    HostEnds(url, info, order, at);
    EndLies(url, info, order, at);
    if FindChar(url, '/', at) == NPOS {
      HostIsCut(url, at, info.protocol);
    }
  }

  /** A clean host and a path with its '/' bring the parser to the path with the right host and port. */
  lemma GoodHost(url: string, info: UrlInfo, order: seq<Pair>, at: nat)
    requires Layout(url, info, order, at) && at <= EndOf(url) && info.port < 0x1_0000
    requires ':' !in info.host && '/' !in info.host && '#' !in info.host
    requires info.path != "" && info.path[0] == '/'
    ensures var pathAt := at + |info.host| + 1 + |Decimal(info.port)|;
            ParseHost(url, EndOf(url), at, info.protocol)
            == Some(ParsePath(url, EndOf(url), pathAt, info.protocol, info.host, info.port))
  {
    hide FindChar, Decimal, EndOf, Joined, Stoi, ParsePath;
    HostEnds(url, info, order, at);
    EndLies(url, info, order, at);
    StoiReadsDecimal(info.port);
  }

  /** A parsed path starts with '/', or is a fragment without a query. */
  lemma {:induction false} ParsedPathStarts(url: string, urlEnd: nat, at: nat, protocol: Protocol, host: string,
                                            port: nat)
    requires |url| < NPOS && IsEnd(url, urlEnd) && at <= |url|
    requires at <= urlEnd && (at == urlEnd || url[at] == '/')
    ensures var r := ParsePath(url, urlEnd, at, protocol, host, port);
            && r.path != ""
            && (r.path[0] != '/' ==>
                  && at == urlEnd < |url| && r.path[0] == '#' && r.query == multiset{}
                  && FindChar(url, '?', at) != NPOS && r.path == url[at..FindChar(url, '?', at)])
  {
    hide FindChar, ParseQuery;
    var question, r := FindChar(url, '?', at), ParsePath(url, urlEnd, at, protocol, host, port);
    var pathEnd := if question == NPOS then urlEnd else question;
    assert at <= pathEnd <= |url|;
    if pathEnd == at {
      assert r.path == "/";
    } else {
      assert r.path == url[at..pathEnd] && r.path[0] == url[at];
    }
  }

  /** A path without its '/' does not come back. */
  lemma BadPath(url: string, info: UrlInfo, order: seq<Pair>, at: nat)
    requires Layout(url, info, order, at) && at <= EndOf(url) && multiset(order) == info.query
    requires ':' !in info.host && '/' !in info.host && '#' !in info.host
    requires info.path == "" || info.path[0] != '/'
    ensures ParseHost(url, EndOf(url), at, info.protocol) != Some(info)
  {
    hide FindChar, Decimal, Joined, Stoi, ParsePath, EndOf;
    HostEnds(url, info, order, at);
    EndLies(url, info, order, at);
    var urlEnd, slash := EndOf(url), FindChar(url, '/', at);
    var hostEnd := if slash == NPOS then urlEnd else slash;
    var host, port := url[at..at + |info.host|], Stoi(url[at + |info.host| + 1..hostEnd]);
    if port.Some? {
      var r := ParsePath(url, urlEnd, hostEnd, info.protocol, host, port.value % 0x1_0000);
      assert ParseHost(url, urlEnd, at, info.protocol) == Some(r);
      if hostEnd > urlEnd {
        TooLateForPath(url, urlEnd, hostEnd, info.protocol, host, port.value % 0x1_0000);
      } else {
        ParsedPathStarts(url, urlEnd, hostEnd, info.protocol, host, port.value % 0x1_0000);
        if r == info {
          FragmentPath(url, info, order, at, FindChar(url, '?', urlEnd));
          assert false;
        }
      }
    }
  }

  lemma TooLateForPath(url: string, urlEnd: nat, at: nat, protocol: Protocol, host: string, port: nat)
    requires |url| < NPOS && IsEnd(url, urlEnd) && urlEnd < at <= |url|
    ensures ParsePath(url, urlEnd, at, protocol, host, port) == UrlInfo(protocol, host, port, "/", multiset{})
  {
  }

  /** A path that starts with '#' is not what is found between its '#' and a '?'. */
  lemma FragmentPath(url: string, info: UrlInfo, order: seq<Pair>, at: nat, question: nat)
    requires Layout(url, info, order, at) && '#' !in info.host && at <= EndOf(url)
    requires info.path != "" && info.path[0] == '#' && order == []
    requires EndOf(url) <= question < |url|
    ensures info.path != url[EndOf(url)..question]
  {
    hide FindChar, Decimal, Joined;
    LayoutHas(url, info, order, at);
    EndLies(url, info, order, at);
    assert url[at + |info.host| + 1 + |Decimal(info.port)|] == '#';
  }

  /** The first '?' behind the path's start, and where the text ends. */
  lemma {:induction false} PathEnds(url: string, info: UrlInfo, order: seq<Pair>, at: nat)
    requires Layout(url, info, order, at) && at <= EndOf(url) && '#' !in info.host
    ensures var pathAt := at + |info.host| + 1 + |Decimal(info.port)|;
            var queryAt := pathAt + |info.path|;
            && pathAt <= EndOf(url)
            && ('?' in info.path ==> FindChar(url, '?', pathAt) < queryAt)
            && ('?' !in info.path && order == [] ==> FindChar(url, '?', pathAt) == NPOS)
            && ('?' !in info.path && order != [] ==> FindChar(url, '?', pathAt) == queryAt)
            && ('#' in info.path <==> EndOf(url) < queryAt)
  {
    hide FindChar, Decimal, Joined;
    LayoutHas(url, info, order, at);
    EndLies(url, info, order, at);
    var pathAt := at + |info.host| + 1 + |Decimal(info.port)|;
    var queryAt := pathAt + |info.path|;
    if '?' in info.path {
      var j :| 0 <= j < |info.path| && info.path[j] == '?';
      assert url[pathAt + j] == '?';
    } else if order == [] {
      FoundNowhere(url, '?', pathAt);
    } else {
      FoundAt(url, '?', pathAt, queryAt);
    }
    if '#' in info.path {
      var j :| 0 <= j < |info.path| && info.path[j] == '#';
      assert url[pathAt + j] == '#';
    }
    if EndOf(url) < queryAt {
      assert info.path[EndOf(url) - pathAt] == '#';
    }
  }

  /** What is read from a path that is not empty: up to the first '?', or up to the end without a query. */
  lemma {:induction false} PathReads(url: string, urlEnd: nat, at: nat, protocol: Protocol, host: string, port: nat)
    requires |url| < NPOS && IsEnd(url, urlEnd) && at < urlEnd && url[at] != '?'
    ensures var question, r := FindChar(url, '?', at), ParsePath(url, urlEnd, at, protocol, host, port);
            && (question == NPOS ==> r == UrlInfo(protocol, host, port, url[at..urlEnd], multiset{}))
            && (question != NPOS ==> at < question < |url| && r.path == url[at..question])
            && (urlEnd <= question < NPOS ==> r.query == multiset{})
            && (question < urlEnd ==>
                  r == UrlInfo(protocol, host, port, url[at..question],
                               multiset(ParseQuery(url, urlEnd, question + 1))))
  {
    hide FindChar, ParseQuery;
  }

  lemma PathStartsInside(url: string, info: UrlInfo, order: seq<Pair>, at: nat)
    requires Layout(url, info, order, at) && info.path != "" && info.path[0] == '/'
    requires at + |info.host| + 1 + |Decimal(info.port)| <= EndOf(url)
    ensures var pathAt := at + |info.host| + 1 + |Decimal(info.port)|; pathAt < EndOf(url) && url[pathAt] == '/'
  {
    hide FindChar, Decimal, Joined;
    var pathAt := at + |info.host| + 1 + |Decimal(info.port)|;
    assert url[pathAt] == url[pathAt..pathAt + |info.path|][0];
  }

  lemma {:induction false} LayoutOfPath(url: string, info: UrlInfo, order: seq<Pair>, at: nat)
    requires Layout(url, info, order, at)
    ensures var pathAt := at + |info.host| + 1 + |Decimal(info.port)|;
            var queryAt := pathAt + |info.path|;
            && queryAt <= |url| < NPOS && url[pathAt..queryAt] == info.path
            && (order == [] ==> queryAt == |url|)
            && (order != [] ==> queryAt < |url| && url[queryAt + 1..] == Joined(order))
  {
    hide Decimal, Joined;
  }

  /** Path and query come back if and only if the path has no '?' and no '#' and every pair is clean. */
  lemma PathRoundTripIff(url: string, info: UrlInfo, order: seq<Pair>, at: nat)
    requires Layout(url, info, order, at) && at <= EndOf(url) && '#' !in info.host && multiset(order) == info.query
    requires info.path != "" && info.path[0] == '/'
    ensures var pathAt := at + |info.host| + 1 + |Decimal(info.port)|;
            pathAt <= EndOf(url)
            && (ParsePath(url, EndOf(url), pathAt, info.protocol, info.host, info.port) == info
                <==> '?' !in info.path && '#' !in info.path && forall p | p in info.query :: IsCleanPair(p))
  {
    hide FindChar, Decimal, Joined, EndOf, ParseQuery, ParsePath, IsCleanPair, Layout;
    LayoutOfPath(url, info, order, at);
    PathEnds(url, info, order, at);
    PathStartsInside(url, info, order, at);
    var urlEnd := EndOf(url);
    var pathAt := at + |info.host| + 1 + |Decimal(info.port)|;
    var queryAt := pathAt + |info.path|;
    var r := ParsePath(url, urlEnd, pathAt, info.protocol, info.host, info.port);
    PathReads(url, urlEnd, pathAt, info.protocol, info.host, info.port);
    if '?' in info.path {
      assert |r.path| < |info.path|;
    } else if order == [] {
      assert |r.path| == urlEnd - pathAt && info.query == multiset{};
    } else if urlEnd <= queryAt {
      assert order[0] in info.query;
    } else {
      assert r == info.(query := multiset(ParseQuery(url, urlEnd, queryAt + 1)));
      QueryRoundTripIff(url, order, queryAt + 1);
    }
  }

  /** The main result: whatever the order in which the query is visited, a URL that is printed and parsed
      again comes back unchanged if and only if it is printable. */
  lemma UrlRoundTripIff(info: UrlInfo, order: seq<Pair>)
    requires multiset(order) == info.query && info.port < 0x1_0000 && |Build(info, order)| < NPOS
    ensures Parse(Build(info, order)) == Some(info) <==> IsPrintable(info)
  {
    hide Build, Layout, Parse, ParseHost, ParsePath, EndOf, Decimal, IsCleanPair, FindSeparator, ToProtocol,
      ProtocolText;
    var url, at := Build(info, order), |ProtocolText(info.protocol)| + 3;
    BuildHasLayout(info, order);
    LayoutStarts(url, info, order, at);
    FrontIsPlain(url, info, at);
    if ':' in info.host || '/' in info.host {
      BadHost(url, info, order, at);
    } else if '#' in info.host {
      HashHost(url, info, order, at);
    } else if info.path == "" || info.path[0] != '/' {
      BadPath(url, info, order, at);
    } else {
      GoodHost(url, info, order, at);
      PathRoundTripIff(url, info, order, at);
    }
  }

  lemma LayoutStarts(url: string, info: UrlInfo, order: seq<Pair>, at: nat)
    requires Layout(url, info, order, at)
    ensures at <= |url|
  {
    hide Decimal, Joined;
  }
}
