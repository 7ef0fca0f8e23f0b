/**
  The HiAnime servers provider: the server lists of an episode (`getEpisodeServers`), the
  source descriptor of one server (`getEpisodeSources`) and the MegaCloud extraction
  (`extractFromMegaCloud`). Every HTTP reply is an input: `None` is a request that failed.
*/
module HiAnimeServers {
  import opened Wrappers
  import opened Strings

  /** The message of an error thrown by the HTTP client; its text is the client's own. */
  const RequestError: string := "Request failed"

  const DesktopUserAgent: string := "Mozilla/5.0 (Windows NT 10.0; Win64; x64) AppleWebKit/537.36 (KHTML, like Gecko) Chrome/98.0.4758.102 Safari/537.36"

  const MobileUserAgent: string := "Mozilla/5.0 (Linux; Android 10; K) AppleWebKit/537.36 (KHTML, like Gecko) Chrome/137.0.0.0 Mobile Safari/537.36"

  // ------------------------------------------------------------------
  // Episode ids
  // ------------------------------------------------------------------

  /** The check both entry points make: not empty, not only white space, and holding `?ep=`. */
  predicate ValidEpisodeId(episodeId: string) {
    episodeId != [] && Trim(episodeId) != [] && Includes(episodeId, "?ep=")
  }

  /** `episodeId.split("?ep=")[1]` */
  function EpId(episodeId: string): string
    requires Includes(episodeId, "?ep=")
  {
    SplitAtFirst(episodeId, "?ep=");
    SplitOn(episodeId, "?ep=")[1]
  }

  /** `epId` is the text after the first `?ep=`, up to the next `?ep=` or the end. */
  lemma EpIdBetween(episodeId: string)
    requires Includes(episodeId, "?ep=")
    ensures var rest := episodeId[IndexOf(episodeId, "?ep=") + 4..];
      EpId(episodeId) == if Includes(rest, "?ep=") then rest[..IndexOf(rest, "?ep=")] else rest
  {
    var marker := "?ep=";
    assert |marker| == 4;
    var rest := episodeId[IndexOf(episodeId, marker) + |marker|..];
    var parts := SplitOn(episodeId, marker);
    SplitAtFirst(episodeId, marker);
    assert parts[1..] == SplitOn(rest, marker);
    assert EpId(episodeId) == SplitOn(rest, marker)[0] by {
      assert parts[1] == parts[1..][0];
    }
    if Includes(rest, "?ep=") {
      SplitAtFirst(rest, "?ep=");
    } else {
      SplitNoOccurrence(rest, "?ep=");
    }
  }

  /** An id built as `<anime>?ep=<number>` with digits for the number gives that number back. */
  lemma EpIdOfBuilt(anime: string, number: string)
    requires !Includes(anime, "?ep=") && AllDigits(number)
    ensures Includes(anime + "?ep=" + number, "?ep=")
    ensures EpId(anime + "?ep=" + number) == number
  {
    var id := anime + "?ep=" + number;
    FirstMarkerAt(anime, number);
    NoMarkerInDigits(number);
    assert id[IndexOf(id, "?ep=") + 4..] == number;
    EpIdBetween(id);
  }

  lemma NoMarkerInDigits(number: string)
    requires AllDigits(number)
    ensures !Includes(number, "?ep=")
  {
    forall j | 0 <= j && j + 4 <= |number| ensures !MatchAt(number, "?ep=", j) {
      assert number[j..][..4][0] == number[j];
    }
  }

  /** The first `?ep=` of `<anime>?ep=<number>` is the one after the anime part. */
  lemma FirstMarkerAt(anime: string, number: string)
    requires !Includes(anime, "?ep=")
    ensures IndexOf(anime + "?ep=" + number, "?ep=") == |anime|
  {
    var id := anime + "?ep=" + number;
    assert MatchAt(id, "?ep=", |anime|) by {
      assert id[|anime|..][..4] == "?ep=";
    }
    forall j | 0 <= j && j + 4 <= |anime| ensures !MatchAt(id, "?ep=", j) {
      if MatchAt(id, "?ep=", j) {
        if j + 4 <= |anime| {
          assert anime[j..][..4] == id[j..][..4];
          assert MatchAt(anime, "?ep=", j);
        }
      }
    }
    forall j | 0 <= j < |anime| < j + 4 ensures !MatchAt(id, "?ep=", j) {
      assert id[j..][..4][|anime| - j] == '?';
    }
  }

  // ------------------------------------------------------------------
  // getEpisodeServers
  // ------------------------------------------------------------------

  /** One `.server-item`: the text of its anchor and its `data-server-id` attribute. */
  datatype ServerItem = ServerItem(text: string, dataServerId: Option<string>)

  /** The parts of the servers HTML the provider reads: the notice text and the three server lists. */
  datatype ServerPage = ServerPage(notice: string, sub: seq<ServerItem>, dub: seq<ServerItem>, raw: seq<ServerItem>)

  /** The reply to the servers request. */
  datatype ServerReply = RequestFailed | NoHtml | Html(page: ServerPage)

  /** A server record; a `serverId` of `None` is null. */
  datatype Server = Server(serverName: string, serverId: Option<nat>)

  datatype EpisodeServers = EpisodeServers(sub: seq<Server>, dub: seq<Server>, raw: seq<Server>, episodeId: string, episodeNo: nat)

  /** `Number(attr?.trim()) || null`: a missing attribute, NaN and 0 are all null. */
  function ServerIdOf(attr: Option<string>): (r: Option<nat>)
    ensures r.Some? ==> r.value > 0
    ensures r.Some? <==> attr.Some? && JsNumber(attr.value).Some? && JsNumber(attr.value).value != 0
  {
    match attr
    case None => None
    case Some(s) =>
      match JsNumber(s)
      case None => None
      case Some(n) => if n == 0 then None else Some(n)
  }

  /** `{ serverName: text.toLowerCase().trim(), serverId }` */
  function ServerOf(item: ServerItem): Server {
    Server(Trim(Lower(item.text)), ServerIdOf(item.dataServerId))
  }

  /** A server name is trimmed and lower case, so lowering it again changes nothing. */
  lemma ServerNameNormal(item: ServerItem)
    ensures var name := ServerOf(item).serverName;
      (name == [] || (!IsSpace(name[0]) && !IsSpace(name[|name| - 1])))
      && Lower(name) == name
      && Trim(name) == name
  {
    TrimLower(item.text);
    TrimIdentity(Trim(Lower(item.text)));
  }

  /** The records of one `.each` over a server list, in page order. */
  function Records(items: seq<ServerItem>): (r: seq<Server>)
    ensures |r| == |items|
  {
    seq(|items|, i requires 0 <= i < |items| => ServerOf(items[i]))
  }

  /** `Number(notice.split(" ").pop()) || 0` */
  function EpisodeNo(notice: string): nat {
    var words := SplitOn(notice, " ");
    match JsNumber(words[|words| - 1])
    case None => 0
    case Some(n) => n
  }

  /** A notice ending in a space and a digit string gives that number. */
  lemma EpisodeNoOfNotice(prefix: string, digits: string)
    requires digits != [] && AllDigits(digits)
    ensures EpisodeNo(prefix + " " + digits) == DigitsValue(digits)
  {
    var notice := prefix + " " + digits;
    SplitLastPiece(prefix, digits);
    TrimIdentity(digits);
  }

  /** The last piece of `prefix + " " + last` split on spaces is `last` when `last` holds no space. */
  lemma SplitLastPiece(prefix: string, last: string)
    requires forall i :: 0 <= i < |last| ==> last[i] != ' '
    ensures var words := SplitOn(prefix + " " + last, " ");
      words[|words| - 1] == last
  {
    SplitLastAfter(prefix, ' ', last);
  }

  /** `getEpisodeServers` once the servers request has been answered. */
  function EpisodeServersOf(episodeId: string, reply: ServerReply): Result<EpisodeServers, string> {
    if !ValidEpisodeId(episodeId) then Failure("Invalid anime episode ID")
    else
      match reply
      case RequestFailed => Failure(RequestError)
      case NoHtml => Failure("No server data found")
      case Html(page) =>
        Success(EpisodeServers(Records(page.sub), Records(page.dub), Records(page.raw), episodeId, EpisodeNo(page.notice)))
  }

  /** `getEpisodeServers` as the source runs it: the result object is filled list by list. */
  method GetEpisodeServers(episodeId: string, reply: ServerReply) returns (r: Result<EpisodeServers, string>)
    ensures r == EpisodeServersOf(episodeId, reply)
  {
    if episodeId == [] || Trim(episodeId) == [] || !Includes(episodeId, "?ep=") {
      return Failure("Invalid anime episode ID");
    }
    if reply.RequestFailed? {
      return Failure(RequestError);
    }
    if reply.NoHtml? {
      return Failure("No server data found");
    }
    var page := reply.page;
    var episodeNo := EpisodeNo(page.notice);
    var sub := PushServers(page.sub);
    var dub := PushServers(page.dub);
    var raw := PushServers(page.raw);
    r := Success(EpisodeServers(sub, dub, raw, episodeId, episodeNo));
  }

  /** One `.each` over a server list, pushing a record per item. */
  method PushServers(items: seq<ServerItem>) returns (servers: seq<Server>)
    ensures servers == Records(items)
  {
    servers := [];
    for i := 0 to |items|
      invariant servers == Records(items[..i])
    {
      RecordsSnoc(items, i);
      servers := servers + [ServerOf(items[i])];
    }
    assert items[..|items|] == items;
  }

  lemma RecordsSnoc(items: seq<ServerItem>, i: nat)
    requires i < |items|
    ensures Records(items[..i + 1]) == Records(items[..i]) + [ServerOf(items[i])]
  {
    var left := Records(items[..i + 1]);
    var right := Records(items[..i]) + [ServerOf(items[i])];
    assert |left| == |right|;
    forall k | 0 <= k < |left| ensures left[k] == right[k] {
      if k < i {
        assert items[..i + 1][k] == items[..i][k];
      } else {
        assert items[..i + 1][k] == items[i];
      }
    }
  }

  /** Every record of a successful reply comes from the item at the same place, with a positive id or none. */
  lemma EpisodeServersRecords(episodeId: string, reply: ServerReply)
    ensures EpisodeServersOf(episodeId, reply).Success? <==> ValidEpisodeId(episodeId) && reply.Html?
    ensures EpisodeServersOf(episodeId, reply).Success? ==>
      var r := EpisodeServersOf(episodeId, reply).value;
      r.episodeId == episodeId
      && |r.sub| == |reply.page.sub| && |r.dub| == |reply.page.dub| && |r.raw| == |reply.page.raw|
      && (forall i :: 0 <= i < |r.sub| ==> r.sub[i] == ServerOf(reply.page.sub[i]))
      && (forall i :: 0 <= i < |r.dub| ==> r.dub[i] == ServerOf(reply.page.dub[i]))
      && (forall i :: 0 <= i < |r.raw| ==> r.raw[i] == ServerOf(reply.page.raw[i]))
  {
  }

  // ------------------------------------------------------------------
  // getEpisodeSources
  // ------------------------------------------------------------------

  /** One source of a descriptor; a `url` of `None` is undefined. */
  datatype Source = Source(url: Option<string>, isM3U8: bool)

  /**
    A source descriptor: `Direct` for a host other than MegaCloud (empty subtitles), `Extracted`
    for MegaCloud (empty tracks, intro and outro at 0).
  */
  datatype StreamSources =
    | Direct(referer: Option<string>, userAgent: string, sources: seq<Source>)
    | Extracted(origin: string, userAgent: string, sources: seq<Source>)

  /** `servers[category] || []` for the three lists. */
  function ServerList(servers: EpisodeServers, category: string): seq<Server> {
    if category == "sub" then servers.sub
    else if category == "dub" then servers.dub
    else if category == "raw" then servers.raw
    else []
  }

  /** `serverList.find(s => s.serverName.toLowerCase() === serverName.toLowerCase())` */
  function FindServer(list: seq<Server>, serverName: string): (r: Option<Server>)
    ensures r.Some? ==> r.value in list && Lower(r.value.serverName) == Lower(serverName)
    ensures r.None? <==> forall s :: s in list ==> Lower(s.serverName) != Lower(serverName)
  {
    if list == [] then None
    else if Lower(list[0].serverName) == Lower(serverName) then Some(list[0])
    else FindServer(list[1..], serverName)
  }

  /** The server found is the first one in the list with the requested name. */
  lemma {:induction false} FindServerFirst(list: seq<Server>, serverName: string)
    requires FindServer(list, serverName).Some?
    ensures exists i :: (0 <= i < |list| && list[i] == FindServer(list, serverName).value
                         && forall j :: 0 <= j < i ==> Lower(list[j].serverName) != Lower(serverName))
  {
    if Lower(list[0].serverName) != Lower(serverName) {
      FindServerFirst(list[1..], serverName);
      var i :| 0 <= i < |list[1..]| && list[1..][i] == FindServer(list[1..], serverName).value
        && forall j :: 0 <= j < i ==> Lower(list[1..][j].serverName) != Lower(serverName);
      assert list[i + 1] == list[1..][i];
      forall j | 0 <= j < i + 1 ensures Lower(list[j].serverName) != Lower(serverName) {
        if j > 0 {
          assert list[j] == list[1..][j - 1];
        }
      }
    } else {
      assert list[0] == FindServer(list, serverName).value;
    }
  }

  /** `/megacloud\./i.test(link)` */
  predicate IsMegaCloud(link: string) {
    Includes(Lower(link), "megacloud.")
  }

  /** The descriptor for a host other than MegaCloud: the link is the only source and the referer. */
  function DirectSources(link: Option<string>): (r: StreamSources)
    ensures r.Direct? && r.referer == link && |r.sources| == 1 && r.sources[0].url == link
    ensures r.sources[0].isM3U8 <==> link.Some? && Includes(link.value, ".m3u8")
  {
    Direct(link, DesktopUserAgent, [Source(link, link.Some? && Includes(link.value, ".m3u8"))])
  }

  /**
    `getEpisodeSources(episodeId, serverName, category)`: `None` for a name or a category is an
    argument left out, which takes the default. `linkReply` is the sources request's `data?.link`,
    and `mega` the replies the MegaCloud extraction receives.
  */
  function EpisodeSources(episodeId: string, serverName: Option<string>, category: Option<string>,
                          serverReply: ServerReply, linkReply: Option<Option<string>>, mega: MegaCloudReplies): Result<StreamSources, string>
  {
    var name := serverName.GetOr("vidstreaming");
    var cat := category.GetOr("sub");
    if !ValidEpisodeId(episodeId) then Failure("Invalid anime episode ID")
    else
      match EpisodeServersOf(episodeId, serverReply)
      case Failure(e) => Failure(e)
      case Success(servers) =>
        match FindServer(ServerList(servers, cat), name)
        case None => Failure("Server '" + name + "' not found for category '" + cat + "'")
        case Some(_) =>
          match linkReply
          case None => Failure(RequestError)
          case Some(link) =>
            if link.Some? && link.value != [] && IsMegaCloud(link.value) then ExtractFromMegaCloud(link.value, mega)
            else Success(DirectSources(link))
  }

  /**
    A descriptor is only returned for a valid id whose server list in the category holds the
    requested name; for a non-MegaCloud link it is the direct descriptor of that link.
  */
  lemma EpisodeSourcesSuccess(episodeId: string, serverName: Option<string>, category: Option<string>,
                              serverReply: ServerReply, linkReply: Option<Option<string>>, mega: MegaCloudReplies)
    requires EpisodeSources(episodeId, serverName, category, serverReply, linkReply, mega).Success?
    ensures ValidEpisodeId(episodeId) && serverReply.Html? && linkReply.Some?
    ensures var cat := category.GetOr("sub");
      cat == "sub" || cat == "dub" || cat == "raw"
    ensures var servers := EpisodeServersOf(episodeId, serverReply).value;
      exists s :: s in ServerList(servers, category.GetOr("sub")) && Lower(s.serverName) == Lower(serverName.GetOr("vidstreaming"))
    ensures var link := linkReply.value;
      !(link.Some? && link.value != [] && IsMegaCloud(link.value)) ==>
        EpisodeSources(episodeId, serverName, category, serverReply, linkReply, mega) == Success(DirectSources(link))
  {
    var servers := EpisodeServersOf(episodeId, serverReply).value;
    var found := FindServer(ServerList(servers, category.GetOr("sub")), serverName.GetOr("vidstreaming"));
    assert found.Some?;
  }

  // ------------------------------------------------------------------
  // extractFromMegaCloud
  // ------------------------------------------------------------------

  /** The MegaCloud embed page: its HTML text and the `data-id` of `#megacloud-player`. */
  datatype EmbedPage = EmbedPage(html: string, dataId: Option<string>)

  /**
    The `sources` field of the getSources reply: absent or falsy; an array (the `file` of its first
    element, empty when there is none, and the array as `String(...)` gives it); or a packed string.
  */
  datatype SourcesField = Absent | Listed(firstFile: string, asText: string) | Packed(data: string)

  /**
    The replies of the extraction's requests: the embed page, the key file's `mega` entry (empty
    when missing), the getSources reply, and the remote decoder applied to (payload, nonce, secret).
  */
  datatype MegaCloudReplies = MegaCloudReplies(
    embed: Option<EmbedPage>, secret: Option<string>, sources: Option<SourcesField>,
    decode: (string, string, string) -> Option<string>)

  /** The index of the first `/`, `?` or `#` of `s`, or `|s|`. */
  function HostEnd(s: string): (k: nat)
    ensures k <= |s|
    ensures forall j :: 0 <= j < k ==> s[j] != '/' && s[j] != '?' && s[j] != '#'
    ensures k < |s| ==> s[k] == '/' || s[k] == '?' || s[k] == '#'
  {
    if s == [] || s[0] == '/' || s[0] == '?' || s[0] == '#' then 0 else 1 + HostEnd(s[1..])
  }

  /**
    `${protocol}//${host}` of `new URL(url)` for a URL of the form `scheme://host...`; `None`
    where the URL does not have that form.
  */
  function Origin(url: string): (r: Option<string>)
    ensures r.Some? ==> IsPrefix(r.value, url) && Includes(r.value, "://")
  {
    var c := IndexOf(url, "://");
    if c <= 0 then None
    else
      var rest := url[c + 3..];
      var h := HostEnd(rest);
      if h == 0 then None
      else
        assert url[..c + 3 + h] == url[..c + 3] + rest[..h];
        assert MatchAt(url[..c + 3 + h], "://", c) by {
          assert url[..c + 3 + h][c..][..3] == url[c..][..3];
        }
        Some(url[..c + 3 + h])
  }

  /** An origin is a scheme, `://` and a host holding no `/`, `?` or `#`, and it begins the URL. */
  lemma OriginShape(url: string)
    requires Origin(url).Some?
    ensures var o := Origin(url).value;
      exists c :: 0 < c && c + 3 < |o| && MatchAt(o, "://", c)
        && forall j :: c + 3 <= j < |o| ==> o[j] != '/' && o[j] != '?' && o[j] != '#'
  {
    var c := IndexOf(url, "://");
    var rest := url[c + 3..];
    var h := HostEnd(rest);
    var o := url[..c + 3 + h];
    assert MatchAt(o, "://", c) by {
      assert o[c..][..3] == url[c..][..3];
    }
    forall j | c + 3 <= j < |o| ensures o[j] != '/' && o[j] != '?' && o[j] != '#' {
      assert o[j] == rest[j - c - 3];
    }
  }

  /** A standalone run of `n` characters of `[a-zA-Z0-9]` at `i`: `\b[a-zA-Z0-9]{n}\b`. */
  predicate Token(s: string, i: nat, n: nat) {
    n > 0 && i + n <= |s|
    && (i == 0 || !IsWordChar(s[i - 1]))
    && (forall j :: i <= j < i + n ==> IsAlnum(s[j]))
    && (i + n == |s| || !IsWordChar(s[i + n]))
  }

  /** The first position at or after `from` where a token of length `n` stands. */
  function FirstToken(s: string, n: nat, from: nat): (r: Option<nat>)
    ensures r.Some? ==> from <= r.value && Token(s, r.value, n)
    ensures forall j :: from <= j && (r.None? || j < r.value) ==> !Token(s, j, n)
    decreases |s| - from
  {
    if from + n > |s| || n == 0 then None
    else if Token(s, from, n) then Some(from)
    else FirstToken(s, n, from + 1)
  }

  /**
    The nonce: the first standalone 48-character token; otherwise the first three standalone
    16-character tokens in order, concatenated; `None` when neither is there.
  */
  function Nonce(html: string): Option<string> {
    match FirstToken(html, 48, 0)
    case Some(i) => Some(html[i..i + 48])
    case None =>
      match FirstToken(html, 16, 0)
      case None => None
      case Some(a) =>
        match FirstToken(html, 16, a + 16)
        case None => None
        case Some(b) =>
          match FirstToken(html, 16, b + 16)
          case None => None
          case Some(c) => Some(html[a..a + 16] + html[b..b + 16] + html[c..c + 16])
  }

  /** A nonce is always 48 characters of `[a-zA-Z0-9]`. */
  lemma NonceShape(html: string)
    requires Nonce(html).Some?
    ensures |Nonce(html).value| == 48 && AllAlnum(Nonce(html).value)
  {
    match FirstToken(html, 48, 0)
    case Some(i) =>
      TokenAlnum(html, i, 48);
    case None =>
      var a := FirstToken(html, 16, 0).value;
      var b := FirstToken(html, 16, a + 16).value;
      var c := FirstToken(html, 16, b + 16).value;
      TokenAlnum(html, a, 16);
      TokenAlnum(html, b, 16);
      TokenAlnum(html, c, 16);
      AlnumConcat(html[a..a + 16], html[b..b + 16]);
      AlnumConcat(html[a..a + 16] + html[b..b + 16], html[c..c + 16]);
  }

  /** The characters of a token are all `[a-zA-Z0-9]`. */
  lemma TokenAlnum(s: string, i: nat, n: nat)
    requires Token(s, i, n)
    ensures AllAlnum(s[i..i + n])
  {
    var t := s[i..i + n];
    forall j | 0 <= j < n ensures IsAlnum(t[j]) {
      assert t[j] == s[i + j];
    }
  }

  lemma AlnumConcat(x: string, y: string)
    requires AllAlnum(x) && AllAlnum(y)
    ensures AllAlnum(x + y)
  {
    var xy := x + y;
    forall j | 0 <= j < |xy| ensures IsAlnum(xy[j]) {
      if j >= |x| {
        assert xy[j] == y[j - |x|];
      }
    }
  }

  /** A 48-character token wins: the nonce is then the first one. */
  lemma NonceLongTokenWins(html: string, k: nat)
    requires Token(html, k, 48)
    ensures exists i: nat :: (i <= k && Token(html, i, 48) && Nonce(html) == Some(html[i..i + 48])
                              && forall j: nat :: j < i ==> !Token(html, j, 48))
  {
    var i := FirstToken(html, 48, 0).value;
  }

  /** Without a 48-character token, the nonce is missing exactly when there are no three 16-character tokens in order. */
  lemma NonceShortTokens(html: string)
    requires forall k :: !Token(html, k, 48)
    ensures Nonce(html).None? <==>
      !exists a, b, c :: a + 16 <= b && b + 16 <= c && Token(html, a, 16) && Token(html, b, 16) && Token(html, c, 16)
  {
    if exists a, b, c :: a + 16 <= b && b + 16 <= c && Token(html, a, 16) && Token(html, b, 16) && Token(html, c, 16) {
      var a, b, c :| a + 16 <= b && b + 16 <= c && Token(html, a, 16) && Token(html, b, 16) && Token(html, c, 16);
      var a' := FirstToken(html, 16, 0).value;
      var b' := FirstToken(html, 16, a' + 16).value;
      var c' := FirstToken(html, 16, b' + 16).value;
    }
    assert FirstToken(html, 48, 0).None?;
  }

  /** A line terminator, which `.` in a regular expression does not match. */
  predicate IsLineTerminator(c: char) {
    c == '\n' || c == '\r' || c == '\U{2028}' || c == '\U{2029}'
  }

  /** The capture of `"file":"(.*?)"` when the literal `"file":"` stands at `p`. */
  function FileCapture(text: string, p: nat): (r: Option<string>)
    requires p + 8 <= |text|
    ensures r.Some? ==> p + 8 + |r.value| < |text| && text[p + 8..p + 8 + |r.value|] == r.value && text[p + 8 + |r.value|] == '"'
    ensures r.Some? ==> forall j :: 0 <= j < |r.value| ==> r.value[j] != '"' && !IsLineTerminator(r.value[j])
  {
    CaptureFrom(text, p + 8, p + 8)
  }

  /** The characters from `start` up to the first `"` at or after `q`, unless a line terminator comes first. */
  function CaptureFrom(text: string, start: nat, q: nat): (r: Option<string>)
    requires start <= q <= |text|
    requires forall j :: start <= j < q ==> text[j] != '"' && !IsLineTerminator(text[j])
    ensures r.Some? ==> start + |r.value| < |text| && text[start..start + |r.value|] == r.value && text[start + |r.value|] == '"'
    ensures r.Some? ==> forall j :: 0 <= j < |r.value| ==> r.value[j] != '"' && !IsLineTerminator(r.value[j])
    decreases |text| - q
  {
    if q == |text| || IsLineTerminator(text[q]) then None
    else if text[q] == '"' then
      assert forall j :: 0 <= j < q - start ==> text[start..q][j] == text[start + j];
      Some(text[start..q])
    else CaptureFrom(text, start, q + 1)
  }

  /**
    `/"file":"(.*?)"/` matches at `q`: the literal stands there and a closing quote follows
    before any line terminator.
  */
  predicate FileMatch(text: string, q: int) {
    0 <= q && q + 8 <= |text| && MatchAt(text, "\"file\":\"", q) && FileCapture(text, q).Some?
  }

  /**
    `/"file":"(.*?)"/.exec(text)` from position `p` on: None exactly when nothing matches,
    otherwise the capture of the leftmost match.
  */
  function FindFile(text: string, p: nat): (r: Option<string>)
    ensures r.Some? <==> exists q :: p <= q && FileMatch(text, q)
    ensures r.Some? ==>
      exists q :: p <= q && FileMatch(text, q) && FileCapture(text, q) == r
        && forall q' :: p <= q' < q ==> !FileMatch(text, q')
    decreases |text| - p
  {
    if p + 8 > |text| then None
    else if FileMatch(text, p) then FileCapture(text, p)
    else FindFile(text, p + 1)
  }

  /** `s.replace(/\\\//g, '/')`: every `\/` becomes `/`, scanning left to right. */
  function Unescape(s: string): (r: string)
    ensures |r| <= |s|
    ensures r == [] <==> s == []
  {
    if |s| >= 2 && s[0] == '\\' && s[1] == '/' then "/" + Unescape(s[2..])
    else if s == [] then []
    else [s[0]] + Unescape(s[1..])
  }

  /** JSON's optional escape of `/` as `\/`. */
  function Escape(s: string): (r: string)
    ensures |r| >= |s|
  {
    if s == [] then []
    else (if s[0] == '/' then "\\/" else [s[0]]) + Escape(s[1..])
  }

  /** Unescaping undoes the escape of every `/`. */
  lemma {:induction false} UnescapeEscape(s: string)
    ensures Unescape(Escape(s)) == s
  {
    if s != [] {
      var e := Escape(s);
      UnescapeEscape(s[1..]);
      if s[0] == '/' {
        assert e == "\\/" + Escape(s[1..]);
        assert e[2..] == Escape(s[1..]);
      } else {
        assert e == [s[0]] + Escape(s[1..]);
        assert e[1..] == Escape(s[1..]);
        if |e| >= 2 && e[0] == '\\' && e[1] == '/' {
          assert s[0] == '\\';
          EscapeHead(s[1..]);
        }
      }
    }
  }

  /** An escaped string never starts with a bare `/`. */
  lemma EscapeHead(s: string)
    ensures Escape(s) == [] || Escape(s)[0] != '/'
  {
  }

  /** A string without `\` is left as it is. */
  lemma {:induction false} UnescapePlain(s: string)
    requires forall i :: 0 <= i < |s| ==> s[i] != '\\'
    ensures Unescape(s) == s
  {
    if s != [] {
      UnescapePlain(s[1..]);
      assert s == [s[0]] + s[1..];
    }
  }

  /** `/\.m3u8($|\?)/.test(url)`, tried at each position in turn. */
  predicate IsM3U8Url(url: string) {
    if |url| < 5 then false
    else (IsPrefix(".m3u8", url) && (|url| == 5 || url[5] == '?')) || IsM3U8Url(url[1..])
  }

  /** `.m3u8` stands at `i`, followed by the end or by `?`. */
  ghost predicate M3U8At(url: string, i: int) {
    MatchAt(url, ".m3u8", i) && (i + 5 == |url| || (i + 5 < |url| && url[i + 5] == '?'))
  }

  /** The test holds exactly when `.m3u8` stands somewhere before the end or before a `?`. */
  lemma {:induction false} IsM3U8UrlIff(url: string)
    ensures IsM3U8Url(url) <==> exists i :: M3U8At(url, i)
  {
    if |url| >= 5 {
      IsM3U8UrlIff(url[1..]);
      assert url[0..] == url;
      forall i | 0 <= i ensures M3U8At(url[1..], i) <==> M3U8At(url, i + 1) {
        MatchAtShift(url, ".m3u8", i);
      }
      if IsM3U8Url(url[1..]) {
        var j :| M3U8At(url[1..], j);
        assert M3U8At(url, j + 1);
      }
      if IsPrefix(".m3u8", url) && (|url| == 5 || url[5] == '?') {
        assert M3U8At(url, 0);
      }
      forall i | M3U8At(url, i) && i > 0 ensures M3U8At(url[1..], i - 1) {
        MatchAtShift(url, ".m3u8", i - 1);
      }
    } else {
      forall i ensures !M3U8At(url, i) {
        MatchAtLength(url, ".m3u8", i);
      }
    }
  }

  /** The file URL: the first array entry's `file` when it has one; otherwise the decoded text's `file`, unescaped. */
  function FileUrl(field: SourcesField, nonce: string, secret: string, decode: (string, string, string) -> Option<string>): Result<Option<string>, string> {
    match field
    case Listed(file, asText) =>
      if file != [] then Success(Some(file)) else DecodedFile(asText, nonce, secret, decode)
    case Packed(data) =>
      if data != [] then DecodedFile(data, nonce, secret, decode) else Success(None)
    case Absent => Success(None)
  }

  function DecodedFile(payload: string, nonce: string, secret: string, decode: (string, string, string) -> Option<string>): Result<Option<string>, string> {
    match decode(payload, nonce, secret)
    case None => Failure(RequestError)
    case Some(text) =>
      match FindFile(text, 0)
      case None => Success(None)
      case Some(f) => Success(Some(Unescape(f)))
  }

  /** `extractFromMegaCloud(embedUrl)` with the replies of its requests. */
  function ExtractFromMegaCloud(embedUrl: string, mega: MegaCloudReplies): Result<StreamSources, string> {
    match Origin(embedUrl)
    case None => Failure("Invalid URL")
    case Some(origin) =>
      match mega.embed
      case None => Failure(RequestError)
      case Some(page) =>
        if page.dataId.None? || page.dataId.value == [] then Failure("MegaCloud: missing file id (possibly expired URL)")
        else
          match Nonce(page.html)
          case None => Failure("MegaCloud: failed to capture nonce")
          case Some(nonce) =>
            if mega.secret.None? || mega.sources.None? then Failure(RequestError)
            else
              match FileUrl(mega.sources.value, nonce, mega.secret.value, mega.decode)
              case Failure(e) => Failure(e)
              case Success(file) =>
                if file.None? || file.value == [] then Failure("MegaCloud: failed to extract file URL")
                else Success(Extracted(origin, MobileUserAgent, [Source(Some(file.value), IsM3U8Url(file.value))]))
  }

  /**
    A MegaCloud descriptor has exactly one source, a non-empty URL, `isM3U8` by the `.m3u8`
    test, the embed URL's origin as referer, and was only produced after a file id and a
    48-character nonce were found.
  */
  lemma ExtractSuccess(embedUrl: string, mega: MegaCloudReplies)
    requires ExtractFromMegaCloud(embedUrl, mega).Success?
    ensures var r := ExtractFromMegaCloud(embedUrl, mega).value;
      r.Extracted? && Origin(embedUrl) == Some(r.origin) && IsPrefix(r.origin, embedUrl)
      && r.userAgent == MobileUserAgent
      && |r.sources| == 1 && r.sources[0].url.Some? && r.sources[0].url.value != []
      && (r.sources[0].isM3U8 <==> exists i :: M3U8At(r.sources[0].url.value, i))
    ensures mega.embed.Some? && mega.embed.value.dataId.Some? && mega.embed.value.dataId.value != []
    ensures Nonce(mega.embed.value.html).Some? && |Nonce(mega.embed.value.html).value| == 48
  {
    NonceShape(mega.embed.value.html);
    IsM3U8UrlIff(ExtractFromMegaCloud(embedUrl, mega).value.sources[0].url.value);
  }

  /** A file given in the sources array is used as it is, with no decoding. */
  lemma ExtractListedFile(embedUrl: string, mega: MegaCloudReplies)
    requires ExtractFromMegaCloud(embedUrl, mega).Success?
    requires mega.sources.Some? && mega.sources.value.Listed? && mega.sources.value.firstFile != []
    ensures ExtractFromMegaCloud(embedUrl, mega).value.sources[0].url == Some(mega.sources.value.firstFile)
  {
  }
}
