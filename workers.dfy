/**
 * The background workers of the current package: the proxy settings, the
 * aria2 JSON-RPC `aria2.addUri` request and its confirmation, the scraper
 * that turns listing pages into table rows, and the chunked direct download
 * with its cooperative cancel flag. Network replies, parsed posts and the
 * moment another thread raises a flag are inputs.
 */
module Workers {
  import opened Wrappers
  import Strings
  import Json
  import FormEncoding

  // ---------------------------------------------------------------- proxy

  const SocksProxy: string := "socks5://127.0.0.1:1080"

  /** `ShadowSocks.proxy()`: both schemes go through the local SOCKS proxy when it runs, otherwise no proxy. */
  function Proxy(running: bool): (r: map<string, string>)
    ensures running ==> r.Keys == {"http", "https"}
    ensures !running ==> r == map[]
    ensures forall scheme :: scheme in r ==> r[scheme] == SocksProxy
  {
    if running then map["http" := SocksProxy, "https" := SocksProxy] else map[]
  }

  /** The proxy `requests` uses for a URL scheme: the entry of the `proxies` dict, or a direct connection. */
  function ProxyFor(proxies: map<string, string>, scheme: string): Option<string>
  {
    if scheme in proxies then Some(proxies[scheme]) else None
  }

  /** Every `http` and `https` request of a worker goes through the SOCKS proxy exactly when ShadowSocks runs, and is direct otherwise. */
  lemma ProxyRoutes(running: bool, scheme: string)
    requires scheme == "http" || scheme == "https"
    ensures ProxyFor(Proxy(running), scheme) == if running then Some(SocksProxy) else None
  {
  }

  // ---------------------------------------------------------------- aria2

  /** The `aria2_rpc_*` settings the thread reads. */
  datatype RpcSettings = RpcSettings(host: string, port: string, secret: string, username: string, password: string)

  /** The user and password sent: username and password when both are set, else `token` and the secret, else nothing. */
  function Login(s: RpcSettings): (string, string)
  {
    if |s.username| > 0 && |s.password| > 0 then (s.username, s.password)
    else if |s.secret| > 0 then ("token", s.secret)
    else ("", "")
  }

  /** The first parameter of `aria2.addUri`: `'%s:%s' % (user, passwd)`. */
  function Credential(s: RpcSettings): string
  {
    Login(s).0 + ":" + Login(s).1
  }

  /** The three cases of the credential rule. */
  lemma CredentialRule(s: RpcSettings)
    ensures |s.username| > 0 && |s.password| > 0 ==> Credential(s) == s.username + ":" + s.password
    ensures !(|s.username| > 0 && |s.password| > 0) && |s.secret| > 0 ==> Credential(s) == "token:" + s.secret
    ensures !(|s.username| > 0 && |s.password| > 0) && |s.secret| == 0 ==> Credential(s) == ":"
  {
  }

  /** How the server reads a credential: the user before its first `:`, the password after it. */
  function SplitCredential(c: string): (string, string)
  {
    var i := Strings.FirstOf(c, {':'});
    if i < |c| then (c[..i], c[i + 1..]) else (c, "")
  }

  /** A user name without a colon, as all three cases produce for a colon-free username, is read back with its password. */
  lemma CredentialRoundTrip(s: RpcSettings)
    requires ':' !in Login(s).0
    ensures SplitCredential(Credential(s)) == Login(s)
  {
    var (u, p) := Login(s);
    Strings.FirstOfAfter(u, ":" + p, {':'});
    assert Strings.FirstOf(":" + p, {':'}) == 0;
    var c := Credential(s);
    assert c == u + (":" + p);
    assert c[..|u|] == u;
    assert c[|u| + 1..] == p;
  }

  const RpcPath: string := "/jsonrpc"

  /** `'%s:%s/jsonrpc' % (host, port)`. */
  function Endpoint(s: RpcSettings): string
  {
    s.host + ":" + s.port + RpcPath
  }

  /** The request `add_uri` sends: the endpoint, the headers and the body. */
  datatype RpcRequest = RpcRequest(url: string, headers: seq<(string, string)>, body: seq<byte>)

  /** `Request(aria2_endpoint, headers=headers, data=payload)`. */
  function AddUriRequest(s: RpcSettings, link: string): RpcRequest
  {
    RpcRequest(Endpoint(s), [("Content-Type", "application/json")], PayloadBytes(s, link))
  }

  /**
   * The request goes to the configured host and port: the URL ends in
   * `/jsonrpc`, its last `:` follows the host, and the port lies between
   * that `:` and `/jsonrpc`, when the port holds neither `:` nor `/`.
   */
  lemma AddUriRequestParts(s: RpcSettings, link: string)
    requires ':' !in s.port && '/' !in s.port
    ensures var r := AddUriRequest(s, link);
            var u := r.url;
            |u| == |s.host| + 1 + |s.port| + |RpcPath|
            && u[..|s.host|] == s.host && u[|u| - |RpcPath|..] == RpcPath
            && Strings.RFind(u, ':') == |s.host|
            && u[|s.host| + 1..|u| - |RpcPath|] == s.port
            && r.headers == [("Content-Type", "application/json")] && r.body == PayloadBytes(s, link)
  {
    var u := Endpoint(s);
    assert u[|s.host|] == ':';
    forall k | |s.host| < k < |u| ensures u[k] != ':' {
      if k <= |s.host| + |s.port| {
        assert u[k] == s.port[k - |s.host| - 1];
      } else {
        assert u[k] == RpcPath[k - |s.host| - 1 - |s.port|];
      }
    }
    assert u[|s.host| + 1..|u| - |RpcPath|] == s.port;
  }

  // The fixed texts of the request.
  const JsonRpcKey: string := "jsonrpc"
  const IdKey: string := "id"
  const MethodKey: string := "method"
  const ParamsKey: string := "params"
  const Version: string := "2.0"
  const AddUri: string := "aria2.addUri"

  /** The request object, members in the order written. */
  function Payload(s: RpcSettings, link: string): Json.Value
  {
    Json.JObj([(JsonRpcKey, Json.JStr(Version)), (IdKey, Json.JInt(1)), (MethodKey, Json.JStr(AddUri)),
               (ParamsKey, Json.JArr([Json.JStr(Credential(s)), Json.JArr([Json.JStr(link)])]))])
  }

  /** The request body: `json.dumps(payload).encode('utf-8')`. */
  function PayloadBytes(s: RpcSettings, link: string): seq<byte>
  {
    FormEncoding.Utf8(Json.Dumps(Payload(s, link)))
  }

  lemma {:induction false} EscapePlain(t: string)
    requires forall k :: 0 <= k < |t| ==> Json.Plain(t[k])
    ensures Json.Escape(t) == t
    decreases |t|
  {
    if |t| > 0 {
      EscapePlain(t[1..]);
      EscapeCharPlain(t[0]);
      assert [t[0]] + t[1..] == t;
    }
  }

  lemma EscapeCharPlain(c: char)
    requires Json.Plain(c)
    ensures Json.EscapeChar(c) == [c]
  {
  }

  /** The fixed texts need no escaping. */
  lemma FixedTextsPlain()
    ensures Json.Escape(JsonRpcKey) == JsonRpcKey && Json.Escape(IdKey) == IdKey
    ensures Json.Escape(MethodKey) == MethodKey && Json.Escape(ParamsKey) == ParamsKey
    ensures Json.Escape(Version) == Version && Json.Escape(AddUri) == AddUri
  {
    JsonRpcKeyPlain();
    IdKeyPlain();
    MethodKeyPlain();
    ParamsKeyPlain();
    VersionPlain();
    AddUriPlain();
  }

  lemma JsonRpcKeyPlain()
    ensures Json.Escape(JsonRpcKey) == JsonRpcKey
  {
    EscapePlain(JsonRpcKey);
  }

  lemma IdKeyPlain()
    ensures Json.Escape(IdKey) == IdKey
  {
    EscapePlain(IdKey);
  }

  lemma MethodKeyPlain()
    ensures Json.Escape(MethodKey) == MethodKey
  {
    EscapePlain(MethodKey);
  }

  lemma ParamsKeyPlain()
    ensures Json.Escape(ParamsKey) == ParamsKey
  {
    EscapePlain(ParamsKey);
  }

  lemma VersionPlain()
    ensures Json.Escape(Version) == Version
  {
    EscapePlain(Version);
  }

  lemma AddUriPlain()
    ensures Json.Escape(AddUri) == AddUri
  {
    EscapePlain(AddUri);
  }

  /** A JSON string literal around already escaped text. */
  function Quoted(t: string): string
  {
    "\"" + t + "\""
  }

  /** One object member as `json.dumps` separates it: `"key": value`. */
  function Member(key: string, text: string): string
  {
    Quoted(key) + ": " + text
  }

  lemma DumpsOne(a: Json.Value)
    ensures Json.Dumps(Json.JArr([a])) == "[" + Json.Dumps(a) + "]"
  {
    var v := Json.JArr([a]);
    assert Json.DumpsItems(v, [a]) == Json.Dumps(a);
  }

  lemma DumpsTwo(a: Json.Value, b: Json.Value)
    ensures Json.Dumps(Json.JArr([a, b])) == "[" + Json.Dumps(a) + ", " + Json.Dumps(b) + "]"
  {
    var v := Json.JArr([a, b]);
    var da, db := Json.Dumps(a), Json.Dumps(b);
    assert [a, b][1..] == [b];
    assert Json.DumpsItems(v, [b]) == db by {
      assert Json.DumpsItems(v, [b]) == db + "";
    }
    assert Json.DumpsItems(v, [a, b]) == da + (", " + db);
    Wrappers.ConcatAssoc("[" + da, ", ", db);
    Wrappers.ConcatAssoc("[", da, ", " + db);
  }

  lemma DumpsNextMember(parent: Json.Value, members: seq<(string, Json.Value)>)
    requires |members| > 1
    requires forall k :: 0 <= k < |members| ==> members[k].1 < parent
    ensures Json.DumpsMembers(parent, members) ==
            Member(Json.Escape(members[0].0), Json.Dumps(members[0].1)) + ", " + Json.DumpsMembers(parent, members[1..])
  {
  }

  lemma DumpsLastMember(parent: Json.Value, key: string, value: Json.Value)
    requires value < parent
    ensures Json.DumpsMembers(parent, [(key, value)]) == Member(Json.Escape(key), Json.Dumps(value))
  {
  }

  /** The text of the `params` array. */
  function ParamsText(cred: string, link: string): string
  {
    "[" + Quoted(Json.Escape(cred)) + ", [" + Quoted(Json.Escape(link)) + "]]"
  }

  lemma DumpsParams(cred: string, link: string)
    ensures Json.Dumps(Json.JArr([Json.JStr(cred), Json.JArr([Json.JStr(link)])])) == ParamsText(cred, link)
  {
    DumpsOne(Json.JStr(link));
    DumpsTwo(Json.JStr(cred), Json.JArr([Json.JStr(link)]));
  }

  /**
   * The body text as `json.dumps` writes it:
   * `{"jsonrpc": "2.0", "id": 1, "method": "aria2.addUri", "params": ["<cred>", ["<link>"]]}`,
   * the credential and the link escaped in place.
   */
  lemma PayloadText(s: RpcSettings, link: string)
    ensures Json.Dumps(Payload(s, link)) ==
            "{" + (Member(JsonRpcKey, Quoted(Version)) + ", " + (Member(IdKey, "1") + ", "
            + (Member(MethodKey, Quoted(AddUri)) + ", " + Member(ParamsKey, ParamsText(Credential(s), link))))) + "}"
  {
    var v := Payload(s, link);
    var ms := v.members;
    assert ms == [ms[0], ms[1], ms[2], ms[3]];
    FourMembers(v, ms[0], ms[1], ms[2], ms[3]);
    FixedMembers();
    ParamsMember(Credential(s), link);
  }

  lemma FixedMembers()
    ensures MemberOf((JsonRpcKey, Json.JStr(Version))) == Member(JsonRpcKey, Quoted(Version))
    ensures MemberOf((IdKey, Json.JInt(1))) == Member(IdKey, "1")
    ensures MemberOf((MethodKey, Json.JStr(AddUri))) == Member(MethodKey, Quoted(AddUri))
  {
    JsonRpcKeyPlain();
    VersionPlain();
    IdMember();
    MethodKeyPlain();
    AddUriPlain();
  }

  lemma IdMember()
    ensures MemberOf((IdKey, Json.JInt(1))) == Member(IdKey, "1")
  {
    IdKeyPlain();
    assert Json.IntToString(1) == "1" by {
      assert Strings.NatToString(1) == "1";
    }
  }

  lemma ParamsMember(cred: string, link: string)
    ensures MemberOf((ParamsKey, Json.JArr([Json.JStr(cred), Json.JArr([Json.JStr(link)])]))) == Member(ParamsKey, ParamsText(cred, link))
  {
    ParamsKeyPlain();
    DumpsParams(cred, link);
  }

  /** The member text of one member. */
  function MemberOf(m: (string, Json.Value)): string
  {
    Member(Json.Escape(m.0), Json.Dumps(m.1))
  }

  lemma FourMembers(parent: Json.Value, a: (string, Json.Value), b: (string, Json.Value), c: (string, Json.Value), d: (string, Json.Value))
    requires a.1 < parent && b.1 < parent && c.1 < parent && d.1 < parent
    ensures Json.DumpsMembers(parent, [a, b, c, d]) == MemberOf(a) + ", " + (MemberOf(b) + ", " + (MemberOf(c) + ", " + MemberOf(d)))
  {
    assert [a, b, c, d][1..] == [b, c, d];
    assert [b, c, d][1..] == [c, d];
    assert [c, d][1..] == [d];
    DumpsLastMember(parent, d.0, d.1);
    DumpsNextMember(parent, [c, d]);
    DumpsNextMember(parent, [b, c, d]);
    DumpsNextMember(parent, [a, b, c, d]);
  }

  /** The body is ASCII: one byte per character of the text, each its code point. */
  lemma PayloadAscii(s: RpcSettings, link: string)
    ensures var t := Json.Dumps(Payload(s, link));
            |PayloadBytes(s, link)| == |t| && forall k :: 0 <= k < |t| ==> PayloadBytes(s, link)[k] as int == t[k] as int
  {
    var t := Json.Dumps(Payload(s, link));
    Json.DumpsPrintable(Payload(s, link));
    FormEncoding.Utf8Ascii(t);
  }

  /** The credential and the link are written as JSON string literals that decode back to them. */
  lemma PayloadCarries(s: RpcSettings, link: string)
    ensures Json.Unescape(Json.Escape(Credential(s))) == Some(Credential(s))
    ensures Json.Unescape(Json.Escape(link)) == Some(link)
  {
    Json.EscapeRoundTrip(Credential(s));
    Json.EscapeRoundTrip(link);
  }

  /** What the endpoint answered: nothing (the transport raised `error`), or a body that may or may not be JSON. */
  datatype RpcReply = Unreachable(error: string) | Answer(body: Option<Json.Value>)

  /**
   * The outcome of `add_uri` as written: the emitted confirmation, or the
   * exception ending the thread. The handler only catches the `HTTPError`
   * of the requests library, which `urlopen` never raises.
   */
  function Confirmation(reply: RpcReply): Result<bool>
  {
    if reply.Unreachable? then Raised(reply.error)
    else if reply.body.None? then Raised("JSONDecodeError")
    else if reply.body.value.JObj? then Ok(Json.HasKey(reply.body.value.members, "result"))
    else Raised("AttributeError")
  }

  /** A failed transport ends the thread without any confirmation. */
  lemma UnreachableUnconfirmed(e: string)
    ensures !Confirmation(Unreachable(e)).Ok?
  {
  }

  /** The outcome the handler was written for: a failed transport is confirmed as `False`. */
  function ConfirmationFixed(reply: RpcReply): (r: Result<bool>)
    ensures r == Ok(true) <==> reply.Answer? && reply.body.Some? && reply.body.value.JObj? && Json.HasKey(reply.body.value.members, "result")
    ensures reply.Unreachable? ==> r == Ok(false)
  {
    if reply.Unreachable? then Ok(false) else Confirmation(reply)
  }

  /** The two agree on every reply that arrives. */
  lemma ConfirmationAgrees(reply: RpcReply)
    requires reply.Answer?
    ensures ConfirmationFixed(reply) == Confirmation(reply)
  {
  }

  // ---------------------------------------------------------------- scraping

  /** The texts a listing post yields: its time, title link target, title and heading. */
  datatype Post = Post(time: string, href: string, title: string, heading: string)

  datatype ScrapeSignal = AddRow(row: seq<string>) | WorkFinished

  /** `dlsize[dlsize.rfind('(') + 1:len(dlsize) - 1]` of the trimmed heading. */
  function SizeLabel(heading: string): string
  {
    var d := Strings.Strip(heading);
    Strings.PySlice(d, Strings.RFind(d, '(') + 1, |d| - 1)
  }

  /**
   * For a trimmed heading `d` whose last `(` is at `r`, the label is what
   * lies strictly between that `(` and the last character of `d`; it is
   * empty when the `(` is one of the last two characters.
   */
  lemma SizeLabelAfterParen(heading: string, r: nat)
    requires var d := Strings.Strip(heading); r < |d| && d[r] == '('
    requires var d := Strings.Strip(heading); forall k :: r < k < |d| ==> d[k] != '('
    ensures var d := Strings.Strip(heading); SizeLabel(heading) == if r + 1 < |d| - 1 then d[r + 1..|d| - 1] else ""
  {
    var d := Strings.Strip(heading);
    var found := Strings.RFind(d, '(');
    assert found == r;
  }

  /** A heading ending in `(SIZE)` yields `SIZE`, when `SIZE` holds no `(`. */
  lemma SizeLabelOf(heading: string, t: string, l: string)
    requires Strings.Strip(heading) == t + "(" + l + ")"
    requires '(' !in l
    ensures SizeLabel(heading) == l
  {
    var d := t + "(" + l + ")";
    assert d[|t|] == '(';
    forall k | |t| < k < |d| ensures d[k] != '(' {
      if k < |d| - 1 {
        assert d[k] == l[k - |t| - 1];
      }
    }
    SizeLabelAfterParen(heading, |t|);
    assert d[|t| + 1..|d| - 1] == l;
  }

  /** Without any `(`, the label is the trimmed heading without its last character. */
  lemma SizeLabelNoParen(heading: string)
    requires '(' !in Strings.Strip(heading)
    ensures var d := Strings.Strip(heading); SizeLabel(heading) == if |d| == 0 then "" else d[..|d| - 1]
  {
    var d := Strings.Strip(heading);
    assert Strings.RFind(d, '(') == -1;
  }

  /** The table row `scrape` emits for one post: three trimmed texts and the size label. */
  function Row(post: Post): (r: seq<string>)
    ensures |r| == 4
  {
    [Strings.Strip(post.time), Strings.Strip(post.href), Strings.Strip(post.title), SizeLabel(post.heading)]
  }

  /** The signals `scrape` emits for the posts of one page, in document order. */
  function PageSignals(posts: seq<Post>): (r: seq<ScrapeSignal>)
    ensures |r| == |posts|
    ensures forall k :: 0 <= k < |posts| ==> r[k] == AddRow(Row(posts[k]))
  {
    seq(|posts|, k requires 0 <= k < |posts| => AddRow(Row(posts[k])))
  }

  /**
   * How many of pages 1 to `n` a scrape reads when the server answers the
   * first `okPages` requests and the next one raises.
   */
  function ReadPages(okPages: nat, n: nat): (f: nat)
    ensures f <= n && f <= okPages
    ensures f == n || f == okPages
  {
    if okPages < n then okPages else n
  }

  /** Whether the request of one of pages 1 to `n` raises. */
  predicate ScrapeRaises(okPages: nat, n: nat)
  {
    okPages < n
  }

  /** The pages requested: the pages read, and the page whose request raised, if any. */
  function RequestedPages(okPages: nat, n: nat): (r: seq<nat>)
    ensures |r| == (if ScrapeRaises(okPages, n) then okPages + 1 else n)
    ensures ScrapeRaises(okPages, n) ==> r[|r| - 1] == okPages + 1
  {
    PageNumbers(if ScrapeRaises(okPages, n) then okPages + 1 else n)
  }

  /** The signals for pages 1 to `n`, `site(p)` being the posts of page `p`. */
  function RowSignals(site: nat -> seq<Post>, n: nat): seq<ScrapeSignal>
  {
    if n == 0 then [] else RowSignals(site, n - 1) + PageSignals(site(n))
  }

  /** The scraped pages only ever add rows. */
  lemma {:induction false} RowSignalsAreRows(site: nat -> seq<Post>, n: nat, k: nat)
    requires k < |RowSignals(site, n)|
    ensures RowSignals(site, n)[k].AddRow?
    decreases n
  {
    var a, b := RowSignals(site, n - 1), PageSignals(site(n));
    if k < |a| {
      RowSignalsAreRows(site, n - 1, k);
      assert (a + b)[k] == a[k];
    } else {
      assert (a + b)[k] == b[k - |a|];
    }
  }

  /** How many pages `begin` fetches when the check before page index `interruptAt` is the first to see an interruption. */
  function Fetched(maxpages: int, interruptAt: nat): nat
  {
    if maxpages <= 0 then 0 else if interruptAt < maxpages then interruptAt else maxpages
  }

  /** The page numbers `1` to `n`, in the order a scrape requests them. */
  function PageNumbers(n: nat): (r: seq<nat>)
    ensures |r| == n && forall i :: 0 <= i < n ==> r[i] == i + 1
  {
    if n == 0 then [] else PageNumbers(n - 1) + [n]
  }

  class ScrapeWorker {
    const maxpages: int
    /** `self.proxy`, the `proxies` of every request. */
    const proxy: map<string, string>
    var complete: bool

    /** `__init__`, `running` telling whether ShadowSocks runs. */
    constructor(maxpages: int, running: bool)
      ensures this.maxpages == maxpages && proxy == Proxy(running) && !complete
    {
      this.maxpages := maxpages;
      proxy := Proxy(running);
      complete := false;
    }

    /**
     * `begin`: page indices `0..maxpages-1`, each fetched as page number
     * index+1, with an interruption check before each; an interruption
     * returns at once, otherwise `complete` is set and `workFinished` sent.
     * The server answers the first `okPages` requests; the next one raises
     * an exception that `except HTTPError` does not catch, so `begin` ends
     * there, before `complete` and `workFinished`. Returns the page numbers
     * requested, the signals emitted and whether `begin` raised.
     */
    method Begin(site: nat -> seq<Post>, okPages: nat, interruptAt: nat)
      returns (requested: seq<nat>, signals: seq<ScrapeSignal>, raised: bool)
      modifies this
      ensures var n := Fetched(maxpages, interruptAt);
              raised == ScrapeRaises(okPages, n)
              && requested == RequestedPages(okPages, n)
              && signals == RowSignals(site, ReadPages(okPages, n))
                            + (if !raised && interruptAt >= maxpages then [WorkFinished] else [])
      ensures complete == (old(complete) || (!raised && interruptAt >= maxpages))
    {
      requested, signals, raised := [], [], false;
      var page: nat := 0;
      while page < maxpages
        invariant page <= interruptAt && page <= okPages
        invariant maxpages > 0 ==> page <= maxpages
        invariant maxpages <= 0 ==> page == 0
        invariant requested == PageNumbers(page)
        invariant signals == RowSignals(site, page)
        invariant complete == old(complete) && !raised
      {
        if page >= interruptAt {
          return;
        }
        requested := requested + [page + 1];
        if page == okPages {
          raised := true;
          return;
        }
        signals := signals + PageSignals(site(page + 1));
        page := page + 1;
      }
      complete := true;
      signals := signals + [WorkFinished];
    }
  }

  // ---------------------------------------------------------------- direct download

  const BlockSize: nat := 8192

  datatype DownloadSignal = Progress(written: nat) | Complete

  /** The bytes of the chunks, in order. */
  function Flatten(chunks: seq<seq<byte>>): seq<byte>
  {
    if |chunks| == 0 then [] else Flatten(chunks[..|chunks| - 1]) + chunks[|chunks| - 1]
  }

  /** The sum of the chunk lengths. */
  function TotalLength(chunks: seq<seq<byte>>): nat
  {
    if |chunks| == 0 then 0 else TotalLength(chunks[..|chunks| - 1]) + |chunks[|chunks| - 1]|
  }

  lemma {:induction false} FlattenLength(chunks: seq<seq<byte>>)
    ensures |Flatten(chunks)| == TotalLength(chunks)
    decreases |chunks|
  {
    if |chunks| > 0 {
      FlattenLength(chunks[..|chunks| - 1]);
    }
  }

  /** The cancel flag as seen at the check before chunk `i`: set from the start, or set by the window once chunk `cancelAt` is reached. */
  predicate CancelSeen(cancelled: bool, cancelAt: nat, i: nat)
  {
    cancelled || i >= cancelAt
  }

  /** The number of chunks written: the index of the first chunk that is empty or meets a set cancel flag, else all of them. */
  function Written(chunks: seq<seq<byte>>, cancelled: bool, cancelAt: nat): (n: nat)
    ensures n <= |chunks|
    ensures forall k :: 0 <= k < n ==> !CancelSeen(cancelled, cancelAt, k) && |chunks[k]| > 0
    ensures n < |chunks| ==> CancelSeen(cancelled, cancelAt, n) || |chunks[n]| == 0
  {
    WrittenFrom(chunks, cancelled, cancelAt, 0)
  }

  function WrittenFrom(chunks: seq<seq<byte>>, cancelled: bool, cancelAt: nat, i: nat): (n: nat)
    requires i <= |chunks|
    ensures i <= n <= |chunks|
    ensures forall k :: i <= k < n ==> !CancelSeen(cancelled, cancelAt, k) && |chunks[k]| > 0
    ensures n < |chunks| ==> CancelSeen(cancelled, cancelAt, n) || |chunks[n]| == 0
    decreases |chunks| - i
  {
    if i == |chunks| || CancelSeen(cancelled, cancelAt, i) || |chunks[i]| == 0 then i
    else WrittenFrom(chunks, cancelled, cancelAt, i + 1)
  }

  /** One progress signal per chunk written, carrying the bytes written so far. */
  function ProgressSignals(chunks: seq<seq<byte>>, n: nat): (r: seq<DownloadSignal>)
    requires n <= |chunks|
    ensures |r| == n
  {
    seq(n, i requires 0 <= i < n => Progress(TotalLength(chunks[..i + 1])))
  }

  lemma PrefixStep(chunks: seq<seq<byte>>, i: nat)
    requires i < |chunks|
    ensures Flatten(chunks[..i + 1]) == Flatten(chunks[..i]) + chunks[i]
    ensures TotalLength(chunks[..i + 1]) == TotalLength(chunks[..i]) + |chunks[i]|
  {
    assert chunks[..i + 1][..i] == chunks[..i];
  }

  /**
   * Whether `download_file` raises: the request itself fails (or its reply
   * has no `Content-Length`), or the stream raises where it would end, which
   * the loop reaches only when it wrote every chunk.
   */
  predicate DownloadRaises(requestFails: bool, streamFails: bool, chunks: seq<seq<byte>>, written: nat)
  {
    requestFails || (streamFails && written == |chunks|)
  }

  class DownloadThread {
    /** `self.proxy`, the `proxies` of the request. */
    const proxy: map<string, string>
    var cancelDownload: bool

    /** `__init__`, `running` telling whether ShadowSocks runs. */
    constructor(running: bool)
      ensures proxy == Proxy(running) && !cancelDownload
    {
      proxy := Proxy(running);
      cancelDownload := false;
    }

    /**
     * `download_file` over the chunks the response yields before it ends,
     * or before it raises when `streamFails`; `requestFails` is a request
     * that raises before the file is opened; `cancelAt` is the chunk from
     * which the window's cancel request is seen. An exception leaves the
     * loop at once, so `dlComplete` is emitted only when nothing raised.
     * Returns the file content, the byte counter, the signals emitted and
     * whether the method raised.
     */
    method DownloadFile(requestFails: bool, chunks: seq<seq<byte>>, streamFails: bool, cancelAt: nat)
      returns (file: seq<byte>, downloaded: nat, signals: seq<DownloadSignal>, raised: bool)
      ensures var m := Written(chunks, cancelDownload, cancelAt);
              var n := if requestFails then 0 else m;
              raised == DownloadRaises(requestFails, streamFails, chunks, m)
              && file == Flatten(chunks[..n]) && downloaded == TotalLength(chunks[..n])
              && signals == ProgressSignals(chunks, n) + (if raised then [] else [Complete])
    {
      file, downloaded, signals, raised := [], 0, [], false;
      if requestFails {
        raised := true;
        return;
      }
      var i: nat := 0;
      ghost var n := Written(chunks, cancelDownload, cancelAt);
      while i < |chunks|
        invariant i <= n
        invariant file == Flatten(chunks[..i]) && downloaded == TotalLength(chunks[..i])
        invariant signals == ProgressSignals(chunks, i)
      {
        var chunk := chunks[i];
        if cancelDownload || i >= cancelAt || |chunk| == 0 {
          break;
        }
        PrefixStep(chunks, i);
        file := file + chunk;
        downloaded := downloaded + |chunk|;
        signals := signals + [Progress(downloaded)];
        i := i + 1;
      }
      if i == |chunks| && streamFails {
        raised := true;
        return;
      }
      signals := signals + [Complete];
    }
  }

  /** The counter moves up with every chunk written and ends at the number of bytes in the file. */
  lemma ProgressRises(chunks: seq<seq<byte>>, cancelled: bool, cancelAt: nat)
    ensures var n := Written(chunks, cancelled, cancelAt);
            var p := ProgressSignals(chunks, n);
            (forall i, j :: 0 <= i < j < n ==> p[i].written < p[j].written)
            && (n > 0 ==> p[n - 1].written == |Flatten(chunks[..n])|)
  {
    var n := Written(chunks, cancelled, cancelAt);
    var p := ProgressSignals(chunks, n);
    forall i, j | 0 <= i < j < n ensures p[i].written < p[j].written {
      RisesBetween(chunks, i, j);
    }
    FlattenLength(chunks[..n]);
  }

  lemma {:induction false} RisesBetween(chunks: seq<seq<byte>>, i: nat, j: nat)
    requires i < j < |chunks|
    requires forall k :: 0 <= k < |chunks| ==> |chunks[k]| > 0 || k > j
    ensures TotalLength(chunks[..i + 1]) < TotalLength(chunks[..j + 1])
    decreases j - i
  {
    PrefixStep(chunks, j);
    if i + 1 < j {
      RisesBetween(chunks, i, j - 1);
    }
  }

  /** The blocks `iter_content(chunk_size=size)` cuts a body into. */
  function Blocks(body: seq<byte>, size: nat): (r: seq<seq<byte>>)
    requires size > 0
    ensures forall k :: 0 <= k < |r| ==> 0 < |r[k]| <= size
    decreases |body|
  {
    if |body| == 0 then []
    else if |body| <= size then [body]
    else [body[..size]] + Blocks(body[size..], size)
  }

  lemma {:induction false} FlattenCons(c: seq<byte>, rest: seq<seq<byte>>)
    ensures Flatten([c] + rest) == c + Flatten(rest)
    decreases |rest|
  {
    if |rest| == 0 {
      assert [c] + rest == [c];
      assert ([c] + rest)[..0] == [];
    } else {
      var all := [c] + rest;
      assert all[..|all| - 1] == [c] + rest[..|rest| - 1];
      FlattenCons(c, rest[..|rest| - 1]);
    }
  }

  lemma {:induction false} BlocksFlatten(body: seq<byte>, size: nat)
    requires size > 0
    ensures Flatten(Blocks(body, size)) == body
    decreases |body|
  {
    if |body| > size {
      var rest := body[size..];
      assert Blocks(body, size) == [body[..size]] + Blocks(rest, size);
      BlocksFlatten(rest, size);
      FlattenCons(body[..size], Blocks(rest, size));
      assert body[..size] + rest == body;
    } else if |body| > 0 {
      assert Blocks(body, size) == [body];
      assert [body][..0] == [];
      assert Flatten([body]) == Flatten([]) + body;
    }
  }

  /** A download nobody cancels writes the whole body. */
  lemma UncancelledWritesAll(body: seq<byte>, size: nat, cancelAt: nat)
    requires size > 0 && cancelAt >= |Blocks(body, size)|
    ensures var chunks := Blocks(body, size);
            Written(chunks, false, cancelAt) == |chunks| && Flatten(chunks[..|chunks|]) == body
  {
    var chunks := Blocks(body, size);
    BlocksFlatten(body, size);
    assert chunks[..|chunks|] == chunks;
  }
}
