/**
 * The worker threads of the older top-level scripts: the scrape of the
 * listing pages with its field cleaning, the hoster table of a post, the
 * real-debrid unrestrict request and its reply, and the 1024-byte
 * download. The aria2 request of this generation builds the same payload
 * and reads the reply the same way as the current one in `Workers`.
 */
module LegacyThreads {
  import opened Wrappers
  import Strings
  import Json
  import FormEncoding
  import Workers

  // ---------------------------------------------------------------- field cleaning

  /** Removing every occurrence of a one-character pattern leaves none of it. */
  lemma {:induction false} ReplaceDropsChar(s: string, c: char)
    ensures c !in Strings.ReplaceAll(s, [c], "")
    decreases |s|
  {
    if |s| >= 1 {
      ReplaceDropsChar(s[1..], c);
      if s[..1] == [c] {
        assert Strings.ReplaceAll(s, [c], "") == "" + Strings.ReplaceAll(s[1..], [c], "");
      } else {
        assert s[0] != c by { assert s[..1] == [s[0]]; }
      }
    }
  }

  const Newline: string := "\n"
  const RatingTag: string := "TV-"

  /** `text.replace('\n', '').strip()`. */
  function Clean(t: string): string
  {
    Strings.Strip(Strings.ReplaceAll(t, Newline, ""))
  }

  /** A cleaned field has no newline and no whitespace at either end. */
  lemma CleanSpec(t: string)
    ensures '\n' !in Clean(t)
    ensures |Clean(t)| > 0 ==> !Strings.IsSpace(Clean(t)[0]) && !Strings.IsSpace(Clean(t)[|Clean(t)| - 1])
  {
    ReplaceDropsChar(t, '\n');
    Strings.StripDrops(Strings.ReplaceAll(t, Newline, ""), '\n');
  }

  /** A field that is already clean is kept as it is. */
  lemma CleanKeepsClean(t: string)
    requires '\n' !in t
    requires |t| > 0 ==> !Strings.IsSpace(t[0]) && !Strings.IsSpace(t[|t| - 1])
    ensures Clean(t) == t
  {
    forall i: nat
      ensures !Strings.MatchAt(t, "\n", i)
    {
      if i + 1 <= |t| {
        assert t[i..i + 1][0] == t[i];
      }
    }
    Strings.ContainsIffMatch(t, "\n");
    Strings.ReplaceAbsent(t, "\n", "");
  }

  /** The four cells of a `posts_table` the scrape reads: the size, the link target and text, and the format. */
  datatype LegacyPost = LegacyPost(size: string, href: string, title: string, format: string)

  /** The row the scrape emits for one post; `TV-` is taken out of the format before the newlines. */
  function PostRow(p: LegacyPost): (r: seq<string>)
    ensures |r| == 4
  {
    [Clean(p.size), Clean(p.href), Clean(p.title), Clean(Strings.ReplaceAll(p.format, RatingTag, ""))]
  }

  /** Every cell of a row is clean. */
  lemma PostRowClean(p: LegacyPost, k: nat)
    requires k < 4
    ensures '\n' !in PostRow(p)[k]
  {
    var r := PostRow(p);
    if k == 0 { CleanSpec(p.size); }
    else if k == 1 { CleanSpec(p.href); }
    else if k == 2 { CleanSpec(p.title); }
    else { CleanSpec(Strings.ReplaceAll(p.format, RatingTag, "")); }
  }

  /** A format written `TV-<rating>` loses the prefix. */
  lemma FormatDropsTag(rating: string)
    requires !Strings.Contains(rating, "TV-") && '\n' !in rating
    requires |rating| > 0 ==> !Strings.IsSpace(rating[0]) && !Strings.IsSpace(rating[|rating| - 1])
    ensures PostRow(LegacyPost("", "", "", "TV-" + rating))[3] == rating
  {
    Strings.ReplaceFront("TV-", rating, "");
    Strings.ReplaceAbsent(rating, "TV-", "");
    assert "" + rating == rating;
    CleanKeepsClean(rating);
  }

  // ---------------------------------------------------------------- parsing

  /**
   * The bytes BeautifulSoup parses as written: on win32 the body with
   * `html.parser`; elsewhere the body with `lxml`, unless that fails, when
   * the fallback reads the response a second time and gets nothing.
   */
  function ParsedBytes(platform: string, lxmlFails: bool, body: seq<byte>): seq<byte>
  {
    if platform == "win32" || !lxmlFails then body else []
  }

  /**
   * The evidently intended parse: the response is read once, and whichever
   * parser ends up used, on any platform, parses that same body.
   */
  function ParsedBytesFixed(platform: string, lxmlFails: bool, body: seq<byte>): (r: seq<byte>)
    ensures r == body
  {
    body
  }

  /** As written, a page whose parse falls back gives what an empty document gives: no posts. */
  lemma FallbackParsesNothing(platform: string, body: seq<byte>, parse: seq<byte> -> seq<LegacyPost>)
    requires platform != "win32"
    requires parse([]) == []
    ensures parse(ParsedBytes(platform, true, body)) == []
  {
  }

  // ---------------------------------------------------------------- scraping

  /** The rows of pages 1 to `n`, `site(p)` being the body of page `p`. */
  function PageRows(rowOf: LegacyPost -> seq<string>, site: nat -> seq<byte>, parse: seq<byte> -> seq<LegacyPost>,
                    platform: string, lxmlFails: bool, n: nat): seq<seq<string>>
  {
    if n == 0 then []
    else
      PageRows(rowOf, site, parse, platform, lxmlFails, n - 1) + PostRows(rowOf, parse(ParsedBytes(platform, lxmlFails, site(n))))
  }

  /** The rows of the posts of one page, in order, `rowOf` building each. */
  function PostRows(rowOf: LegacyPost -> seq<string>, posts: seq<LegacyPost>): (r: seq<seq<string>>)
    ensures |r| == |posts| && forall k :: 0 <= k < |posts| ==> r[k] == rowOf(posts[k])
  {
    if |posts| == 0 then [] else PostRows(rowOf, posts[..|posts| - 1]) + [rowOf(posts[|posts| - 1])]
  }

  lemma PostRowsSnoc(rowOf: LegacyPost -> seq<string>, posts: seq<LegacyPost>, k: nat)
    requires k < |posts|
    ensures PostRows(rowOf, posts[..k + 1]) == PostRows(rowOf, posts[..k]) + [rowOf(posts[k])]
  {
    assert posts[..k + 1][..k] == posts[..k];
  }

  /** The loop over the `posts_table`s of one page, appending each row and counting it. */
  method EmitRows(rowOf: LegacyPost -> seq<string>, posts: seq<LegacyPost>, rows: seq<seq<string>>, row: nat)
    returns (out: seq<seq<string>>, count: nat)
    requires row == |rows|
    ensures out == rows + PostRows(rowOf, posts) && count == |out|
  {
    out, count := rows, row;
    var k := 0;
    while k < |posts|
      invariant k <= |posts|
      invariant out == rows + PostRows(rowOf, posts[..k]) && count == |out|
    {
      assert posts[..k + 1][..k] == posts[..k];
      out := out + [rowOf(posts[k])];
      count := count + 1;
      k := k + 1;
    }
    assert posts[..k] == posts;
  }

  /** Without a parser fallback every page contributes one row per post, in order. */
  lemma {:induction false} PageRowsCount(rowOf: LegacyPost -> seq<string>, site: nat -> seq<byte>,
                                         parse: seq<byte> -> seq<LegacyPost>, platform: string, n: nat)
    ensures |PageRows(rowOf, site, parse, platform, false, n)| == PostCount(site, parse, n)
    decreases n
  {
    if n > 0 {
      PageRowsCount(rowOf, site, parse, platform, n - 1);
    }
  }

  /** As written, once `lxml` fails off win32 every page parses as the empty document, so the scrape emits no row. */
  lemma {:induction false} FallbackScrapesNothing(rowOf: LegacyPost -> seq<string>, site: nat -> seq<byte>,
                                                  parse: seq<byte> -> seq<LegacyPost>, platform: string, n: nat)
    requires platform != "win32" && parse([]) == []
    ensures PageRows(rowOf, site, parse, platform, true, n) == []
    decreases n
  {
    if n > 0 {
      FallbackScrapesNothing(rowOf, site, parse, platform, n - 1);
      assert PostRows(rowOf, parse(ParsedBytes(platform, true, site(n)))) == [];
    }
  }

  /** Corrected, a page whose `lxml` parse fails gives the posts of its own body, as when the parse succeeds. */
  lemma FixedFallbackScrapesPage(platform: string, body: seq<byte>, parse: seq<byte> -> seq<LegacyPost>)
    ensures parse(ParsedBytesFixed(platform, true, body)) == parse(ParsedBytes(platform, false, body))
  {
  }

  function PostCount(site: nat -> seq<byte>, parse: seq<byte> -> seq<LegacyPost>, n: nat): nat
  {
    if n == 0 then 0 else PostCount(site, parse, n - 1) + |parse(site(n))|
  }

  /**
   * The loop of `scrape_links`: pages 1 to `maxpages`, both included, each
   * parsed and every `posts_table` emitted as a row, with `row` counting
   * them. The server answers the first `okPages` requests; `urlopen` raises
   * on the next one, which nothing catches, so the scrape stops there with
   * the rows of the pages before. Returns the page numbers requested, the
   * rows, the counter and whether `scrape_links` raised.
   */
  method ScrapePages(rowOf: LegacyPost -> seq<string>, maxpages: int, site: nat -> seq<byte>,
                     parse: seq<byte> -> seq<LegacyPost>, platform: string, lxmlFails: bool, okPages: nat)
    returns (requested: seq<nat>, rows: seq<seq<string>>, row: nat, raised: bool)
    ensures var n := if maxpages > 0 then maxpages else 0;
            raised == Workers.ScrapeRaises(okPages, n)
            && requested == Workers.RequestedPages(okPages, n)
            && rows == PageRows(rowOf, site, parse, platform, lxmlFails, Workers.ReadPages(okPages, n)) && row == |rows|
  {
    requested, rows, row, raised := [], [], 0, false;
    var page: nat := 1;
    while page <= maxpages
      invariant 1 <= page && page - 1 <= okPages && (maxpages > 0 ==> page <= maxpages + 1)
      invariant maxpages <= 0 ==> page == 1
      invariant requested == Workers.PageNumbers(page - 1) && !raised
      invariant rows == PageRows(rowOf, site, parse, platform, lxmlFails, page - 1) && row == |rows|
    {
      requested := requested + [page];
      if page - 1 == okPages {
        raised := true;
        return;
      }
      var posts := parse(ParsedBytes(platform, lxmlFails, site(page)));
      rows, row := EmitRows(rowOf, posts, rows, row);
      page := page + 1;
    }
  }

  class ScrapeThread {
    const maxpages: int

    constructor(maxpages: int)
      ensures this.maxpages == maxpages
    {
      this.maxpages := maxpages;
    }

    /** `scrape_links`: the page loop with each post cleaned into a row; `okPages` as in `ScrapePages`. */
    method ScrapeLinks(site: nat -> seq<byte>, parse: seq<byte> -> seq<LegacyPost>, platform: string, lxmlFails: bool,
                       okPages: nat)
      returns (requested: seq<nat>, rows: seq<seq<string>>, row: nat, raised: bool)
      ensures var n := if maxpages > 0 then maxpages else 0;
              raised == Workers.ScrapeRaises(okPages, n)
              && requested == Workers.RequestedPages(okPages, n)
              && rows == PageRows(PostRow, site, parse, platform, lxmlFails, Workers.ReadPages(okPages, n)) && row == |rows|
    {
      requested, rows, row, raised := ScrapePages(PostRow, maxpages, site, parse, platform, lxmlFails, okPages);
    }
  }

  // ---------------------------------------------------------------- hoster links

  /** One row of the `download_table`: the hoster's logo and link. */
  datatype HosterCell = HosterCell(src: string, href: string)

  /**
   * `get_hoster_links`: one `[src, href]` pair per row of the download
   * table, in order; `table` is None when the parsed page has no such
   * table, and the lookup on None raises.
   */
  method GetHosterLinks(table: Option<seq<HosterCell>>) returns (r: Result<seq<seq<string>>>)
    ensures table.None? ==> r == Raised("AttributeError")
    ensures table.Some? ==>
              r.Ok? && |r.value| == |table.value|
              && forall k :: 0 <= k < |table.value| ==> r.value[k] == [table.value[k].src, table.value[k].href]
  {
    if table.None? {
      return Raised("AttributeError");
    }
    var rows := table.value;
    var hosters: seq<seq<string>> := [];
    var k := 0;
    while k < |rows|
      invariant k <= |rows| && |hosters| == k
      invariant forall j :: 0 <= j < k ==> hosters[j] == [rows[j].src, rows[j].href]
    {
      hosters := hosters + [[rows[k].src, rows[k].href]];
      k := k + 1;
    }
    return Ok(hosters);
  }

  /** As written, a page parsed through the fallback has no download table, so the hoster lookup raises. */
  lemma FallbackHostersRaise(platform: string, body: seq<byte>, parse: seq<byte> -> Option<seq<HosterCell>>)
    requires platform != "win32"
    requires parse([]) == None
    ensures parse(ParsedBytes(platform, true, body)).None?
  {
  }

  // ---------------------------------------------------------------- real-debrid

  const LinkKey := "link"
  const DownloadKey := "download"

  /** The unrestrict request: its URL, headers and form body. */
  datatype Request = Request(url: string, headers: seq<(string, string)>, body: seq<byte>)

  function UnrestrictRequest(apiUrl: string, token: string, link: string): (r: Request)
    ensures r.url == apiUrl + "/unrestrict/link"
    ensures |r.headers| == 3 && r.headers[0] == ("Authorization", "Bearer " + token)
    ensures r.body == FormEncoding.Utf8(FormEncoding.Urlencode([(LinkKey, link)]))
  {
    Request(apiUrl + "/unrestrict/link",
            [("Authorization", "Bearer " + token), ("Content-Type", "application/x-www-form-urlencoded"),
             ("Cache-Control", "no-cache")],
            FormEncoding.Utf8(FormEncoding.Urlencode([(LinkKey, link)])))
  }

  /** The form body carries the link and nothing else. */
  lemma UnrestrictBodyCarriesLink(link: string)
    ensures FormEncoding.FormDecode(FormEncoding.Urlencode([(LinkKey, link)]))
            == Some([(FormEncoding.Utf8(LinkKey), FormEncoding.Utf8(link))])
  {
    var pairs := [(LinkKey, link)];
    FormEncoding.UrlencodeRoundTrip(pairs);
    assert FormEncoding.EncodedPairs(pairs) == [(FormEncoding.Utf8(LinkKey), FormEncoding.Utf8(link))];
  }

  /**
   * What `unrestrict_link` does with the decoded reply: emits the
   * `download` value of an object holding that key, emits nothing for an
   * object without it, and raises otherwise (undecodable text, a value
   * that is not an object, a `download` value the string signal refuses).
   */
  function UnrestrictResult(reply: Option<Json.Value>): (r: Result<Option<string>>)
    ensures r == Ok(None) <==> reply.Some? && reply.value.JObj? && !Json.HasKey(reply.value.members, DownloadKey)
    ensures forall s :: r == Ok(Some(s)) <==>
              reply.Some? && reply.value.JObj? && Json.Lookup(reply.value.members, DownloadKey) == Some(Json.JStr(s))
  {
    if reply.None? then Raised("JSONDecodeError")
    else if !reply.value.JObj? then Raised("AttributeError")
    else
      match Json.Lookup(reply.value.members, DownloadKey)
      case None => Ok(None)
      case Some(v) => if v.JStr? then Ok(Some(v.s)) else Raised("TypeError")
  }

  // ---------------------------------------------------------------- download

  /** This generation reads the response in blocks of 1024 bytes; the loop is the one of `Workers.DownloadThread`. */
  const LegacyBlockSize: nat := 1024

  /** Uncancelled, the 1024-byte loop writes the whole body, and the counter is its length. */
  lemma LegacyDownloadWritesAll(body: seq<byte>, cancelAt: nat)
    requires cancelAt >= |Workers.Blocks(body, LegacyBlockSize)|
    ensures var chunks := Workers.Blocks(body, LegacyBlockSize);
            var n := Workers.Written(chunks, false, cancelAt);
            Workers.Flatten(chunks[..n]) == body && Workers.TotalLength(chunks[..n]) == |body|
  {
    var chunks := Workers.Blocks(body, LegacyBlockSize);
    Workers.UncancelledWritesAll(body, LegacyBlockSize, cancelAt);
    var n := Workers.Written(chunks, false, cancelAt);
    assert chunks[..n] == chunks[..|chunks|];
    Workers.FlattenLength(chunks[..n]);
  }
}
