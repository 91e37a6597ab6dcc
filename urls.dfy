/**
 * Python's `urllib.parse.urljoin(base, ref)` for an `http://` base and a
 * plain relative reference (reference resolution as in section 5.2 of
 * RFC 3986, written the way Python's implementation does it).
 */
module Urls {
  import Strings
  import Wrappers

  /** A base URL as the client builds it: the `http` scheme followed by an authority. */
  predicate HttpUrl(base: string)
  {
    |base| >= 7 && base[..7] == "http://"
  }

  /** A reference with no scheme, query, fragment or parameters that is not an absolute path. */
  predicate PlainRef(r: string)
  {
    |r| > 0 && r[0] != '/' && ':' !in r && '?' !in r && '#' !in r && ';' !in r
  }

  /** The authority of an `http://` URL: up to the first `/`, `?` or `#`. */
  function Netloc(base: string): string
    requires HttpUrl(base)
  {
    var rest := base[7..];
    rest[..Strings.FirstOf(rest, {'/', '?', '#'})]
  }

  /** The path of an `http://` URL, parameters (`;...` in its last segment) cut off. */
  function BasePath(base: string): string
    requires HttpUrl(base)
  {
    var rest := base[7..];
    var after := rest[Strings.FirstOf(rest, {'/', '?', '#'})..];
    CutParams(after[..Strings.FirstOf(after, {'?', '#'})])
  }

  /** Python's `_splitparams`: the path up to the first `;` after its last `/`. */
  function CutParams(p: string): string
  {
    var start := Strings.RFind(p, '/') + 1;
    var i := Strings.FirstOf(p[start..], {';'});
    p[..start + i]
  }

  /** The base path's segments without its last one, unless that one is empty. */
  function BaseParts(bpath: string): seq<string>
  {
    var parts := Strings.Split(bpath, '/');
    if parts[|parts| - 1] != "" then parts[..|parts| - 1] else parts
  }

  /** Drops the empty segments. */
  function NonEmpty(segs: seq<string>): (r: seq<string>)
    ensures forall k :: 0 <= k < |r| ==> r[k] != ""
  {
    if |segs| == 0 then []
    else if segs[0] == "" then NonEmpty(segs[1..])
    else [segs[0]] + NonEmpty(segs[1..])
  }

  /** Python's loop over dot segments: `..` pops (if anything is left), `.` is skipped. */
  function Resolve(stack: seq<string>, segs: seq<string>): seq<string>
    decreases |segs|
  {
    if |segs| == 0 then stack
    else if segs[0] == ".." then Resolve(if |stack| > 0 then stack[..|stack| - 1] else stack, segs[1..])
    else if segs[0] == "." then Resolve(stack, segs[1..])
    else Resolve(stack + [segs[0]], segs[1..])
  }

  /** The segments to resolve: base parts then reference parts, empty segments dropped except at either end. */
  function Segments(bpath: string, ref: string): (r: seq<string>)
    ensures |r| >= 1
  {
    var segs := BaseParts(bpath) + Strings.Split(ref, '/');
    if |segs| < 2 then segs else [segs[0]] + NonEmpty(segs[1..|segs| - 1]) + [segs[|segs| - 1]]
  }

  /** The resolved path, with a trailing empty segment when the reference ends in a dot segment. */
  function MergedPath(bpath: string, ref: string): (r: string)
    ensures |r| > 0
  {
    var segs := Segments(bpath, ref);
    var resolved := Resolve([], segs);
    var last := segs[|segs| - 1];
    var parts := if last == "." || last == ".." then resolved + [""] else resolved;
    var p := Strings.Join(parts, '/');
    if p == "" then "/" else p
  }

  /** Python's `urljoin(base, ref)`. */
  function UrlJoin(base: string, ref: string): (r: string)
    requires HttpUrl(base) && PlainRef(ref)
    ensures HttpUrl(r)
  {
    var p := MergedPath(BasePath(base), ref);
    HttpPrefixed(Netloc(base), if p[0] != '/' then "/" + p else p);
    "http://" + Netloc(base) + (if p[0] != '/' then "/" + p else p)
  }

  lemma HttpPrefixed(a: string, b: string)
    ensures HttpUrl("http://" + a + b)
  {
    assert ("http://" + a + b)[..7] == "http://";
  }

  /** A host name with no path, query, fragment or parameter delimiters. */
  predicate BareHost(host: string)
  {
    forall k :: 0 <= k < |host| ==> host[k] != '/' && host[k] != '?' && host[k] != '#' && host[k] != ';'
  }

  /** A reference made of one ordinary segment, such as an API method name. */
  predicate Name(n: string)
  {
    PlainRef(n) && '/' !in n && n != "." && n != ".."
  }

  lemma {:induction false} ResolveOrdinary(stack: seq<string>, segs: seq<string>)
    requires forall k :: 0 <= k < |segs| ==> segs[k] != "." && segs[k] != ".."
    ensures Resolve(stack, segs) == stack + segs
    decreases |segs|
  {
    if |segs| > 0 {
      ResolveOrdinary(stack + [segs[0]], segs[1..]);
      assert stack + [segs[0]] + segs[1..] == stack + segs;
    }
  }

  lemma Join3(a: string, b: string, d: string)
    ensures Strings.Join([a, b, d], '/') == a + "/" + b + "/" + d
  {
    assert [a, b, d][1..] == [b, d];
    assert [b, d][1..] == [d];
    assert Strings.Join([d], '/') == d;
    assert Strings.Join([b, d], '/') == b + ['/'] + d;
    assert Strings.Join([a, b, d], '/') == a + ['/'] + (b + ['/'] + d);
  }

  lemma ResolveApi(x: string)
    requires x != "." && x != ".."
    ensures Resolve([], ["", "api", x]) == ["", "api", x]
  {
    assert "" != "." && "" != ".." && "api" != "." && "api" != ".." by {
      assert |"api"| == 3;
    }
    ResolveOrdinary([], ["", "api", x]);
  }

  lemma CutParamsEmpty()
    ensures CutParams("") == ""
  {
    assert Strings.RFind("", '/') == -1;
    assert Strings.FirstOf("", {';'}) == 0;
  }

  lemma CutParamsApi()
    ensures CutParams("/api/") == "/api/"
  {
    assert Strings.RFind("/api/", '/') == 4;
    assert "/api/"[5..] == "";
    assert Strings.FirstOf("", {';'}) == 0;
  }

  lemma BareHostParts(host: string)
    requires BareHost(host)
    ensures Netloc("http://" + host) == host && BasePath("http://" + host) == ""
  {
    var base := "http://" + host;
    assert base[7..] == host;
    Strings.FirstOfAbsent(host, {'/', '?', '#'});
    assert host[|host|..] == "";
    assert Strings.FirstOf("", {'?', '#'}) == 0;
    CutParamsEmpty();
  }

  lemma ApiRest(host: string)
    requires BareHost(host)
    ensures HttpUrl("http://" + host + "/api/")
    ensures var rest := ("http://" + host + "/api/")[7..];
            Strings.FirstOf(rest, {'/', '?', '#'}) == |host| && rest[..|host|] == host && rest[|host|..] == "/api/"
  {
    var rest := ("http://" + host + "/api/")[7..];
    assert rest == host + "/api/";
    Strings.FirstOfAfter(host, "/api/", {'/', '?', '#'});
    assert Strings.FirstOf("/api/", {'/', '?', '#'}) == 0;
  }

  lemma ApiParts(host: string)
    requires BareHost(host)
    ensures HttpUrl("http://" + host + "/api/")
    ensures Netloc("http://" + host + "/api/") == host && BasePath("http://" + host + "/api/") == "/api/"
  {
    ApiRest(host);
    Strings.FirstOfAbsent("/api/", {'?', '#'});
    assert "/api/"[..5] == "/api/";
    CutParamsApi();
  }

  lemma SplitApi()
    ensures Strings.Split("api/", '/') == ["api", ""]
    ensures Strings.Split("/api/", '/') == ["", "api", ""]
  {
    Strings.SplitConcat("api", "", '/');
    assert "api" + ['/'] + "" == "api/";
    Strings.SplitConcat("", "api/", '/');
    assert "" + ['/'] + "api/" == "/api/";
  }

  lemma SegmentsApiBase()
    ensures Segments("", "api/") == ["", "api", ""]
  {
    SplitApi();
    assert Strings.Split("", '/') == [""];
    assert BaseParts("") == [""];
    var segs := [""] + ["api", ""];
    assert segs[1..2] == ["api"];
    assert NonEmpty(["api"]) == ["api"] by { assert ["api"][1..] == []; }
  }

  lemma MergedApiBase()
    ensures MergedPath("", "api/") == "/api/"
  {
    SegmentsApiBase();
    ResolveApi("");
    Join3("", "api", "");
  }

  /** `urljoin('http://' + host, 'api/')` is `'http://' + host + '/api/'`. */
  lemma ApiBase(host: string)
    requires BareHost(host)
    ensures UrlJoin("http://" + host, "api/") == "http://" + host + "/api/"
  {
    BareHostParts(host);
    MergedApiBase();
  }

  lemma SegmentsApiCall(name: string)
    requires Name(name)
    ensures Segments("/api/", name) == ["", "api", name]
  {
    SplitApi();
    Strings.NoSeparatorSplit(name, '/');
    assert BaseParts("/api/") == ["", "api", ""];
    var segs := ["", "api", ""] + [name];
    assert segs[1..|segs| - 1] == ["api", ""];
    assert NonEmpty([""]) == [] by { assert [""][1..] == []; }
    assert NonEmpty(["api", ""]) == ["api"] by { assert ["api", ""][1..] == [""]; }
  }

  lemma MergedApiCall(name: string)
    requires Name(name)
    ensures MergedPath("/api/", name) == "/api/" + name
  {
    SegmentsApiCall(name);
    ResolveApi(name);
    Join3("", "api", name);
    assert "" + "/" + "api" + "/" == "/api/";
  }

  /** Joining a method name onto that base appends it: `urljoin(url_base, name) == url_base + name`. */
  lemma ApiCall(host: string, name: string)
    requires BareHost(host) && Name(name)
    ensures UrlJoin("http://" + host + "/api/", name) == "http://" + host + "/api/" + name
  {
    var base := "http://" + host + "/api/";
    ApiParts(host);
    MergedApiCall(name);
    JoinAbsolute(base, name, "/api/" + name);
    Wrappers.ConcatAssoc("http://" + host, "/api/", name);
  }

  /** A merged path that starts with `/` is put after the authority as it is. */
  lemma JoinAbsolute(base: string, ref: string, p: string)
    requires HttpUrl(base) && PlainRef(ref)
    requires MergedPath(BasePath(base), ref) == p && |p| > 0 && p[0] == '/'
    ensures UrlJoin(base, ref) == "http://" + Netloc(base) + p
  {
  }
}
