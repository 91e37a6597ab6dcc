/**
 * The pyLoad API client of `pyload.py`: the API base URL, the form data of
 * each call (argument values JSON-encoded unless told otherwise, the
 * session attached), the dispatch of any unknown attribute to a call, and
 * the login that the constructor performs.
 */
module Pyload {
  import opened Wrappers
  import Json
  import Urls
  import FormEncoding

  /** A Python dict with string keys and values: its items in insertion order. */
  type Dict = seq<(string, string)>

  /** The keyword arguments of a call: names and decoded values, as a dict holds them. */
  type Args = seq<(string, Json.Value)>

  function Keys(d: Dict): (r: seq<string>)
    ensures |r| == |d| && forall i :: 0 <= i < |d| ==> r[i] == d[i].0
  {
    seq(|d|, i requires 0 <= i < |d| => d[i].0)
  }

  /** No key is held twice, as in every dict. */
  predicate UniqueKeys(d: Dict)
  {
    forall i, j :: 0 <= i < j < |d| ==> d[i].0 != d[j].0
  }

  predicate UniqueNames(args: Args)
  {
    forall i, j :: 0 <= i < j < |args| ==> args[i].0 != args[j].0
  }

  /** The index of the item with key `k`, or `|d|` when there is none. */
  function Find(d: Dict, k: string): (i: nat)
    ensures i <= |d|
    ensures i < |d| ==> d[i].0 == k
    ensures forall j :: 0 <= j < i ==> d[j].0 != k
  {
    if |d| == 0 then 0
    else if d[0].0 == k then 0
    else 1 + Find(d[1..], k)
  }

  /** `d.get(k)`. */
  function Get(d: Dict, k: string): Option<string>
  {
    var i := Find(d, k);
    if i < |d| then Some(d[i].1) else None
  }

  /** Two dicts with the same keys in the same places find every key at the same index. */
  lemma FindSameKeys(d: Dict, e: Dict, k: string)
    requires |d| == |e| && forall j :: 0 <= j < |d| ==> d[j].0 == e[j].0
    ensures Find(d, k) == Find(e, k)
  {
  }

  /** A key found in a dict is found at the same index once an item is appended. */
  lemma FindAppend(d: Dict, p: (string, string), k: string)
    ensures Find(d + [p], k) == if Find(d, k) < |d| || p.0 == k then Find(d, k) else |d| + 1
  {
    var e := d + [p];
    assert forall m :: 0 <= m < |d| ==> e[m] == d[m];
    assert e[|d|] == p;
  }

  /** `d[k] = v`: the value of an existing key replaced in place, a new key appended. */
  function DictSet(d: Dict, k: string, v: string): (r: Dict)
    ensures Get(r, k) == Some(v)
    ensures forall k' :: k' != k ==> Get(r, k') == Get(d, k')
    ensures Keys(r) == if Find(d, k) < |d| then Keys(d) else Keys(d) + [k]
    ensures UniqueKeys(d) ==> UniqueKeys(r)
  {
    var i := Find(d, k);
    if i < |d| then
      var r := d[i := (k, v)];
      forall k' ensures Find(r, k') == Find(d, k') {
        FindSameKeys(r, d, k');
      }
      assert Keys(r) == Keys(d);
      r
    else
      var r := d + [(k, v)];
      forall k' ensures Find(r, k') == if Find(d, k') < |d| || k == k' then Find(d, k') else |d| + 1 {
        FindAppend(d, (k, v), k');
      }
      assert Keys(r) == Keys(d) + [k];
      r
  }

  /** Python's `str()` of a decoded JSON value; the `repr` of a list or a dict is `reprOf`'s. */
  function PyStr(v: Json.Value, reprOf: Json.Value -> string): string
  {
    match v
    case JNull => "None"
    case JBool(b) => if b then "True" else "False"
    case JInt(i) => Json.IntToString(i)
    case JStr(s) => s
    case _ => reprOf(v)
  }

  /** The data of an encoded call: every value replaced by its JSON text, the keys in order. */
  function Encoded(args: Args): Dict
  {
    seq(|args|, i requires 0 <= i < |args| => (args[i].0, Json.Dumps(args[i].1)))
  }

  /** The data of a call made with `encode=False`: the arguments themselves, written out by `str()`. */
  function Unencoded(args: Args, reprOf: Json.Value -> string): Dict
  {
    seq(|args|, i requires 0 <= i < |args| => (args[i].0, PyStr(args[i].1, reprOf)))
  }

  function Data(args: Args, encode: bool, reprOf: Json.Value -> string): Dict
  {
    if encode then Encoded(args) else Unencoded(args, reprOf)
  }

  /** Encoding keeps every argument name, in order, and writes each string value as a JSON literal that decodes back to it. */
  lemma EncodedKeepsArguments(args: Args)
    ensures |Encoded(args)| == |args|
    ensures forall i :: 0 <= i < |args| ==> Encoded(args)[i].0 == args[i].0 && Encoded(args)[i].1 == Json.Dumps(args[i].1)
    ensures forall i :: 0 <= i < |args| && args[i].1.JStr? ==>
              var t := Encoded(args)[i].1; |t| >= 2 && Json.Unescape(t[1..|t| - 1]) == Some(args[i].1.s)
  {
    forall i | 0 <= i < |args| && args[i].1.JStr?
      ensures var t := Encoded(args)[i].1; |t| >= 2 && Json.Unescape(t[1..|t| - 1]) == Some(args[i].1.s)
    {
      Json.DumpsString(args[i].1.s);
    }
  }

  /** The `for key, value in args.items()` loop of `_call`. */
  method EncodeArgs(args: Args) returns (data: Dict)
    requires UniqueNames(args)
    ensures data == Encoded(args)
  {
    data := [];
    var i := 0;
    while i < |args|
      invariant i <= |args| && data == Encoded(args[..i])
    {
      assert Find(data, args[i].0) == |data| by {
        forall j | 0 <= j < |data| ensures data[j].0 != args[i].0 {
          assert data[j].0 == args[j].0;
        }
      }
      assert Encoded(args[..i + 1]) == Encoded(args[..i]) + [(args[i].0, Json.Dumps(args[i].1))];
      data := DictSet(data, args[i].0, Json.Dumps(args[i].1));
      i := i + 1;
    }
    assert args[..i] == args;
  }

  /** What `self.session` gives: nothing stored yet, or the decoded reply of the login. */
  datatype SessionAttr = Unset | Session(reply: Json.Value)

  /**
   * As written: `hasattr(self, 'session')` always holds, because whenever no
   * session is stored yet `__getattr__` answers with a fresh `wrapper`
   * function, whose text in the form is its `repr`, `wrapperRepr`.
   */
  function CallData(args: Args, encode: bool, session: SessionAttr, wrapperRepr: string, reprOf: Json.Value -> string): Dict
  {
    var text := if session.Session? then PyStr(session.reply, reprOf) else wrapperRepr;
    DictSet(Data(args, encode, reprOf), "session", text)
  }

  /** The data of a call as intended: the session attached exactly when one is stored. */
  function CallDataFixed(args: Args, encode: bool, session: SessionAttr, reprOf: Json.Value -> string): Dict
  {
    if session.Session? then DictSet(Data(args, encode, reprOf), "session", PyStr(session.reply, reprOf))
    else Data(args, encode, reprOf)
  }

  /** The arguments of the login call. */
  function LoginArgs(username: string, password: string): Args
  {
    [("username", Json.JStr(username)), ("password", Json.JStr(password))]
  }

  /** As written, the login form carries a `session` field holding the text of a function. */
  lemma LoginCarriesWrapper(username: string, password: string, wrapperRepr: string, reprOf: Json.Value -> string)
    ensures Get(CallData(LoginArgs(username, password), false, Unset, wrapperRepr, reprOf), "session") == Some(wrapperRepr)
  {
  }

  /** The intended login form holds the username and the password as they are, and nothing else. */
  lemma FixedLoginCarriesNoSession(username: string, password: string, reprOf: Json.Value -> string)
    ensures CallDataFixed(LoginArgs(username, password), false, Unset, reprOf) == [("username", username), ("password", password)]
    ensures Get(CallDataFixed(LoginArgs(username, password), false, Unset, reprOf), "session") == None
  {
    var d := CallDataFixed(LoginArgs(username, password), false, Unset, reprOf);
    assert d == [("username", username), ("password", password)];
    assert "session" != "username" && "session" != "password" by {
      assert "session"[0] != "username"[0];
      assert "session"[1] != "password"[1];
    }
    assert Find(d, "session") == 2 by {
      assert d[1..] == [("password", password)];
      assert d[1..][1..] == [];
    }
  }

  /** Once a session is stored, every call attaches it and keeps every other field of its data. */
  lemma SessionAttached(args: Args, encode: bool, reply: Json.Value, wrapperRepr: string, reprOf: Json.Value -> string)
    ensures CallData(args, encode, Session(reply), wrapperRepr, reprOf) == CallDataFixed(args, encode, Session(reply), reprOf)
    ensures var d := CallDataFixed(args, encode, Session(reply), reprOf);
            Get(d, "session") == Some(PyStr(reply, reprOf))
            && forall k :: k != "session" ==> Get(d, k) == Get(Data(args, encode, reprOf), k)
  {
  }

  /** The form of a call after login decodes back to the UTF-8 bytes of its data, field by field. */
  lemma FormDecodesData(args: Args, encode: bool, reply: Json.Value, reprOf: Json.Value -> string)
    ensures var d := CallDataFixed(args, encode, Session(reply), reprOf);
            FormEncoding.FormDecode(FormEncoding.Urlencode(d)) == Some(FormEncoding.EncodedPairs(d))
  {
    var d := CallDataFixed(args, encode, Session(reply), reprOf);
    assert Get(d, "session").Some?;
    FormEncoding.UrlencodeRoundTrip(d);
  }

  /** A POST request: the URL and the form data, whose bytes on the wire are `Body(data)`. */
  datatype Post = Post(url: string, data: Dict)

  /** `urlencode(data).encode('utf-8')`. */
  function Body(data: Dict): seq<byte>
  {
    FormEncoding.Utf8(FormEncoding.Urlencode(data))
  }

  /** A method name as attribute syntax allows it: a Python identifier. */
  predicate Identifier(name: string)
  {
    |name| > 0 && !('0' <= name[0] <= '9')
    && forall k :: 0 <= k < |name| ==> 'a' <= name[k] <= 'z' || 'A' <= name[k] <= 'Z' || '0' <= name[k] <= '9' || name[k] == '_'
  }

  lemma IdentifierIsName(name: string)
    requires Identifier(name)
    ensures Urls.Name(name)
  {
    assert name[0] != '/' && name[0] != '.';
    assert ':' !in name && '?' !in name && '#' !in name && ';' !in name && '/' !in name;
    assert "."[0] == '.' && ".."[0] == '.';
  }

  /** The name of the login call. */
  const LoginName: string := "login"

  lemma LoginIdentifier()
    ensures Identifier(LoginName)
  {
    assert forall k :: 0 <= k < |LoginName| ==> 'a' <= LoginName[k] <= 'z';
  }

  lemma LoginArgsUnique(username: string, password: string)
    ensures UniqueNames(LoginArgs(username, password))
  {
    assert "username"[0] != "password"[0];
  }

  /** The request `_call` posts, as written: the form, with its `session` field, to the call's URL. */
  function CallPost(urlBase: string, name: string, args: Args, encode: bool, session: SessionAttr, wrapperRepr: string, reprOf: Json.Value -> string): Post
    requires Urls.HttpUrl(urlBase) && Identifier(name)
  {
    Post(CallUrl(urlBase, name), CallData(args, encode, session, wrapperRepr, reprOf))
  }

  /** The login request, posted before any session exists, so its `session` field is the wrapper's text. */
  function LoginPost(urlBase: string, username: string, password: string, wrapperRepr: string, reprOf: Json.Value -> string): Post
    requires Urls.HttpUrl(urlBase)
  {
    LoginIdentifier();
    CallPost(urlBase, LoginName, LoginArgs(username, password), false, Unset, wrapperRepr, reprOf)
  }

  /** `urljoin('http://' + host, 'api/')`, the base of every call. */
  function UrlBase(host: string): (r: string)
    ensures Urls.HttpUrl(r)
  {
    assert Urls.PlainRef("api/") by {
      assert "api/"[0] == 'a';
    }
    Urls.UrlJoin("http://" + host, "api/")
  }

  /** The URL of a call: `urljoin(url_base, name)`. */
  function CallUrl(urlBase: string, name: string): string
    requires Urls.HttpUrl(urlBase) && Identifier(name)
  {
    IdentifierIsName(name);
    Urls.UrlJoin(urlBase, name)
  }

  /** For a bare host every call goes to `http://<host>/api/<name>`. */
  lemma CallUrlOfHost(host: string, name: string)
    requires Urls.BareHost(host) && Identifier(name)
    ensures UrlBase(host) == "http://" + host + "/api/"
    ensures CallUrl(UrlBase(host), name) == "http://" + host + "/api/" + name
  {
    Urls.ApiBase(host);
    IdentifierIsName(name);
    Urls.ApiCall(host, name);
  }

  /** The attributes the instance and its class define, which `__getattr__` never sees: its fields, `_call` and the dunder names. */
  predicate Defined(name: string)
  {
    name == "url_base" || name == "session" || name == "_call" || (|name| >= 2 && name[..2] == "__")
  }

  class PyloadConnection {
    /** `self.url_base`. */
    const urlBase: string
    /** Python's `repr` of a decoded list or dict. */
    const reprOf: Json.Value -> string
    /** The text `urlencode` gives the `wrapper` function that `__getattr__` returns. */
    const wrapperRepr: string
    /** `self.session`. */
    var session: SessionAttr
    /** The requests posted, in order. */
    var posts: seq<Post>

    predicate Valid()
      reads this
    {
      Urls.HttpUrl(urlBase) && session.Session?
    }

    /**
     * `__init__`: the base URL from the host, then the login call, its data
     * unencoded and, as written, carrying the wrapper's text as `session`,
     * and its decoded `loginReply` stored as the session.
     */
    constructor(host: string, username: string, password: string, loginReply: Json.Value, wrapperRepr: string, reprOf: Json.Value -> string)
      ensures urlBase == UrlBase(host) && this.reprOf == reprOf && this.wrapperRepr == wrapperRepr
      ensures posts == [LoginPost(urlBase, username, password, wrapperRepr, reprOf)]
      ensures session == Session(loginReply)
      ensures Valid()
    {
      urlBase := UrlBase(host);
      this.reprOf := reprOf;
      this.wrapperRepr := wrapperRepr;
      session := Unset;
      posts := [];
      new;
      LoginIdentifier();
      LoginArgsUnique(username, password);
      var reply := Call(LoginName, LoginArgs(username, password), false, loginReply);
      session := Session(reply);
    }

    /**
     * `_call(name, args, encode)`: posts the form to the call's URL and
     * returns the decoded reply. `hasattr(self, 'session')` always holds, so
     * the form always gets a `session` field: the stored reply's text, or
     * the wrapper's before login.
     */
    method Call(name: string, args: Args, encode: bool, reply: Json.Value) returns (r: Json.Value)
      requires Urls.HttpUrl(urlBase) && Identifier(name) && UniqueNames(args)
      modifies this
      ensures posts == old(posts) + [CallPost(urlBase, name, args, encode, session, wrapperRepr, reprOf)]
      ensures session == old(session) && r == reply
    {
      var url := CallUrl(urlBase, name);
      var data;
      if encode {
        data := EncodeArgs(args);
      } else {
        data := Unencoded(args, reprOf);
      }
      var text := if session.Session? then PyStr(session.reply, reprOf) else wrapperRepr;
      data := DictSet(data, "session", text);
      posts := posts + [Post(url, data)];
      r := reply;
    }

    /**
     * `getattr(self, name)(**kwargs)` for a name the class does not define:
     * an encoded call of that name. After login its form is the intended
     * one, the stored session attached.
     */
    method Invoke(name: string, kwargs: Args, reply: Json.Value) returns (r: Json.Value)
      requires Valid() && Identifier(name) && !Defined(name) && UniqueNames(kwargs)
      modifies this
      ensures Valid()
      ensures posts == old(posts) + [CallPost(urlBase, name, kwargs, true, session, wrapperRepr, reprOf)]
      ensures posts[|posts| - 1].data == CallDataFixed(kwargs, true, session, reprOf)
      ensures session == old(session) && r == reply
    {
      r := Call(name, kwargs, true, reply);
      SessionAttached(kwargs, true, session.reply, wrapperRepr, reprOf);
    }
  }
}
