/**
 * The main window of the older top-level `tvlinker.py`: which settings file
 * it reads, which manager settings it loads, how a hoster link is handed on
 * (always through real-debrid when a token is set), the real-debrid call
 * it makes itself, and the table bookkeeping of `add_row`, `filter_table`
 * and the page-count combo.
 */
module LegacyWindow {
  import opened Wrappers
  import Strings
  import Json
  import FormEncoding
  import Table
  import Dispatch
  import MainWindow
  import LegacyThreads

  // ---------------------------------------------------------------- settings file

  const ConfigDirName: string := ".tvlinker"
  const IniName: string := "tvlinker.ini"
  const SecretName: string := "tvlinker.ini.secret"

  /** `self.config_path`: the `.tvlinker` directory in the home directory. */
  function ConfigPath(home: string): string
  {
    Strings.PathJoin(home, ConfigDirName)
  }

  /**
   * `self.settings_path`: the `.ini.secret` file when it exists, otherwise
   * the plain `.ini`, each joined onto the module's own directory first.
   */
  function SettingsPath(moduleDir: string, home: string, secretExists: bool): string
  {
    var ini := Strings.PathJoin(moduleDir, Strings.PathJoin(ConfigPath(home), IniName));
    var secret := Strings.PathJoin(moduleDir, Strings.PathJoin(ConfigPath(home), SecretName));
    if secretExists then secret else ini
  }

  /**
   * For an absolute home directory the module directory plays no part: the
   * file is `~/.tvlinker/tvlinker.ini`, with `.secret` appended exactly when
   * that file exists.
   */
  lemma SettingsPathChoice(moduleDir: string, home: string, secretExists: bool)
    requires |home| > 0 && home[0] == '/'
    ensures SettingsPath(moduleDir, home, secretExists)
            == ConfigPath(home) + "/" + IniName + (if secretExists then ".secret" else "")
  {
    var cp := ConfigPath(home);
    if home[|home| - 1] == '/' {
      assert cp == home + ConfigDirName;
    } else {
      assert cp == home + "/" + ConfigDirName;
    }
    assert cp[0] == '/' && cp[|cp| - 1] == 'r';
    assert SecretName == IniName + ".secret";
    assert (cp + "/" + IniName)[0] == '/';
    assert (cp + "/" + SecretName)[0] == '/';
  }

  // ---------------------------------------------------------------- manager settings

  datatype PyloadConfig = PyloadConfig(host: string, username: string, password: string)

  /** What `init_settings` keeps; `pyload` and `idmExePath` are absent when never assigned. */
  datatype LegacyConfig = LegacyConfig(
    sourceUrl: string, userAgent: string, pagecount: int, token: string, manager: string,
    pyload: Option<PyloadConfig>, idmExePath: Option<string>)

  /**
   * `init_settings`, `value(key)` being the stored text of `key` and
   * `pagecount` the integer read from `dl_pagecount`: the pyLoad settings
   * load only for the manager written exactly `pyLoad`, the IDM path only
   * for exactly `IDM`.
   */
  function InitSettings(value: string -> string, pagecount: int): (c: LegacyConfig)
    ensures c.manager == value("download_manager") && c.token == value("realdebrid_apitoken")
    ensures c.pyload.Some? <==> value("download_manager") == "pyLoad"
    ensures c.pyload.Some? ==> c.pyload.value == PyloadConfig(value("pyload_host"), value("pyload_username"), value("pyload_password"))
    ensures c.idmExePath.Some? <==> value("download_manager") == "IDM"
    ensures c.idmExePath.Some? ==> c.idmExePath.value == value("idm_exe_path")
  {
    var manager := value("download_manager");
    LegacyConfig(
      value("source_url"), value("user_agent"), pagecount, value("realdebrid_apitoken"), manager,
      if manager == "pyLoad" then Some(PyloadConfig(value("pyload_host"), value("pyload_username"), value("pyload_password")))
      else None,
      if manager != "pyLoad" && manager == "IDM" then Some(value("idm_exe_path")) else None)
  }

  // ---------------------------------------------------------------- handing a link on

  /** The link after the optional real-debrid step: every link is unrestricted when a token is set. */
  function EffectiveLink(token: string, link: string, unrestricted: Option<string>): Option<string>
  {
    if |token| > 0 then unrestricted else Some(link)
  }

  /** What Python's `'%s' % x` prints for a value that may be None. */
  function PyText(o: Option<string>): string
  {
    if o.None? then "None" else o.value
  }

  /** What `download_link` does with a link. */
  datatype Action =
    | QueueAria2(uri: Option<string>)
    | QueuePyload(name: string, links: seq<Option<string>>)
    | RunIdm(command: string)
    | SaveDirect(suggested: string)
    | Failed(exception: string)

  /**
   * `download_link(link)`, `unrestricted` being what `unrestrict_link`
   * returns. The save dialog's `link.split('/')` fails on a missing link;
   * the pyLoad and IDM branches fail when their settings were never loaded.
   */
  function LegacyDownload(cfg: LegacyConfig, link: string, unrestricted: Option<string>): Action
  {
    var l := EffectiveLink(cfg.token, link, unrestricted);
    if cfg.manager == "aria2" then QueueAria2(l)
    else if cfg.manager == "pyLoad" then
      if cfg.pyload.None? then Failed("AttributeError") else QueuePyload("TVLinker", [l])
    else if cfg.manager == "IDM" then
      if cfg.idmExePath.None? then Failed("AttributeError")
      else RunIdm(Dispatch.IdmCommand(cfg.idmExePath.value, PyText(l)))
    else if l.None? then Failed("AttributeError")
    else SaveDirect(Dispatch.SuggestedFileName(l.value))
  }

  /** `copy_download_link(link)`: the clipboard text; PyQt turns a missing link into the empty text. */
  function LegacyCopy(token: string, link: string, unrestricted: Option<string>): string
  {
    var l := EffectiveLink(token, link, unrestricted);
    if l.None? then "" else l.value
  }

  /** The routing table of this generation: exact, case-sensitive manager names. */
  lemma LegacyRouteByManager(cfg: LegacyConfig, link: string, unrestricted: Option<string>)
    requires EffectiveLink(cfg.token, link, unrestricted).Some?
    requires cfg.pyload.Some? && cfg.idmExePath.Some?
    ensures LegacyDownload(cfg, link, unrestricted).QueueAria2? <==> cfg.manager == "aria2"
    ensures LegacyDownload(cfg, link, unrestricted).QueuePyload? <==> cfg.manager == "pyLoad"
    ensures LegacyDownload(cfg, link, unrestricted).RunIdm? <==> cfg.manager == "IDM"
    ensures LegacyDownload(cfg, link, unrestricted).SaveDirect? <==> cfg.manager !in {"aria2", "pyLoad", "IDM"}
  {
  }

  /** Settings loaded by `init_settings` never leave the pyLoad or IDM branch without its configuration. */
  lemma LoadedSettingsSuffice(value: string -> string, pagecount: int, link: string, unrestricted: Option<string>)
    requires EffectiveLink(value("realdebrid_apitoken"), link, unrestricted).Some?
    ensures !LegacyDownload(InitSettings(value, pagecount), link, unrestricted).Failed?
  {
  }

  /**
   * Unlike the current window, a link that is already a real-debrid one is
   * sent to real-debrid again whenever a token is set.
   */
  lemma RealDebridLinkUnrestrictedAgain(token: string, link: string, unrestricted: Option<string>)
    requires |token| > 0 && Strings.Contains(link, Dispatch.RealDebridHost)
    ensures EffectiveLink(token, link, unrestricted) == unrestricted
    ensures !Dispatch.NeedsUnrestrict(token, link)
  {
  }

  /** Without a token the link goes on untouched, to the clipboard as to every manager. */
  lemma NoTokenKeepsLink(cfg: LegacyConfig, link: string, unrestricted: Option<string>)
    requires |cfg.token| == 0
    ensures LegacyCopy(cfg.token, link, unrestricted) == link
    ensures cfg.manager == "aria2" ==> LegacyDownload(cfg, link, unrestricted) == QueueAria2(Some(link))
  {
  }

  /** A reply without a download link leaves the built-in download failing and the clipboard empty. */
  lemma LostLinkFails(cfg: LegacyConfig, link: string)
    requires |cfg.token| > 0 && cfg.manager !in {"aria2", "pyLoad", "IDM"}
    ensures LegacyDownload(cfg, link, None) == Failed("AttributeError")
    ensures LegacyCopy(cfg.token, link, None) == ""
  {
  }

  // ---------------------------------------------------------------- real-debrid call

  const ApiHost: string := "api.real-debrid.com"
  const UnrestrictPath: string := "/rest/1.0/unrestrict/link"

  /** `'link=%s' % quote_plus(link)`. */
  function UnrestrictBody(link: string): string
  {
    "link=" + FormEncoding.QuotePlus(link)
  }

  /** The request headers: the bearer token, the form content type and no caching. */
  function UnrestrictHeaders(token: string): (h: seq<(string, string)>)
    ensures |h| == 3 && h[0] == ("Authorization", "Bearer " + token)
  {
    [("Authorization", "Bearer " + token), ("Content-Type", "application/x-www-form-urlencoded"),
     ("Cache-Control", "no-cache")]
  }

  /** The hand-written body is what `urlencode({'link': link})` gives, the body the worker thread sends. */
  lemma UnrestrictBodyIsForm(link: string)
    ensures UnrestrictBody(link) == FormEncoding.Urlencode([(LegacyThreads.LinkKey, link)])
    ensures FormEncoding.Utf8(UnrestrictBody(link)) == LegacyThreads.UnrestrictRequest(ApiHost, "", link).body
  {
    FormEncoding.UrlencodeOne((LegacyThreads.LinkKey, link));
    LinkKeyQuoted();
    assert LegacyThreads.LinkKey + "=" == "link=";
  }

  lemma LinkKeyQuoted()
    ensures FormEncoding.QuotePlus(LegacyThreads.LinkKey) == LegacyThreads.LinkKey
  {
    FormEncoding.Utf8Ascii(LegacyThreads.LinkKey);
    assert FormEncoding.Utf8(LegacyThreads.LinkKey) == [0x6c, 0x69, 0x6e, 0x6b];
  }

  /** The body decodes to the one field `link`, holding the link. */
  lemma UnrestrictBodyDecodes(link: string)
    ensures FormEncoding.FormDecode(UnrestrictBody(link))
            == Some([(FormEncoding.Utf8(LegacyThreads.LinkKey), FormEncoding.Utf8(link))])
  {
    UnrestrictBodyIsForm(link);
    LegacyThreads.UnrestrictBodyCarriesLink(link);
  }

  /**
   * `unrestrict_link`'s reading of the reply, `doc` being the parsed
   * document (None when it is not JSON): the `download` value of an object
   * holding that key, through `toString`, which gives the empty text for a
   * value that is not a string; None in every other case.
   */
  function UnrestrictLink(doc: Option<Json.Value>): (r: Option<string>)
    ensures r.Some? <==> doc.Some? && doc.value.JObj? && Json.HasKey(doc.value.members, LegacyThreads.DownloadKey)
    ensures forall s :: doc.Some? && doc.value.JObj? && Json.Lookup(doc.value.members, LegacyThreads.DownloadKey) == Some(Json.JStr(s))
                        ==> r == Some(s)
  {
    if doc.None? || !doc.value.JObj? then None
    else
      match Json.Lookup(doc.value.members, LegacyThreads.DownloadKey)
      case None => None
      case Some(v) => Some(if v.JStr? then v.s else "")
  }

  /** The window and the worker thread read a string `download` value alike. */
  lemma UnrestrictAgreesWithThread(doc: Option<Json.Value>, s: string)
    requires doc.Some? && doc.value.JObj? && Json.Lookup(doc.value.members, LegacyThreads.DownloadKey) == Some(Json.JStr(s))
    ensures UnrestrictLink(doc) == Some(s) && LegacyThreads.UnrestrictResult(doc) == Ok(Some(s))
  {
  }

  // ---------------------------------------------------------------- the window

  /** `FixedSettings.linksPerPage`. */
  const LinksPerPage: nat := 30
  /** The items of the pages combo. */
  const PageCounts: seq<nat> := [10, 20, 30, 40]
  /** The default `maxpages` of `start_scraping`. */
  const DefaultPages: nat := 10

  /**
   * `QProgressBar::setValue(value)` on a bar whose range is 0 to `maximum`:
   * the value shown becomes `value` when it lies in the range, or whatever
   * it is when the range is 0 to 0; otherwise the call is ignored and the
   * bar keeps `current`.
   */
  function ProgressSet(maximum: int, current: nat, value: nat): nat
  {
    if maximum == 0 || value <= maximum then value else current
  }

  /** A bar with a positive maximum never shows more than it, and shows every value up to it. */
  lemma ProgressSetInRange(maximum: int, current: nat, value: nat)
    requires 0 < maximum && current <= maximum
    ensures ProgressSet(maximum, current, value) <= maximum
    ensures ProgressSet(maximum, current, value) == value <==> value <= maximum || value == current
  {
  }

  /**
   * With 5 stored pages the bar's maximum is 150: once the table passes 150
   * rows the bar stays where it was, though the scrape goes on.
   */
  lemma ProgressStopsAtMaximum()
    ensures ProgressSet(5 * LinksPerPage, 150, 151) == 150
    ensures ProgressSet(5 * LinksPerPage, 150, 300) == 150
  {
  }

  const MetaPrefix: string := "<div>Total number of links retrieved: <b>"
  const MetaSuffix: string := "</b></div>"
  /** The template `init_metabar` sets. */
  const LegacyTemplate: string := MetaPrefix + Table.Placeholder + MetaSuffix

  lemma MetaPrefixPlain()
    ensures '%' !in MetaPrefix
  {
  }

  lemma MetaSuffixPlain()
    ensures !Strings.Contains(MetaSuffix, Table.Placeholder)
  {
    assert '%' !in MetaSuffix;
    Strings.AbsentFirst(MetaSuffix, Table.Placeholder);
  }

  /** The label shows the row count between the bold tags. */
  lemma LegacyMetaShowsCount(rowCount: nat)
    ensures Table.MetaText(LegacyTemplate, rowCount) == MetaPrefix + Strings.NatToString(rowCount) + MetaSuffix
  {
    MetaPrefixPlain();
    MetaSuffixPlain();
    Table.MetaTextOf(MetaPrefix, MetaSuffix, rowCount);
  }

  /** `int(itemText(index))` reads back each combo entry's page count. */
  lemma ComboTextValue(index: nat)
    requires index < |PageCounts|
    ensures Strings.DigitsValue(Strings.NatToString(PageCounts[index])) == PageCounts[index]
  {
    Strings.NatToStringRoundTrip(PageCounts[index]);
  }

  /** The rows `filter_table` lists: those of the cells matching a non-empty text, none otherwise. */
  function LegacyValid(cells: Table.Cells, rowCount: nat, text: string): seq<nat>
  {
    if |text| > 0 then Table.Matches(cells, rowCount, text) else []
  }

  /** With the rows listed afresh, empty text shows every row and any other text exactly the rows with a matching cell. */
  lemma LegacyFilterShows(cells: Table.Cells, rowCount: nat, text: string, x: nat)
    requires x < rowCount
    ensures x !in Table.HiddenRows(rowCount, |text| > 0, LegacyValid(cells, rowCount, text)) <==>
            |text| == 0 || Table.RowMatches(cells, x, text)
  {
    Table.MatchesSpec(cells, rowCount, text);
  }

  /** The item loop of `add_row` on a table grown to `r + 1` rows; cells stay inside the four columns. */
  method FillRow(cells: Table.Cells, r: nat, texts: seq<string>) returns (cols: nat, out: Table.Cells)
    requires forall p: (nat, nat) :: p in cells ==> p.1 < Table.Columns
    ensures cols == |texts| && out == Table.AppendRow(cells, r, texts)
    ensures forall p: (nat, nat) :: p in out ==> p.0 <= r && p.1 < Table.Columns
  {
    cols, out := MainWindow.PutItems(Table.Truncate(cells, r + 1), r, texts);
    Table.AppendRowBounds(cells, r, texts);
  }

  class LegacyTVLinker {
    /** `self.meta_template`. */
    const metaTemplate: string
    var rows: nat
    var cols: nat
    var rowCount: nat
    var cells: Table.Cells
    var hidden: set<nat>
    /** The progress bar's maximum and value, the metabar's text. */
    var progressMaximum: int
    var progressValue: nat
    var metaText: string
    /** `maxpages` of the scrape thread last started. */
    var scrapePages: int

    /** The row counter runs at most one behind the table (after a row too short for its tooltip), and nothing lies outside the table. */
    predicate Valid()
      reads this
    {
      rows <= rowCount <= rows + 1
      && (0 < progressMaximum ==> progressValue <= progressMaximum)
      && (forall x :: x in hidden ==> x < rowCount)
      && (forall p: (nat, nat) :: p in cells ==> p.0 < rowCount && p.1 < Table.Columns)
    }

    /** `__init__`: the progress maximum from the stored page count, the metabar for an empty table, then the default scrape. */
    constructor(dlPagecount: int)
      ensures Valid()
      ensures rows == 0 && rowCount == 0 && cells == map[] && hidden == {}
      ensures progressMaximum == dlPagecount * LinksPerPage && progressValue == 0
      ensures metaTemplate == LegacyTemplate
      ensures metaText == Table.MetaText(metaTemplate, 0) && scrapePages == DefaultPages
    {
      metaTemplate := LegacyTemplate;
      rows, cols, rowCount := 0, 0, 0;
      cells, hidden := map[], {};
      progressMaximum := dlPagecount * LinksPerPage;
      metaText := Table.MetaText(LegacyTemplate, 0);
      progressValue := 0;
      scrapePages := DefaultPages;
    }

    /** `start_scraping(maxpages)`: the counter back to 0 and the table emptied, the progress reset, the thread started. */
    method StartScraping(maxpages: int)
      modifies this
      ensures Valid()
      ensures rows == 0 && rowCount == 0 && cells == map[] && hidden == {}
      ensures progressValue == 0 && scrapePages == maxpages
      ensures cols == old(cols) && progressMaximum == old(progressMaximum) && metaText == old(metaText)
    {
      rows := 0;
      if rowCount > 0 {
        cells := map[];
        rowCount := 0;
      }
      cells, hidden := map[], {};
      scrapePages := maxpages;
      progressValue := 0;
    }

    /** `update_pagecount(index)`: the maximum follows the chosen page count, and a scrape of that many pages starts. */
    method UpdatePagecount(index: nat)
      requires index < |PageCounts|
      modifies this
      ensures Valid()
      ensures progressMaximum == PageCounts[index] * LinksPerPage && scrapePages == PageCounts[index]
      ensures rows == 0 && rowCount == 0 && cells == map[] && progressValue == 0
    {
      ComboTextValue(index);
      var pagecount := Strings.DigitsValue(Strings.NatToString(PageCounts[index]));
      progressMaximum := pagecount * LinksPerPage;
      StartScraping(pagecount);
    }

    /**
     * `add_row(row)`: the table grows to `rows + 1` rows and the items go
     * into row `rows`, the title indented, with the metabar and progress
     * following the row count; a one-item row fails on its tooltip, which
     * reads `row[1]`, before anything is set.
     */
    method AddRow(row: seq<string>) returns (raised: Option<string>)
      requires Valid()
      modifies this
      ensures Valid()
      ensures rowCount == old(rows) + 1 && cols == (if |row| == 1 then 0 else |row|)
      ensures hidden == set x | x in old(hidden) && x < old(rows) + 1
      ensures |row| == 1 ==> raised == Some("IndexError") && rows == old(rows)
                             && cells == Table.Truncate(old(cells), old(rows) + 1)
      ensures |row| != 1 ==> raised == None && rows == old(rows) + 1
                             && cells == Table.AppendRow(old(cells), old(rows), Table.Decorate(row))
      ensures |row| >= 2 ==> metaText == Table.MetaText(metaTemplate, rows)
                             && progressValue == ProgressSet(progressMaximum, old(progressValue), rows)
      ensures |row| < 2 ==> metaText == old(metaText) && progressValue == old(progressValue)
      ensures progressMaximum == old(progressMaximum) && scrapePages == old(scrapePages)
    {
      var newHidden := set x | x in hidden && x < rows + 1;
      if |row| == 1 {
        cells, cols, rowCount, hidden := Table.Truncate(cells, rows + 1), 0, rows + 1, newHidden;
        return Some("IndexError");
      }
      var c, out := FillRow(cells, rows, Table.Decorate(row));
      if |row| >= 2 {
        metaText, progressValue := Table.MetaText(metaTemplate, rows + 1), ProgressSet(progressMaximum, progressValue, rows + 1);
      }
      cells, cols, rowCount, hidden := out, c, rows + 1, newHidden;
      rows := rows + 1;
      return None;
    }

    /** `filter_table(text)`: the rows matching a non-empty text are listed afresh, and every other row is hidden. */
    method FilterTable(text: string)
      requires Valid()
      modifies this
      ensures Valid()
      ensures hidden == Table.HiddenRows(rowCount, |text| > 0, LegacyValid(cells, rowCount, text))
      ensures rows == old(rows) && cols == old(cols) && rowCount == old(rowCount) && cells == old(cells)
      ensures progressMaximum == old(progressMaximum) && progressValue == old(progressValue)
      ensures metaText == old(metaText) && scrapePages == old(scrapePages)
    {
      var valid: seq<nat> := [];
      if |text| > 0 {
        var found := Table.Matches(cells, rowCount, text);
        var j := 0;
        while j < |found|
          invariant j <= |found| && valid == found[..j]
        {
          assert found[..j + 1] == found[..j] + [found[j]];
          valid := valid + [found[j]];
          j := j + 1;
        }
        assert found[..j] == found;
      }
      var h := hidden;
      var r: nat := 0;
      while r < rowCount
        invariant r <= rowCount
        invariant forall x: nat :: x in h <==> if x < r then |text| > 0 && x !in valid else x in hidden
      {
        if |text| > 0 && r !in valid {
          h := h + {r};
        } else {
          h := h - {r};
        }
        r := r + 1;
      }
      assert forall x: nat :: x in h <==> x in Table.HiddenRows(rowCount, |text| > 0, valid);
      hidden := h;
    }
  }
}
