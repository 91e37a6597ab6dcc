/**
 * How the main window of the current package hands a hoster link on:
 * whether it is first unrestricted through real-debrid, which download
 * manager receives it, the command lines for the external managers and
 * how `QProcess` splits them into arguments, the process success rule,
 * the built-in download's file name, and the version read from
 * `__init__.py`.
 */
module Dispatch {
  import opened Wrappers
  import Strings

  const RealDebridHost: string := "real-debrid.com"

  /** A link is unrestricted first exactly when a real-debrid token is set and the link is not already a real-debrid one. */
  predicate NeedsUnrestrict(token: string, link: string)
  {
    |token| > 0 && !Strings.Contains(link, RealDebridHost)
  }

  /** The settings `download_link` reads. */
  datatype Config = Config(token: string, manager: string, kgetCmd: string, persepolisCmd: string, idmExePath: string)

  /** Where a link goes: back through real-debrid, or to one of the managers. */
  datatype Route =
    | Unrestrict
    | Aria2Rpc
    | PyloadApi
    | External(command: string)
    | Idm(command: string)
    | SaveDialog(suggested: string)
    | Clipboard(text: string)

  /** `'{0} "{1}"'.format(provider, link)`. */
  function ExternalCommand(provider: string, link: string): string
  {
    provider + " \"" + link + "\""
  }

  /** `'"%s" /n /d "%s"' % (idm_exe_path, link)`. */
  function IdmCommand(exe: string, link: string): string
  {
    "\"" + exe + "\" /n /d \"" + link + "\""
  }

  /** `link.split('/')[-1]`: the name the save dialog proposes. */
  function SuggestedFileName(link: string): (r: string)
    ensures '/' !in r
  {
    var parts := Strings.Split(link, '/');
    parts[|parts| - 1]
  }

  /** The name proposed is the text after the last `/` of the link, or the whole link when it has none. */
  lemma SuggestedIsLastSegment(link: string)
    ensures var r := SuggestedFileName(link);
            |r| <= |link| && link[|link| - |r|..] == r && (|r| < |link| ==> link[|link| - |r| - 1] == '/')
  {
    Strings.LastSegment(link, '/');
  }

  /** `download_link(link)`. */
  function DownloadRoute(cfg: Config, link: string): Route
  {
    if NeedsUnrestrict(cfg.token, link) then Unrestrict
    else if cfg.manager == "aria2" then Aria2Rpc
    else if cfg.manager == "pyload" then PyloadApi
    else if cfg.manager == "kget" || cfg.manager == "persepolis" then
      External(ExternalCommand(if cfg.manager == "kget" then cfg.kgetCmd else cfg.persepolisCmd, link))
    else if cfg.manager == "idm" then Idm(IdmCommand(cfg.idmExePath, link))
    else SaveDialog(SuggestedFileName(link))
  }

  /** `copy_download_link(link)`. */
  function CopyRoute(cfg: Config, link: string): Route
  {
    if NeedsUnrestrict(cfg.token, link) then Unrestrict else Clipboard(link)
  }

  /** The routing table: each manager name selects its own path, anything else the save dialog. */
  lemma RouteByManager(cfg: Config, link: string)
    requires !NeedsUnrestrict(cfg.token, link)
    ensures DownloadRoute(cfg, link).Aria2Rpc? <==> cfg.manager == "aria2"
    ensures DownloadRoute(cfg, link).PyloadApi? <==> cfg.manager == "pyload"
    ensures DownloadRoute(cfg, link).External? <==> cfg.manager == "kget" || cfg.manager == "persepolis"
    ensures DownloadRoute(cfg, link).Idm? <==> cfg.manager == "idm"
    ensures DownloadRoute(cfg, link).SaveDialog? <==>
            cfg.manager !in {"aria2", "pyload", "kget", "persepolis", "idm"}
  {
  }

  /** The real-debrid reply re-enters `download_link` or `copy_download_link` with a real-debrid link, which is never unrestricted again. */
  lemma UnrestrictedGoesThrough(cfg: Config, link: string)
    requires Strings.Contains(link, RealDebridHost)
    ensures !DownloadRoute(cfg, link).Unrestrict? && CopyRoute(cfg, link) == Clipboard(link)
  {
  }

  // ---------------------------------------------------------------- running a command

  datatype ProcessState = NotRunning | Starting | Running
  datatype ExitStatus = NormalExit | CrashExit

  /** What `cmdexec` did with the command: whether it started the process, and whether it reports success. */
  datatype Run = Run(started: bool, ok: bool)

  /**
   * `cmdexec`: the process is started only when it is idle and then waited
   * for; success is a normal exit with code 0, and a process left unstarted
   * is a failure.
   */
  function CmdExec(state: ProcessState, status: ExitStatus, code: int): (r: Run)
    ensures r.started <==> state == NotRunning
    ensures r.ok ==> r.started
    ensures r.ok <==> r.started && status == NormalExit && code == 0
  {
    if state == NotRunning then Run(true, status == NormalExit && code == 0) else Run(false, false)
  }

  /** The state of the `QProcess` that `cmdexec` creates for each command. */
  const FreshProcess: ProcessState := NotRunning

  /** A fresh process is idle, so every command starts, and only its exit decides success. */
  lemma FreshProcessStarts(status: ExitStatus, code: int)
    ensures CmdExec(FreshProcess, status, code).started
    ensures CmdExec(FreshProcess, status, code).ok <==> status == NormalExit && code == 0
  {
  }

  /** What the user sees after a manager command ran, or the exception that stopped the handler. */
  datatype Outcome = Queued | NothingShown | ErrorShown | Raised(error: string)

  /**
   * As written: KGet and Persepolis stay silent on failure, and the IDM
   * failure branch reads `self.idm`, which is never assigned, so it raises
   * `AttributeError` before the cursor is restored and before any error box.
   */
  function CommandOutcome(route: Route, ok: bool): (r: Outcome)
    requires route.External? || route.Idm?
    ensures r == Queued <==> ok
    ensures r.Raised? <==> route.Idm? && !ok
    ensures r.Raised? ==> r.error == "AttributeError"
    ensures r == NothingShown <==> route.External? && !ok
  {
    if ok then Queued else if route.Idm? then Outcome.Raised("AttributeError") else NothingShown
  }

  /** A failing IDM command ends `download_link` with `AttributeError`. */
  lemma IdmFailureRaises(exe: string, link: string)
    ensures CommandOutcome(Idm(IdmCommand(exe, link)), false) == Outcome.Raised("AttributeError")
    ensures CommandOutcome(Idm(IdmCommand(exe, link)), false) != ErrorShown
  {
  }

  /** As intended: the IDM failure branch closes the hosters window and shows its error box. */
  function CommandOutcomeFixed(route: Route, ok: bool): (r: Outcome)
    requires route.External? || route.Idm?
    ensures !r.Raised?
    ensures r == Queued <==> ok
    ensures r == ErrorShown <==> route.Idm? && !ok
  {
    if ok then Queued else if route.Idm? then ErrorShown else NothingShown
  }

  /** The corrected outcome differs from the code exactly on an IDM failure. */
  lemma OutcomeFixAgrees(route: Route, ok: bool)
    requires route.External? || route.Idm?
    ensures CommandOutcome(route, ok) == CommandOutcomeFixed(route, ok) <==> !(route.Idm? && !ok)
  {
  }

  /** The built-in download `download_link` starts: the link fetched and the file written. */
  datatype DirectDownload = DirectDownload(link: string, path: string)

  /**
   * The save-dialog branch after `getSaveFileName` returned `dlpath`: a
   * `DownloadThread` for the link and that path, or nothing when the dialog
   * was cancelled and returned the empty path.
   */
  function SaveDialogOutcome(link: string, dlpath: string): (r: Option<DirectDownload>)
    ensures r.Some? <==> dlpath != ""
    ensures r.Some? ==> r.value.link == link && r.value.path == dlpath
  {
    if dlpath != "" then Some(DirectDownload(link, dlpath)) else None
  }

  /**
   * With no manager configured, a link that needs no unrestriction goes to
   * the save dialog, which proposes its last segment; a chosen path starts
   * the built-in download of the link, unchanged, into that path.
   */
  lemma BuiltinDownloadsLink(cfg: Config, link: string, dlpath: string)
    requires !NeedsUnrestrict(cfg.token, link)
    requires cfg.manager !in {"aria2", "pyload", "kget", "persepolis", "idm"}
    ensures DownloadRoute(cfg, link) == SaveDialog(SuggestedFileName(link))
    ensures dlpath != "" ==> SaveDialogOutcome(link, dlpath) == Some(DirectDownload(link, dlpath))
    ensures dlpath == "" ==> SaveDialogOutcome(link, dlpath) == None
  {
  }

  // ---------------------------------------------------------------- QProcess argument splitting

  /**
   * How Qt 5's `QProcess::start(command)` cuts a command into program and
   * arguments: white space separates tokens outside double quotes, a double
   * quote opens or closes a quoted part, three in a row stand for a quote.
   */
  datatype SplitState = SplitState(args: seq<string>, token: string, quotes: nat, inQuote: bool)

  const Start: SplitState := SplitState([], "", 0, false)

  function SplitStep(st: SplitState, c: char): SplitState
  {
    if c == '"' then
      if st.quotes + 1 == 3 then st.(quotes := 0, token := st.token + ['"']) else st.(quotes := st.quotes + 1)
    else
      var st1 := if st.quotes == 1 then st.(inQuote := !st.inQuote, quotes := 0) else st.(quotes := 0);
      if !st1.inQuote && Strings.IsSpace(c) then
        if |st1.token| > 0 then st1.(args := st1.args + [st1.token], token := "") else st1
      else st1.(token := st1.token + [c])
  }

  function SplitRun(st: SplitState, s: string): SplitState
    decreases |s|
  {
    if |s| == 0 then st else SplitRun(SplitStep(st, s[0]), s[1..])
  }

  /** The tokens found, the last one included. */
  function Flush(st: SplitState): seq<string>
  {
    if |st.token| > 0 then st.args + [st.token] else st.args
  }

  function SplitCommand(cmd: string): seq<string>
  {
    Flush(SplitRun(Start, cmd))
  }

  lemma {:induction false} RunConcat(st: SplitState, a: string, b: string)
    ensures SplitRun(st, a + b) == SplitRun(SplitRun(st, a), b)
    decreases |a|
  {
    if |a| > 0 {
      assert (a + b)[0] == a[0];
      assert (a + b)[1..] == a[1..] + b;
      RunConcat(SplitStep(st, a[0]), a[1..], b);
    } else {
      assert a + b == b;
    }
  }

  /** Text without quotes leaves the splitter outside quotes. */
  lemma {:induction false} OutsideQuotes(st: SplitState, t: string)
    requires st.quotes == 0 && !st.inQuote && '"' !in t
    ensures SplitRun(st, t).quotes == 0 && !SplitRun(st, t).inQuote
    decreases |t|
  {
    if |t| > 0 {
      OutsideQuotes(SplitStep(st, t[0]), t[1..]);
    }
  }

  /** Inside quotes, text without quotes is taken as it is, spaces included. */
  lemma {:induction false} InsideQuotes(st: SplitState, t: string)
    requires st.quotes == 0 && st.inQuote && '"' !in t
    ensures SplitRun(st, t) == st.(token := st.token + t)
    decreases |t|
  {
    if |t| > 0 {
      InsideQuotes(SplitStep(st, t[0]), t[1..]);
      assert st.token + [t[0]] + t[1..] == st.token + t;
    }
  }

  /** A word without quotes or spaces outside quotes extends the current token. */
  lemma {:induction false} OutsideWord(st: SplitState, w: string)
    requires st.quotes == 0 && !st.inQuote && '"' !in w
    requires forall k :: 0 <= k < |w| ==> !Strings.IsSpace(w[k])
    ensures SplitRun(st, w) == st.(token := st.token + w)
    decreases |w|
  {
    if |w| > 0 {
      OutsideWord(SplitStep(st, w[0]), w[1..]);
      assert st.token + [w[0]] + w[1..] == st.token + w;
    }
  }

  /** A quoted non-empty text read from outside quotes: the splitter ends inside the token, one quote pending. */
  lemma QuotedText(st: SplitState, x: string)
    requires st.quotes == 0 && !st.inQuote && st.token == ""
    requires |x| > 0 && '"' !in x
    ensures SplitRun(st, "\"" + x + "\"") == st.(token := x, quotes := 1, inQuote := true)
  {
    var s1 := SplitStep(st, '"');
    assert s1 == st.(quotes := 1);
    var s2 := SplitStep(s1, x[0]);
    assert s2 == st.(inQuote := true, token := [x[0]]);
    InsideQuotes(s2, x[1..]);
    assert [x[0]] + x[1..] == x;
    RunConcat(st, "\"", x);
    RunConcat(s1, [x[0]], x[1..]);
    assert [x[0]] + x[1..] == x;
    RunConcat(st, "\"" + x, "\"");
  }

  /** A space after the closing quote closes the quoted part and ends the token. */
  lemma CloseAndSeparate(st: SplitState)
    requires st.quotes == 1 && st.inQuote && |st.token| > 0
    ensures SplitRun(st, " ") == st.(args := st.args + [st.token], token := "", quotes := 0, inQuote := false)
  {
    assert Strings.IsSpace(' ');
  }

  /** A word followed by a space, outside quotes with no token open, becomes the next argument. */
  lemma WordThenSpace(st: SplitState, w: string)
    requires st.quotes == 0 && !st.inQuote && st.token == ""
    requires |w| > 0 && '"' !in w && forall k :: 0 <= k < |w| ==> !Strings.IsSpace(w[k])
    ensures SplitRun(st, w + " ") == st.(args := st.args + [w])
  {
    OutsideWord(st, w);
    RunConcat(st, w, " ");
    assert Strings.IsSpace(' ');
    assert "" + w == w;
  }

  /**
   * The KGet and Persepolis command runs the program and options the
   * provider setting lists, then the link as one argument, spaces and all.
   */
  lemma ExternalArguments(provider: string, link: string)
    requires '"' !in provider && '"' !in link && |link| > 0
    ensures SplitCommand(ExternalCommand(provider, link)) == SplitCommand(provider) + [link]
  {
    var r := SplitRun(Start, provider);
    OutsideQuotes(Start, provider);
    var s1 := SplitRun(r, " ");
    assert Strings.IsSpace(' ');
    assert s1 == SplitState(Flush(r), "", 0, false);
    QuotedText(s1, link);
    RunConcat(Start, provider, " ");
    RunConcat(Start, provider + " ", "\"" + link + "\"");
    assert ExternalCommand(provider, link) == provider + " " + ("\"" + link + "\"");
  }

  /** The IDM command runs the executable with `/n`, `/d` and the link as one argument. */
  lemma IdmArguments(exe: string, link: string)
    requires '"' !in exe && '"' !in link && |exe| > 0 && |link| > 0
    ensures SplitCommand(IdmCommand(exe, link)) == [exe, "/n", "/d", link]
  {
    var q := "\"" + exe + "\"";
    QuotedText(Start, exe);
    var s1 := SplitRun(Start, q);
    CloseAndSeparate(s1);
    var s2 := SplitRun(s1, " ");
    assert s2 == SplitState([exe], "", 0, false);
    WordThenSpace(s2, "/n");
    var s3 := SplitRun(s2, "/n ");
    WordThenSpace(s3, "/d");
    var s4 := SplitRun(s3, "/d ");
    assert s4 == SplitState([exe, "/n", "/d"], "", 0, false);
    QuotedText(s4, link);
    RunConcat(Start, q, " ");
    RunConcat(Start, q + " ", "/n ");
    RunConcat(Start, q + " " + "/n ", "/d ");
    RunConcat(Start, q + " " + "/n " + "/d ", "\"" + link + "\"");
    assert IdmCommand(exe, link) == q + " " + "/n " + "/d " + ("\"" + link + "\"");
  }

  // ---------------------------------------------------------------- version

  const VersionKey: string := "__version__"

  /** The spaces ` *` matches at the front of `s` taken away. */
  function SkipSpaces(s: string): (r: string)
    ensures |r| <= |s| && s[|s| - |r|..] == r
    ensures |r| > 0 ==> r[0] != ' '
  {
    if |s| > 0 && s[0] == ' ' then SkipSpaces(s[1..]) else s
  }

  lemma SkipOne(t: string)
    requires |t| > 0 && t[0] != ' '
    ensures SkipSpaces(" " + t) == t
  {
    assert (" " + t)[1..] == t;
  }

  /**
   * `re.match("__version__ *= *'(.*)'", line)`: the group is everything
   * after the opening quote up to the last quote before the end of the
   * line, since `.` matches any character but a newline.
   */
  function MatchVersion(line: string): Option<string>
  {
    if |line| < |VersionKey| || line[..|VersionKey|] != VersionKey then None
    else
      var a := SkipSpaces(line[|VersionKey|..]);
      if |a| == 0 || a[0] != '=' then None
      else
        var b := SkipSpaces(a[1..]);
        if |b| == 0 || b[0] != '\'' then None
        else
          var body := b[1..][..Strings.FirstOf(b[1..], {'\n'})];
          var q := Strings.RFind(body, '\'');
          if q < 0 then None else Some(body[..q])
  }

  /** The first value present. */
  function FirstSome(ms: seq<Option<string>>): Option<string>
  {
    if |ms| == 0 then None else if ms[0].Some? then ms[0] else FirstSome(ms[1..])
  }

  lemma {:induction false} FirstSomeAt(ms: seq<Option<string>>, k: nat)
    requires forall j :: 0 <= j < k && j < |ms| ==> ms[j].None?
    ensures k < |ms| && ms[k].Some? ==> FirstSome(ms) == ms[k]
    ensures k >= |ms| ==> FirstSome(ms) == None
    decreases k
  {
    if k > 0 && |ms| > 0 {
      assert ms[0].None?;
      assert forall j :: 0 <= j < k - 1 && j < |ms[1..]| ==> ms[1..][j] == ms[j + 1];
      FirstSomeAt(ms[1..], k - 1);
    }
  }

  /** `get_version`: tries the lines in order and returns the group of the first that matches. */
  function GetVersion(lines: seq<string>): Option<string>
  {
    FirstSome(seq(|lines|, k requires 0 <= k < |lines| => MatchVersion(lines[k])))
  }

  /** The answer is the group of the first matching line, and None exactly when no line matches. */
  lemma GetVersionFirst(lines: seq<string>, k: nat)
    requires forall j :: 0 <= j < k && j < |lines| ==> MatchVersion(lines[j]).None?
    ensures k < |lines| && MatchVersion(lines[k]).Some? ==> GetVersion(lines) == MatchVersion(lines[k])
    ensures k >= |lines| ==> GetVersion(lines) == None
  {
    var ms := seq(|lines|, j requires 0 <= j < |lines| => MatchVersion(lines[j]));
    FirstSomeAt(ms, k);
  }

  /** A line as `__init__.py` writes it, `__version__ = '<v>'` and a newline, yields `v`. */
  lemma VersionLine(v: string)
    requires '\n' !in v
    ensures MatchVersion(VersionKey + " = '" + v + "'\n") == Some(v)
  {
    var line := VersionKey + " = '" + v + "'\n";
    assert line[..|VersionKey|] == VersionKey;
    assert line[|VersionKey|..] == " = '" + v + "'\n";
    VersionAfterKey(v);
    VersionQuoted(v);
    VersionBody(v);
  }

  lemma VersionQuoted(v: string)
    ensures SkipSpaces(" '" + v + "'\n") == "'" + v + "'\n"
  {
    SkipOne("'" + v + "'\n");
    assert " " + ("'" + v + "'\n") == " '" + v + "'\n";
  }

  lemma VersionBody(v: string)
    requires '\n' !in v
    ensures var r := ("'" + v + "'\n")[1..];
            var body := r[..Strings.FirstOf(r, {'\n'})];
            Strings.RFind(body, '\'') == |v| && body[..|v|] == v
  {
    var r := ("'" + v + "'\n")[1..];
    assert r == (v + "'") + "\n";
    Strings.FirstOfAfter(v + "'", "\n", {'\n'});
    assert Strings.FirstOf("\n", {'\n'}) == 0;
    var body := r[..|v| + 1];
    assert body == v + "'";
    assert body[..|v|] == v;
  }

  lemma VersionAfterKey(v: string)
    requires '\n' !in v
    ensures var a := SkipSpaces(" = '" + v + "'\n");
            |a| > 0 && a[0] == '=' && a[1..] == " '" + v + "'\n"
  {
    SkipOne("= '" + v + "'\n");
    assert " " + ("= '" + v + "'\n") == " = '" + v + "'\n";
  }
}
