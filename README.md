# TVLinker in Dafny

TVLinker is a desktop application. It scrapes a TV release blog into a table, looks up the hoster links of a post, and can unrestrict a link through real-debrid. It then hands the link on to a download manager (aria2 over JSON-RPC, pyLoad, KGet, Persepolis, IDM) or downloads it itself. This project models the decision and string rules at the core of the application, in both generations of its code:

- the current `tvlinker/` package: workers, main window, hoster dialog and settings dialog;
- the older top-level scripts: `threads.py`, `tvlinker.py`, `main.py`, `pyload.py` and `downloader.py`.

Network replies, parsed HTML posts, process exit states, file existence and the instant another thread raises a flag are all inputs. Emitted Qt signals are output sequences. The Qt table is a map from `(row, column)` to text, plus a set of hidden rows. Objects whose methods update fields in place are Dafny classes. Pure rules are functions with lemmas.

Modules, one per source file:

- `Workers` (workers.dfy): tvlinker/threads.py.
- `Dispatch` (dispatch.dfy): tvlinker/__main__.py, for routing, commands, `cmdexec` and `get_version`.
- `MainWindow` (mainwindow.dfy): tvlinker/__main__.py, for `add_row` and `filter_table`.
- `Hosters` (hosters.dfy): tvlinker/hosters.py.
- `SettingsDialog` (settings.dfy): tvlinker/settings.py.
- `LegacyThreads` (legacythreads.dfy): threads.py.
- `LegacyWindow` (legacywindow.dfy): tvlinker.py.
- `EarlyWindow` (earlywindow.dfy): main.py.
- `Pyload` (pyload.dfy): pyload.py.
- `Downloader` (downloader.dfy): downloader.py.

Shared helper modules:

- `Wrappers`: `Option`, a `Result` whose error is the name of the Python exception raised, and `byte`.
- `Strings`: Python's `replace`, `strip`, `rfind`, `split` and `os.path.join` on strings; ASCII case folding; decimal text.
- `Json`: `json.dumps` of the values the code sends, and unescaping of string literals.
- `FormEncoding`: UTF-8, `quote_plus`, `urlencode`, and form decoding as the inverse of `urlencode`.
- `Urls`: `urljoin` for the plain references the code resolves.
- `Sorting`: the ascending sort of the favourites list.
- `Table`: row decoration, `findItems` with `MatchContains`, row visibility and the metabar text.

## Model

| member | source | states |
|---|---|---|
| Workers.ProxyRoutes | tvlinker/threads.py:30-32 | an `http` or `https` request goes through `socks5://127.0.0.1:1080` exactly when ShadowSocks runs, and is direct otherwise |
| Workers.CredentialRule | tvlinker/threads.py:191-197 | the credential is `user:pass` when both are set, otherwise `token:secret` when a secret is set, otherwise `:` |
| Workers.CredentialRoundTrip | tvlinker/threads.py:191-201 | when the user name has no colon, splitting the credential at its first `:` gives back the chosen user and password |
| Workers.PayloadText | tvlinker/threads.py:200-202 | the JSON text sent is `{"jsonrpc": "2.0", "id": 1, "method": "aria2.addUri", "params": [cred, [link]]}`, members in that order |
| Workers.DumpsParams | tvlinker/threads.py:201 | the `params` member is the credential string followed by a one-element list holding the link |
| Workers.PayloadAscii | tvlinker/threads.py:202 | the UTF-8 body is byte for byte the JSON text, because `json.dumps` escapes every non-ASCII character |
| Workers.PayloadCarries | tvlinker/threads.py:200-202 | the credential and the link can be recovered unchanged from their JSON string literals |
| Workers.AddUriRequestParts | tvlinker/threads.py:198-204 | the request goes to `host:port/jsonrpc`: for a port without `:` or `/`, the host and the port can be read back from the URL, and the request carries the JSON content type and the payload bytes |
| Workers.UnreachableUnconfirmed | tvlinker/threads.py:203-213 | as written, a failed transport emits no confirmation, because the handler catches the requests library's `HTTPError`, which `urlopen` never raises (finding 2) |
| Workers.ConfirmationFixed | tvlinker/threads.py:203-213 | the intended rule: True exactly when the decoded reply is an object with a `result` key; False when the daemon cannot be reached |
| Workers.ConfirmationAgrees | tvlinker/threads.py:209 | whenever the daemon answers, the corrected rule and the code as written agree |
| Workers.SizeLabelAfterParen | tvlinker/threads.py:54-59 | for a stripped heading whose last `(` is at `r`, the label is the text strictly between that `(` and the final character, and empty when the `(` is one of the last two characters |
| Workers.SizeLabelOf | tvlinker/threads.py:54-59 | a stripped heading ending in `(SIZE)`, with no `(` in `SIZE`, yields `SIZE` |
| Workers.SizeLabelNoParen | tvlinker/threads.py:59 | with no `(`, the label is the whole stripped heading minus its last character |
| Workers.RowSignalsAreRows | tvlinker/threads.py:67-72 | the page loop emits nothing but rows |
| Workers.ScrapeWorker.constructor | tvlinker/threads.py:39-45 | a new worker keeps `maxpages`, takes the ShadowSocks proxy settings as its `proxy`, and is not complete |
| Workers.PageNumbers | tvlinker/threads.py:47-69 | the page numbers a scrape requests, `pagenum + 1` for each index of `range(n)`: `n` of them, the `i`-th being `i + 1` |
| Workers.ScrapeWorker.Begin | tvlinker/threads.py:47-74 | pages 1 to `maxpages` are requested in order until an interruption is seen before a page or a request raises; each page read emits one `addRow` per post, in document order, with the row `[time, href, title, size label]`; a raising request is the last one requested, its page adds no row, and `complete` and `workFinished` follow exactly when nothing raised and no interruption came |
| Workers.Written | tvlinker/threads.py:243-246 | the loop writes the longest prefix of chunks that are non-empty and not cancelled, and stops at the first chunk that is empty or cancelled |
| Workers.DownloadThread.constructor | tvlinker/threads.py:225-230 | a new download is not cancelled and takes the ShadowSocks proxy settings as its `proxy` |
| Workers.DownloadThread.DownloadFile | tvlinker/threads.py:235-255 | a failing request writes nothing and emits nothing; otherwise the file holds the written chunks concatenated, the counter is their total length, and one progress signal per chunk is emitted; `dlComplete` follows exactly when nothing raised, a stream that raises where it would end having been read to its end |
| Workers.ProgressRises | tvlinker/threads.py:248-250 | the progress counts strictly increase, and the last one is the length of the file written |
| Workers.Blocks | tvlinker/threads.py:240-243 | the response body is read in non-empty blocks of at most the block size |
| Workers.BlocksFlatten | tvlinker/threads.py:243 | the blocks concatenated are the body |
| Workers.UncancelledWritesAll | tvlinker/threads.py:240-248 | an uncancelled download of 8192-byte blocks writes the whole body |
| Workers.FlattenLength | tvlinker/threads.py:248 | the counter, summed chunk by chunk, is the length of what was written |
| Dispatch.RouteByManager | tvlinker/__main__.py:438-482 | once no unrestriction is needed, `aria2`, `pyload`, `kget`/`persepolis` and `idm` each select their own path, and every other value selects the save dialog |
| Dispatch.UnrestrictedGoesThrough | tvlinker/__main__.py:434-437 | a link that already contains `real-debrid.com` is never unrestricted again, neither for download nor for copying |
| Dispatch.ExternalArguments | tvlinker/__main__.py:455-457 | the KGet/Persepolis command `provider "link"` reaches the process as the provider's words followed by the link as one argument |
| Dispatch.IdmArguments | tvlinker/__main__.py:466-467 | the IDM command `"exe" /n /d "link"` reaches the process as exactly `[exe, /n, /d, link]` |
| Dispatch.CmdExec | tvlinker/__main__.py:515-526 | the command is started exactly when the process is idle; success implies it was started, and holds exactly when it then exited normally with code 0 |
| Dispatch.FreshProcessStarts | tvlinker/__main__.py:516 | the fresh `QProcess` of each call is idle, so the command always starts, and succeeds exactly on a normal exit with code 0 |
| Dispatch.CommandOutcome | tvlinker/__main__.py:458-480 | as written: the link counts as queued exactly when the command succeeded; a failed KGet or Persepolis command shows nothing, and a failed IDM command raises `AttributeError` |
| Dispatch.IdmFailureRaises | tvlinker/__main__.py:472-480 | a failed IDM command raises `AttributeError` on `self.idm` before any error box is shown (finding 8) |
| Dispatch.CommandOutcomeFixed | tvlinker/__main__.py:466-480 | the intended outcome: never raises; queued exactly when the command succeeded, and the IDM error box exactly when an IDM command failed |
| Dispatch.OutcomeFixAgrees | tvlinker/__main__.py:458-480 | the code as written and the correction differ exactly on a failed IDM command |
| Dispatch.SuggestedFileName | tvlinker/__main__.py:482 | the proposed file name holds no `/` |
| Dispatch.SuggestedIsLastSegment | tvlinker/__main__.py:482 | the proposed name is the text after the last `/` of the link, or the whole link when it has none |
| Dispatch.SaveDialogOutcome | tvlinker/__main__.py:482-485 | a download thread is made exactly when the dialog returned a non-empty path, and it fetches the link into that path |
| Dispatch.BuiltinDownloadsLink | tvlinker/__main__.py:438-485 | with no manager configured, a link needing no unrestriction goes to the save dialog with its last segment proposed, and a chosen path starts the download of the unchanged link into it |
| Dispatch.GetVersionFirst | tvlinker/__main__.py:574-579 | the version is the group captured on the first line that matches, and there is none when no line matches |
| Dispatch.VersionLine | tvlinker/__main__.py:577 | a line `__version__ = 'v'` yields `v` |
| Dispatch.SkipSpaces | tvlinker/__main__.py:577 | the ` *` of the pattern consumes a run of blanks: what is left is a suffix of the line that does not start with a blank |
| MainWindow.PutItems | tvlinker/__main__.py:340-356 | the item loop puts text `k` in column `k` of row `rows` and leaves `cols` at the row's length |
| MainWindow.TVLinker.constructor | tvlinker/__main__.py:150-162 | the window starts with no rows, an empty table and no `valid_rows`, and keeps the stored favourites and the filter button state |
| MainWindow.TVLinker.StartScraping | tvlinker/__main__.py:270-277 | the row counter and the table are emptied; nothing else changes |
| MainWindow.TVLinker.AddRow | tvlinker/__main__.py:334-357 | an interrupted scrape changes nothing; otherwise `cols` is reset and the table grows to `rows + 1` rows, then row `rows` gets the decorated row, `rows` grows by one and `cols` is the row's length; a one-item row raises `IndexError` on its tooltip's `row[1]` after the row count has grown, with `rows` and the cells unchanged |
| MainWindow.TVLinker.FilterTable | tvlinker/__main__.py:389-410 | as written: the search text is appended to the favourites themselves; matches are added to the `valid_rows` kept from the earlier call; with no filter every row is shown, and otherwise exactly the rows in `valid_rows` |
| MainWindow.TVLinker.FilterTableFresh | tvlinker/__main__.py:389-410 | the intended filter: fresh matches for the favourites plus the search text, and the favourites left alone |
| MainWindow.TVLinker.CollectMatches | tvlinker/__main__.py:400-402 | the loop appends the matching rows of every term, term by term |
| MainWindow.TVLinker.AppendRows | tvlinker/__main__.py:401-402 | the rows `findItems` returned are appended, in order, after the rows already collected |
| MainWindow.TVLinker.ShowRows | tvlinker/__main__.py:403-410 | the visibility loop hides exactly the rows outside `valid_rows`, and only while filtering |
| MainWindow.FreshFilterShows | tvlinker/__main__.py:403-410 | after a fresh filter a row is shown exactly when there are no filters or some filter matches one of its cells |
| MainWindow.StaleMatchShown | tvlinker/__main__.py:398-402 | searching `a` then `ab` still shows a row that matches only `a` (finding 6) |
| MainWindow.SearchBecomesFavorite | tvlinker/__main__.py:391-397 | with the favourites filter on, a search term stays among the favourites after the search is cleared (finding 7) |
| MainWindow.ClearedSearchFavorites | tvlinker/__main__.py:391-397 | an empty search text adds no filter |
| Table.UndecorateDecorate | tvlinker/__main__.py:344-351 | the decorated texts keep the whole row: taking the two-space indent off the title gives the row back |
| Table.DecorateInjective | tvlinker/__main__.py:344-351 | two different rows are never shown with the same texts |
| Table.PutRowSpec | tvlinker/__main__.py:354 | `setItem` fills only the cells of the given row inside the table's row count, and keeps every other cell |
| Table.AppendRowSpec | tvlinker.py:273 | filling row `r` puts text `c` in column `c`, keeps the rows above and adds nothing below |
| Table.TruncateTwice | tvlinker.py:263 | shrinking the table to `n` rows and then to `m` rows leaves what shrinking it once to the smaller count leaves |
| Table.TruncateKeeps | tvlinker.py:263 | `setRowCount(n)` on a table whose cells all lie in rows below `n` changes nothing |
| Table.MatchesSpec | main.py:175-176 | `findItems` lists a row exactly when it is in the table and one of its cells contains the text, ignoring ASCII case |
| Table.AllMatchesSpec | tvlinker/__main__.py:400-402 | the matches of several terms hold a row exactly when some term matches it |
| Table.MetaTextOf | main.py:110 | the metabar shows the template with its placeholder replaced by the row count |
| Hosters.HosterNameOfDomain | tvlinker/hosters.py:102-103 | `www.site.com` becomes `site` |
| Hosters.HosterNameUnchanged | tvlinker/hosters.py:103 | a host holding none of `www.`, `.com` and `.net` is kept as it is |
| Hosters.HosterNameSinglePass | tvlinker/hosters.py:103 | each removal is a single pass in fixed order: `.c.netom` becomes `.com`, so the rule is not idempotent |
| Hosters.FirstIndex | tvlinker/hosters.py:61 | `hosters.index` gives the first position holding the link |
| Hosters.BoxAt | tvlinker/hosters.py:60-84 | each group box carries a button id that points back to the same link |
| Hosters.DuplicateSharesId | tvlinker/hosters.py:60-84 | a repeated link gets the button id of its first occurrence |
| Hosters.ButtonCarriesItsLink | tvlinker/hosters.py:72-84 | every button id is a valid index whose link is the box's own link |
| Hosters.HosterLinks.constructor | tvlinker/hosters.py:26-38 | a new dialog has no hosters and an empty layout |
| Hosters.HosterLinks.ShowHosters | tvlinker/hosters.py:52-98 | `self.hosters` becomes the given list, and the layout gains the optional title followed by one box per link, in order |
| Hosters.HosterLinks.CopyLinkSlot | tvlinker/hosters.py:106-107 | button `i` emits `copyLink` with `hosters[i]` unchanged |
| Hosters.HosterLinks.DownloadLinkSlot | tvlinker/hosters.py:114-116 | button `i` emits `downloadLink` with `hosters[i]` unchanged |
| SettingsDialog.ApplyUntouched | tvlinker/settings.py:208-228 | a key the save does not write keeps its stored value, or stays absent |
| SettingsDialog.ApplyLast | tvlinker/settings.py:208-228 | a key written last holds the written value |
| SettingsDialog.ComboMatchesStack | tvlinker/settings.py:80-89 | on every platform the combo items and the settings pages come in the same order, so item `i` shows page `i` |
| SettingsDialog.FindText | tvlinker/settings.py:88-89 | `findText` with `MatchFixedString` gives the first item equal to the text ignoring case, or -1 |
| SettingsDialog.ManagerWritesShownPage | tvlinker/settings.py:213-228 | the manager keys written are exactly those of the page shown: five `aria2_rpc_*` keys, three `pyload_*` keys, one key for IDM, KGet or Persepolis, none for built-in |
| SettingsDialog.ManagerKeysDistinct | tvlinker/settings.py:210-228 | no manager page writes the token or the manager key |
| SettingsDialog.ComboItemsDistinct | tvlinker/settings.py:82-87 | no two combo items are equal ignoring case |
| SettingsDialog.ReopenAfterSave | tvlinker/settings.py:208-228 | after a full save, reopening the dialog selects the same manager and shows the same token |
| SettingsDialog.AbortedSaveKeepsManager | tvlinker/settings.py:211 | as written, without the proxy checkbox the save stops after the token, and the stored manager is unchanged (finding 4) |
| SettingsDialog.FixedSaveKeepsManager | tvlinker/settings.py:210-212 | the corrected save always stores the lower-cased manager name |
| SettingsDialog.GeneralTab.constructor | tvlinker/settings.py:58-89 | the proxy checkbox exists exactly when the stored token is non-empty, and the combo selects the stored manager |
| SettingsDialog.GeneralTab.Save | tvlinker/settings.py:208-228 | with the checkbox, every write is applied in order; without it, only the token is written before the `AttributeError` |
| SettingsDialog.GeneralTab.SaveFixed | tvlinker/settings.py:208-228 | the corrected save applies all of its writes, writing the proxy flag only when the checkbox exists |
| SettingsDialog.KeptTaken | tvlinker/settings.py:271-274 | deleting the selection splits the list into the kept and the taken items, together a permutation of the list |
| SettingsDialog.FavoritesRoundTrip | tvlinker/settings.py:294-299 | a non-empty list reads back as saved, and an empty list leaves the stored favourites as they were |
| SettingsDialog.FavoritesTab.constructor | tvlinker/settings.py:253-256 | the list shows the stored favourites, sorted |
| SettingsDialog.FavoritesTab.AddItems | tvlinker/settings.py:264-268 | the list gains the items and is sorted: a sorted permutation of the old list plus the new items |
| SettingsDialog.FavoritesTab.AddItem | tvlinker/settings.py:277-282 | non-empty text is added, the list sorted and the field cleared; empty text changes nothing |
| SettingsDialog.FavoritesTab.DeleteItems | tvlinker/settings.py:271-274 | exactly the selected items are removed, and the rest keep their order |
| SettingsDialog.FavoritesTab.Save | tvlinker/settings.py:294-299 | the list is stored in widget order when non-empty, and nothing is written otherwise |
| SettingsDialog.Settings.SaveSettings | tvlinker/settings.py:34-38 | the general save, then the favourites save, then the reload; an `AttributeError` in the first stops the other two |
| LegacyThreads.CleanSpec | threads.py:45-48 | a cleaned field holds no newline and neither starts nor ends with white space |
| LegacyThreads.CleanKeepsClean | threads.py:45-48 | cleaning leaves an already clean field unchanged |
| LegacyThreads.PostRowClean | threads.py:44-49 | no cell of a row holds a newline |
| LegacyThreads.FormatDropsTag | threads.py:48 | the format cell loses its `TV-` tag |
| LegacyThreads.PostRows | threads.py:41-50 | one row per `posts_table`, in document order |
| LegacyThreads.EmitRows | threads.py:42-51 | the inner loop appends the page's rows and counts them in `row` |
| LegacyThreads.PageRowsCount | threads.py:30-51 | with `lxml`, each page contributes exactly its number of posts |
| LegacyThreads.FallbackScrapesNothing | threads.py:37-40 | as written, a missing `lxml` parser off Windows leaves every page without rows (finding 5) |
| LegacyThreads.ParsedBytesFixed | threads.py:34-40 | the intended parse reads the body that was fetched, whichever parser is used |
| LegacyThreads.FixedFallbackScrapesPage | threads.py:37-40 | with the correction, the fallback parser sees the same page as `lxml` would |
| LegacyThreads.ScrapePages | threads.py:28-51 | pages 1 to `maxpages`, both included, are requested in order until `urlopen` raises; the rows are those of the pages read before, with `row` counting them, and the raising request is the last one requested |
| LegacyThreads.ScrapeThread.constructor | threads.py:19-23 | the thread keeps `maxpages` |
| LegacyThreads.ScrapeThread.ScrapeLinks | threads.py:28-51 | as `ScrapePages`, with the cleaned rows of `threads.py`, stopping at the first request that raises |
| LegacyThreads.GetHosterLinks | threads.py:79-82 | one `[img src, href]` pair per row of the download table, in order; no table raises `AttributeError` |
| LegacyThreads.FallbackHostersRaise | threads.py:75-79 | as written, the fallback parser sees no table, so the hoster lookup raises |
| LegacyThreads.UnrestrictRequest | threads.py:100-107 | the request goes to `<api>/unrestrict/link` with `Authorization: Bearer <token>`, and its body is the form `link=<link>` |
| LegacyThreads.UnrestrictBodyCarriesLink | threads.py:106 | the form body decodes back to the single field `link` holding the link |
| LegacyThreads.UnrestrictResult | threads.py:108-111 | emits the `download` string exactly when the reply object holds it, and nothing when the key is missing |
| LegacyThreads.LegacyDownloadWritesAll | threads.py:171-189 | an uncancelled download of 1024-byte blocks writes the whole body, and the counter is its length |
| LegacyWindow.SettingsPathChoice | tvlinker.py:97-105 | the settings file is `~/.tvlinker/tvlinker.ini.secret` when that file exists, otherwise `~/.tvlinker/tvlinker.ini` |
| LegacyWindow.InitSettings | tvlinker.py:107-119 | the manager and token are read; the pyLoad configuration exactly when the manager is `pyLoad`; the IDM path exactly when it is `IDM` |
| LegacyWindow.LegacyRouteByManager | tvlinker.py:316-352 | `aria2`, `pyLoad` and `IDM` each select their own path, and any other value selects the direct download |
| LegacyWindow.LoadedSettingsSuffice | tvlinker.py:113-119 | with the settings as loaded, a download of a usable link reaches its manager without failing |
| LegacyWindow.RealDebridLinkUnrestrictedAgain | tvlinker.py:318-319 | with a token set, even a real-debrid link is unrestricted again: this generation has no host check |
| LegacyWindow.NoTokenKeepsLink | tvlinker.py:360-361 | with no token, the link is copied and downloaded unchanged |
| LegacyWindow.LostLinkFails | tvlinker.py:345 | when the unrestrict reply has no `download`, the direct download raises `AttributeError` on `None.split`, and the clipboard gets nothing |
| LegacyWindow.UnrestrictHeaders | tvlinker.py:369-373 | three headers, the first `Authorization: Bearer <token>` |
| LegacyWindow.UnrestrictBodyIsForm | tvlinker.py:368 | `'link=' + quote_plus(link)` is the same body as `urlencode({'link': link})` in `threads.py` |
| LegacyWindow.UnrestrictBodyDecodes | tvlinker.py:368 | the body decodes back to the single field `link` holding the link |
| LegacyWindow.UnrestrictLink | tvlinker.py:377-382 | there is a link exactly when the reply is a JSON object with a `download` key, and it is that string |
| LegacyWindow.UnrestrictAgreesWithThread | tvlinker.py:377-382 | for a reply carrying a `download` string, the window and the thread of this generation return the same link |
| LegacyWindow.LegacyMetaShowsCount | tvlinker.py:199-203 | the metabar reads `Total number of links retrieved: <b>N</b>` for N rows |
| LegacyWindow.ComboTextValue | tvlinker.py:250 | `int(itemText(i))` gives back the page count listed at `i` |
| LegacyWindow.LegacyFilterShows | tvlinker.py:294-303 | empty text shows every row; otherwise a row is shown exactly when one of its cells contains the text |
| LegacyWindow.FillRow | tvlinker.py:264-275 | the item loop fills row `rows` column by column, and `cols` ends at the row's length |
| LegacyWindow.LegacyTVLinker.constructor | tvlinker.py:177-188 | the progress maximum is the page count times 30, and the table is empty |
| LegacyWindow.LegacyTVLinker.StartScraping | tvlinker.py:205-217 | the row counter, the table and the progress are reset, and `maxpages` pages are requested |
| LegacyWindow.LegacyTVLinker.UpdatePagecount | tvlinker.py:249-252 | the progress maximum becomes the chosen page count times 30, and scraping restarts with that count |
| LegacyWindow.LegacyTVLinker.AddRow | tvlinker.py:261-276 | row `rows` gets the decorated row and `rows` grows by one; a one-item row raises `IndexError` after the row count has grown; the metabar shows the new count, and the progress bar takes it only when it is within the bar's range, and otherwise stays, so it never passes a positive maximum |
| LegacyWindow.ProgressSetInRange | tvlinker.py:202 | `setValue` on a bar with a positive maximum never goes above it, and takes exactly the values within the range |
| LegacyWindow.ProgressStopsAtMaximum | tvlinker.py:179-180 | with 5 stored pages the bar stops at 150, though the table grows past 150 rows |
| LegacyWindow.LegacyTVLinker.FilterTable | tvlinker.py:294-303 | rows are hidden exactly when the text is non-empty and none of their cells matches it; nothing else changes |
| EarlyWindow.EarlyRowCount | main.py:136-137 | with `lxml`, each page contributes exactly its number of posts |
| EarlyWindow.EarlyFallbackScrapesNothing | main.py:131-134 | as written, a failing `lxml` parse leaves every page without rows (finding 5) |
| EarlyWindow.ShowsStep | main.py:146-161 | filling the next row makes the table show one more row |
| EarlyWindow.FillItems | main.py:148-160 | the item loop fills row `row` column by column, the title indented |
| EarlyWindow.FillPage | main.py:137-161 | once the table has grown by the page's post count, the page's rows are filled in order |
| EarlyWindow.ScrapePages | main.py:117-162 | pages 1 to `maxpages - 1` are requested until `urlopen` raises, and the table shows the rows of the pages read, in order, each holding the raw texts with only `TV-` taken out of the format and the title indented |
| EarlyWindow.EmptySearchMatchesFilledRows | main.py:173-176 | the empty text lists every row holding a cell |
| EarlyWindow.EarlyFilterShows | main.py:173-181 | a row is shown exactly when one of its cells contains the text |
| EarlyWindow.EarlyTVLinker.constructor | main.py:100-111 | an empty table, with the metabar showing 0 |
| EarlyWindow.EarlyTVLinker.ScrapeLinks | main.py:117-166 | the table is emptied, then refilled from pages 1 to `maxpages - 1` up to the first request that raises; the metabar shows the final count, except that a scrape raising before any row keeps the old metabar text |
| EarlyWindow.EarlyTVLinker.FilterTable | main.py:172-182 | exactly the rows without a matching cell are hidden, and the metabar is refreshed |
| Pyload.DictSet | pyload.py:26 | `data[key] = value` sets the key, keeps every other key, and appends a new key at the end |
| Pyload.EncodedKeepsArguments | pyload.py:23-26 | encoding keeps the keys and their order and replaces each value by its JSON text; a string value decodes back |
| Pyload.EncodeArgs | pyload.py:23-26 | the loop builds exactly the encoded arguments |
| Pyload.LoginCarriesWrapper | pyload.py:29-30 | as written, the login form carries `session` = the repr of the `__getattr__` wrapper (finding 3) |
| Pyload.FixedLoginCarriesNoSession | pyload.py:19 | the intended login form is exactly `username`, `password`, with no `session` |
| Pyload.SessionAttached | pyload.py:29-30 | after login every call carries the session reply, and all other keys are unchanged; here the code and the fix agree |
| Pyload.FormDecodesData | pyload.py:31 | the form body decodes back to the call's fields |
| Pyload.UrlBase | pyload.py:17 | the base is an absolute `http` URL |
| Pyload.CallUrlOfHost | pyload.py:17-22 | for a plain host, the base is `http://host/api/` and a call goes to `http://host/api/<name>` |
| Pyload.PyloadConnection.constructor | pyload.py:16-19 | as written, the connection posts the unencoded login to `<base>login` with the repr of the `__getattr__` wrapper as `session`, and stores the reply as its session |
| Pyload.PyloadConnection.Call | pyload.py:21-32 | one post to `urljoin(base, name)` with the call's form data and the session, or the wrapper's repr before login; the session is unchanged and the reply is returned |
| Pyload.PyloadConnection.Invoke | pyload.py:34-37 | an undefined attribute name becomes a call with its keyword arguments JSON-encoded |
| Urls.ApiBase | pyload.py:17 | `urljoin('http://host', 'api/')` is `http://host/api/` |
| Urls.ApiCall | pyload.py:22 | `urljoin('http://host/api/', name)` is `http://host/api/name` |
| FormEncoding.UrlencodeRoundTrip | pyload.py:31 | decoding the form built by `urlencode` gives back the UTF-8 bytes of every field, in order |
| Downloader.MachineCodeKeys | downloader.py:72-84 | the code is a table key exactly on win32 or linux with a machine ending in `86` or `64`; it is `macOS` exactly on darwin |
| Downloader.AriaClientsKeys | downloader.py:47-69 | the table has exactly the keys darwin, linux32, linux64, win32 and win64 |
| Downloader.DarwinEntry | downloader.py:49-52 | darwin installs `bin/aria2c` from `bin/macOS/aria2c.zip` |
| Downloader.Linux32Entry | downloader.py:53-56 | linux32 installs `bin/aria2c` from `bin/linux32/aria2c.zip` |
| Downloader.Linux64Entry | downloader.py:57-60 | linux64 installs `bin/aria2c` from `bin/linux64/aria2c.zip` |
| Downloader.Win32Entry | downloader.py:61-64 | win32 installs `bin/aria2c.exe` from `bin/win32/aria2c.zip` |
| Downloader.Win64Entry | downloader.py:65-68 | win64 installs `bin/aria2c.exe` from `bin/win64/aria2c.zip` |
| Downloader.BinarySuffix | downloader.py:126-128 | a joined binary path ends in `aria2c.exe` exactly for the Windows keys, and in `aria2c` otherwise |
| Downloader.AriaClientsTargets | downloader.py:47-69 | the Windows targets end in `aria2c.exe`; the others end in `aria2c` and not in `aria2c.exe` |
| Downloader.Lookup | downloader.py:88 | indexing the table succeeds exactly for its five keys, and raises `KeyError` otherwise |
| Downloader.MacCheckRaises | downloader.py:87-88 | as written, the install check raises `KeyError` on every macOS machine (finding 1) |
| Downloader.FixedCheckFindsBinary | downloader.py:87-88 | the corrected check fails only for an unknown platform, and otherwise reports whether the target binary exists; on macOS it checks `bin/aria2c` |
| Downloader.SetupAriaSucceeds | downloader.py:91-102 | True exactly when the key is known, the archive exists, the extracted path is the install target and that path exists |
| Downloader.MissingArchiveFails | downloader.py:94-102 | without the archive the setup returns False |
| Downloader.Aria2ArgsSplit | downloader.py:22 | for a non-empty path and link free of white space, quotes and backslashes, `-x 6 -d path link` splits into exactly `-x`, `6`, `-d`, path and link |
| Downloader.Prepare | downloader.py:20-22 | arguments are prepared only as `-x 6 -d path link` |
| Downloader.PrepareFollowsCheck | downloader.py:20-39 | arguments are prepared exactly when the install check finds the binary; the error box is shown exactly when it does not |

## Left out

- The Qt user interface: layouts, fonts, tooltips, alignment, cursors, icons, styles, message boxes, notifications and closing dialogs.
- The network: `requests`, `urlopen`, `cfscrape` and `http.client`. Replies are inputs. A failure is an input only in the scrapers and downloads, and in the reply of the aria2 request: `okPages` is the number of leading page requests answered before one raises, `requestFails` and `streamFails` say whether a download's request or stream raises, and `Workers.RpcReply` has an `Unreachable` case. The exception itself is reduced to the `raised` result.
- Pyload.PyloadConnection.constructor, Pyload.PyloadConnection.Call, LegacyWindow.UnrestrictLink and LegacyThreads.UnrestrictResult: the request always gets a reply. A `urlopen` or `http.client` failure raises in the source, and that exception is not modelled.
- HTML parsing by BeautifulSoup and `lxml`. Parsed posts and cells are inputs; only field extraction and cleaning are modelled.
- Threads and signal delivery. Interruption and cancellation are inputs, telling at which step the other thread raised its flag.
- Processes (`QProcess`, `subprocess`), ZIP extraction and `chmod`. Exit states, the extracted path and file existence are inputs.
- Floating-point progress, the percentage and kbps texts and `time.clock`, because there are no floats in the model.
- The ShadowSocks `ps` probe, because whether the proxy runs is an input to `Proxy`.
- The real-debrid host and link requests of `tvlinker/threads.py` (`RealDebridThread`, `HostersThread`), because both only pass network replies on.
- `threads.py` `Aria2Thread.add_uri`: its credential, payload and reply rule are those of `tvlinker/threads.py`, so `Workers` covers both generations.
- Settings values that are missing are modelled as the empty string, where the source sees `None`. `QSettings` type conversions are not modelled.
- SettingsDialog.FavoritesOf: the case without a stored list stands for `value('favorites', '')`, which gives the empty string.
- `int()` parsing of `dl_pagecount` and copying the default ini file at first start.
- `open_link`, `open_pyload`, `about_app`, `show_hosters` thread wiring and `scrape_finished`.
- SettingsDialog.FindText: case folding is ASCII only. Qt folds all of Unicode.
- Table.MatchesSpec: `findItems` case folding is ASCII only.
- SettingsDialog.FavoritesTab.AddItems: sorting is by code point. `sortItems` compares with the locale, so the model puts `The Simpsons` before `south park` where the locale may not.
- SettingsDialog.FavoritesTab.constructor: the same: the stored favourites are sorted by code point, not with the locale.
- SettingsDialog.FavoritesTab.AddItem: the same: the list is sorted by code point, not with the locale.
- EarlyWindow.EarlyTVLinker.ScrapeLinks: `setSortingEnabled(True)` after a complete scrape re-sorts the table by column 0, descending; the model keeps the rows in scrape order.
- Strings.IsSpace: this is Python's `isspace`. Qt's `QChar::isSpace` does not count U+001C to U+001F, which Python does, so any Qt-side trimming would differ on those four characters.
- MainWindow.TVLinker.FilterTable: the `sortItems` calls are left out, so row numbers are those before sorting.
- SettingsDialog.FavoritesTab.DeleteItems: the order in which the selection is taken is not modelled, only which items go.
- `QJsonDocument`'s handling of duplicate keys. `Json.Lookup` takes the last occurrence of a key, as Python's `json.loads` does.
- Pyload.PyloadConnection.Call: with `encode=False` the source aliases `data` to the caller's dict and adds `session` to it; the model copies it.
- Pyload.PyStr: the repr of lists and objects, and the repr of the wrapper function, are inputs.
- Pyload.CallUrl: call names are Python identifiers, and `urljoin` is modelled only for such plain references.
- Pyload.PyloadConnection.Invoke: floats are not JSON values of the model, and decoding the reply is an input.
- Downloader.Aria2ArgsSplit: the argument splitting is modelled only for a non-empty path and link free of spaces, tabs, newlines, quotes and backslashes.
- Downloader: `__del__`, the console, `init_proc`, `start` and `cmd_error` are process and UI plumbing.
- Downloader.GetPath: the frozen or `QFileInfo` prefix is an input.
- Downloader.SetupAria and Downloader.Prepare use the corrected table key of finding 1.
- MainWindow.TVLinker.FilterTableFresh, LegacyThreads.ParsedBytesFixed, Workers.ConfirmationFixed, SettingsDialog.GeneralTab.SaveFixed, Pyload.CallDataFixed, Dispatch.CommandOutcomeFixed and Downloader.CheckAriaInstallFixed are the corrected halves of the findings below. Each stands beside a member modelling the code as written. The `PyloadConnection` class posts what the code as written posts.
- LegacyWindow.LegacyTVLinker.constructor: for a negative stored page count, Qt's clamping of the bar's range and its initial value are not modelled; the model starts the bar at 0.
- Workers.DownloadThread.DownloadFile: the division by a zero `Content-Length` or by a zero elapsed time, which would raise, is part of the floating-point progress left out.

## Findings

| source | as written | input that shows it | evidently intended | confidence | as-written member | corrected member |
|---|---|---|---|---|---|---|
| downloader.py:75 | `get_machine_code` returns `macOS` on darwin, but the table key is `darwin` (line 49) | `sys.platform == 'darwin'`: `aria_clients()['macOS']` raises `KeyError` | look up the `darwin` entry | not executed | Downloader.MacCheckRaises | Downloader.FixedCheckFindsBinary |
| tvlinker/threads.py:210 | the handler catches `requests.exceptions.HTTPError`, which `urlopen` never raises | the aria2 daemon is not running: `URLError` ends the thread, and no confirmation is emitted | emit `False` when the daemon cannot be reached | not executed | Workers.UnreachableUnconfirmed | Workers.ConfirmationFixed |
| pyload.py:29 | `hasattr(self, 'session')` is true during login, because `__getattr__` answers every name | the first `_call('login', …)`: the form gets `session=<function …wrapper…>` | no session on the login call | not executed | Pyload.LoginCarriesWrapper | Pyload.FixedLoginCarriesNoSession |
| tvlinker/settings.py:211 | the proxy checkbox exists only when a token was stored at construction | the token field is empty when the dialog opens: `save` raises `AttributeError` after writing the token | skip the proxy flag when the checkbox is absent | not executed | SettingsDialog.AbortedSaveKeepsManager | SettingsDialog.FixedSaveKeepsManager |
| threads.py:40 | the fallback parser reads the response a second time, and gets an empty body (also main.py:134) | `lxml` not installed off Windows: every page yields no rows | parse the body already read | not executed | LegacyThreads.FallbackScrapesNothing | LegacyThreads.FixedFallbackScrapesPage |
| tvlinker/__main__.py:398-402 | `valid_rows` is not reset while filters exist, so matches pile up across calls | typing `a` then `ab`: a row matching only `a` stays visible | recompute the matches on each call | not executed | MainWindow.StaleMatchShown | MainWindow.TVLinker.FilterTableFresh |
| tvlinker/__main__.py:392-397 | `filters = self.favorites` aliases the list, and `append` adds the search text to the favourites | favourites filter on, search `x`, then clear the search: `x` is still filtered on | filter on a copy of the favourites | not executed | MainWindow.SearchBecomesFavorite | MainWindow.TVLinker.FilterTableFresh |
| tvlinker/__main__.py:473 | the IDM failure branch calls `self.idm.error()`, but no `idm` attribute is ever assigned | a failing IDM command: `AttributeError` before the cursor is restored, the dialog closed and the error box shown | show the error box with the error of the process that ran | not executed | Dispatch.IdmFailureRaises | Dispatch.CommandOutcomeFixed |
