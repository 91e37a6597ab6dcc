/**
 * The settings dialog of the current package: the General tab, whose save
 * writes the real-debrid keys, the chosen download manager and that
 * manager's own keys; the Favorites tab, a sorted list of labels with add,
 * delete and save; and the dialog's save button, which runs both saves.
 */
module SettingsDialog {
  import opened Wrappers
  import Strings
  import Sorting

  /** A stored setting: text, a flag, or a list of texts. */
  datatype Setting = Text(text: string) | Flag(flag: bool) | List(items: seq<string>)

  type Values = map<string, Setting>

  const TokenKey := "realdebrid_apitoken"
  const ProxyKey := "realdebrid_apiproxy"
  const ManagerKey := "download_manager"
  const Aria2HostKey := "aria2_rpc_host"
  const Aria2PortKey := "aria2_rpc_port"
  const Aria2SecretKey := "aria2_rpc_secret"
  const Aria2UserKey := "aria2_rpc_username"
  const Aria2PassKey := "aria2_rpc_password"
  const PyloadHostKey := "pyload_host"
  const PyloadUserKey := "pyload_username"
  const PyloadPassKey := "pyload_password"
  const IdmPathKey := "idm_exe_path"
  const KGetKey := "kget_cmd"
  const PersepolisKey := "persepolis_cmd"
  const FavoritesKey := "favorites"

  /** The download managers offered by the combo box. */
  const BuiltIn := "built-in"
  const Aria2 := "aria2"
  const Idm := "IDM"
  const KGet := "KGet"
  const Persepolis := "Persepolis"
  const PyLoad := "pyLoad"

  /** The settings store: one value per key. */
  class SettingsStore {
    var values: Values

    constructor(values: Values)
      ensures this.values == values
    {
      this.values := values;
    }

    /** `setValue(key, value)`. */
    method SetValue(key: string, value: Setting)
      modifies this
      ensures values == old(values)[key := value]
    {
      values := values[key := value];
    }
  }

  /** A text value as a line edit shows it: a missing key shows as empty. */
  function TextOf(values: Values, key: string): string
  {
    if key in values && values[key].Text? then values[key].text else ""
  }

  /** `value(key, False, bool)`. */
  function FlagOf(values: Values, key: string): bool
  {
    key in values && values[key].Flag? && values[key].flag
  }

  /** `value('favorites', '')`: a missing key gives no items. */
  function FavoritesOf(values: Values): seq<string>
  {
    if FavoritesKey in values && values[FavoritesKey].List? then values[FavoritesKey].items else []
  }

  /** The store after each `setValue` of the sequence, in order. */
  function Apply(values: Values, writes: seq<(string, Setting)>): Values
  {
    if |writes| == 0 then values
    else Apply(values, writes[..|writes| - 1])[writes[|writes| - 1].0 := writes[|writes| - 1].1]
  }

  function KeyList(writes: seq<(string, Setting)>): seq<string>
  {
    seq(|writes|, i requires 0 <= i < |writes| => writes[i].0)
  }

  lemma ApplySnoc(values: Values, writes: seq<(string, Setting)>, w: (string, Setting))
    ensures Apply(values, writes + [w]) == Apply(values, writes)[w.0 := w.1]
  {
    assert (writes + [w])[..|writes|] == writes;
  }

  /** A key no write names keeps its value. */
  lemma {:induction false} ApplyUntouched(values: Values, writes: seq<(string, Setting)>, k: string)
    requires k !in KeyList(writes)
    ensures k in Apply(values, writes) <==> k in values
    ensures k in values ==> Apply(values, writes)[k] == values[k]
    decreases |writes|
  {
    if |writes| > 0 {
      var init := writes[..|writes| - 1];
      forall i | 0 <= i < |init|
        ensures KeyList(init)[i] != k
      {
        assert KeyList(writes)[i] == KeyList(init)[i];
      }
      assert KeyList(writes)[|writes| - 1] == writes[|writes| - 1].0;
      ApplyUntouched(values, init, k);
    }
  }

  /** A key keeps the value of its last write. */
  lemma {:induction false} ApplyLast(values: Values, writes: seq<(string, Setting)>, i: nat)
    requires i < |writes|
    requires forall j :: i < j < |writes| ==> writes[j].0 != writes[i].0
    ensures writes[i].0 in Apply(values, writes) && Apply(values, writes)[writes[i].0] == writes[i].1
    decreases |writes|
  {
    if i < |writes| - 1 {
      var init := writes[..|writes| - 1];
      assert init[i] == writes[i];
      ApplyLast(values, init, i);
    }
  }

  predicate IsLinux(platform: string)
  {
    |platform| >= 5 && platform[..5] == "linux"
  }

  /** The combo box items, in the order `GeneralTab` adds them on the given platform. */
  function ComboItems(platform: string): seq<string>
  {
    [BuiltIn, Aria2] + (if platform == "win32" then [Idm] else []) + (if IsLinux(platform) then [KGet] else [])
    + [Persepolis, PyLoad]
  }

  /** The settings pages of the stacked widget. */
  datatype Page = DirectPage | Aria2Page | IdmPage | KGetPage | PersepolisPage | PyloadPage

  /** The stack's pages, in the order `GeneralTab` adds them on the given platform. */
  function StackPages(platform: string): seq<Page>
  {
    [DirectPage, Aria2Page] + (if platform == "win32" then [IdmPage] else []) + (if IsLinux(platform) then [KGetPage] else [])
    + [PersepolisPage, PyloadPage]
  }

  /** The page that holds a manager's settings. */
  function PageFor(manager: string): Page
  {
    if manager == Aria2 then Aria2Page
    else if manager == Idm then IdmPage
    else if manager == KGet then KGetPage
    else if manager == Persepolis then PersepolisPage
    else if manager == PyLoad then PyloadPage
    else DirectPage
  }

  /** Combo index `i` and stack page `i` belong to the same manager, on every platform. */
  lemma ComboMatchesStack(platform: string)
    ensures |ComboItems(platform)| == |StackPages(platform)|
    ensures forall i :: 0 <= i < |ComboItems(platform)| ==> PageFor(ComboItems(platform)[i]) == StackPages(platform)[i]
  {
    assert BuiltIn != Aria2 && BuiltIn != Idm && BuiltIn != KGet && BuiltIn != Persepolis && BuiltIn != PyLoad by {
      assert BuiltIn[0] == 'b' && Aria2[0] == 'a' && Idm[0] == 'I' && KGet[0] == 'K' && Persepolis[0] == 'P' && PyLoad[0] == 'p';
    }
    assert Idm != Aria2 && KGet != Aria2 && KGet != Idm && Persepolis != Aria2 && Persepolis != Idm && Persepolis != KGet by {
      assert Aria2[0] == 'a' && Idm[0] == 'I' && KGet[0] == 'K' && Persepolis[0] == 'P';
    }
  }

  /** `findText(text, MatchFixedString)`: the first item equal to the text ignoring case, or -1. */
  function FindText(items: seq<string>, text: string): (i: int)
    ensures -1 <= i < |items|
    ensures i >= 0 ==> Strings.Lower(items[i]) == Strings.Lower(text)
    ensures i >= 0 ==> forall j :: 0 <= j < i ==> Strings.Lower(items[j]) != Strings.Lower(text)
    ensures i == -1 ==> forall j :: 0 <= j < |items| ==> Strings.Lower(items[j]) != Strings.Lower(text)
  {
    if |items| == 0 then -1
    else if Strings.Lower(items[0]) == Strings.Lower(text) then 0
    else
      var r := FindText(items[1..], text);
      assert forall j :: 1 <= j < |items| ==> items[j] == items[1..][j - 1];
      if r < 0 then -1 else r + 1
  }

  /** `currentText()`: empty when nothing is selected. */
  function CurrentText(items: seq<string>, index: int): string
  {
    if 0 <= index < |items| then items[index] else ""
  }

  /** What the General tab's fields hold when `save` runs. */
  datatype Form = Form(token: string, proxy: bool,
                       aria2Host: string, aria2Port: string, aria2Secret: string, aria2User: string, aria2Pass: string,
                       pyloadHost: string, pyloadUser: string, pyloadPass: string,
                       idmPath: string, kgetCmd: string, persepolisCmd: string)

  /** The fields as `GeneralTab` fills them from the store. */
  function ReadForm(values: Values, hasProxyBox: bool): Form
  {
    Form(TextOf(values, TokenKey), hasProxyBox && FlagOf(values, ProxyKey),
         TextOf(values, Aria2HostKey), TextOf(values, Aria2PortKey), TextOf(values, Aria2SecretKey),
         TextOf(values, Aria2UserKey), TextOf(values, Aria2PassKey),
         TextOf(values, PyloadHostKey), TextOf(values, PyloadUserKey), TextOf(values, PyloadPassKey),
         TextOf(values, IdmPathKey), TextOf(values, KGetKey), TextOf(values, PersepolisKey))
  }

  /** The keys written for the selected manager, exactly as it is spelled in the combo box. */
  function ManagerWrites(manager: string, f: Form): seq<(string, Setting)>
  {
    if manager == Aria2 then
      [(Aria2HostKey, Text(f.aria2Host)), (Aria2PortKey, Text(f.aria2Port)), (Aria2SecretKey, Text(f.aria2Secret)),
       (Aria2UserKey, Text(f.aria2User)), (Aria2PassKey, Text(f.aria2Pass))]
    else if manager == PyLoad then
      [(PyloadHostKey, Text(f.pyloadHost)), (PyloadUserKey, Text(f.pyloadUser)), (PyloadPassKey, Text(f.pyloadPass))]
    else if manager == Idm then [(IdmPathKey, Text(f.idmPath))]
    else if manager == KGet then [(KGetKey, Text(f.kgetCmd))]
    else if manager == Persepolis then [(PersepolisKey, Text(f.persepolisCmd))]
    else []
  }

  /** Every write of `GeneralTab.save`, in order. */
  function GeneralWrites(manager: string, f: Form): seq<(string, Setting)>
  {
    [(TokenKey, Text(f.token)), (ProxyKey, Flag(f.proxy)), (ManagerKey, Text(Strings.Lower(manager)))]
    + ManagerWrites(manager, f)
  }

  /** The keys of a settings page. */
  function PageKeys(p: Page): seq<string>
  {
    match p
    case DirectPage => []
    case Aria2Page => [Aria2HostKey, Aria2PortKey, Aria2SecretKey, Aria2UserKey, Aria2PassKey]
    case PyloadPage => [PyloadHostKey, PyloadUserKey, PyloadPassKey]
    case IdmPage => [IdmPathKey]
    case KGetPage => [KGetKey]
    case PersepolisPage => [PersepolisKey]
  }

  /** `save` writes exactly the keys of the page shown for the selected manager, whichever it is. */
  lemma ManagerWritesShownPage(platform: string, i: nat, f: Form)
    requires i < |ComboItems(platform)|
    ensures KeyList(ManagerWrites(ComboItems(platform)[i], f)) == PageKeys(StackPages(platform)[i])
  {
    ComboMatchesStack(platform);
  }

  /** The keys of the real-debrid part and the manager keys never coincide. */
  lemma ManagerKeysDistinct(manager: string, f: Form)
    ensures forall j :: 0 <= j < |ManagerWrites(manager, f)| ==>
              ManagerWrites(manager, f)[j].0 != TokenKey && ManagerWrites(manager, f)[j].0 != ManagerKey
  {
    var m := ManagerWrites(manager, f);
    forall j | 0 <= j < |m|
      ensures m[j].0 != TokenKey && m[j].0 != ManagerKey
    {
      assert m[j].0[0] in {'a', 'p', 'i', 'k'};
      assert TokenKey[0] == 'r' && ManagerKey[0] == 'd';
    }
  }

  lemma LowerChars(s: string)
    ensures Strings.Lower(Strings.Lower(s)) == Strings.Lower(s)
  {
  }

  /** The combo items differ from one another ignoring case. */
  lemma ComboItemsDistinct(platform: string)
    ensures forall i, j :: 0 <= j < i < |ComboItems(platform)| ==>
              Strings.Lower(ComboItems(platform)[j]) != Strings.Lower(ComboItems(platform)[i])
  {
    var items := ComboItems(platform);
    forall i, j | 0 <= j < i < |items|
      ensures Strings.Lower(items[j]) != Strings.Lower(items[i])
    {
      var a, b := items[j], items[i];
      assert Strings.Lower(a)[0] == Strings.LowerChar(a[0]) && Strings.Lower(b)[0] == Strings.LowerChar(b[0]);
      assert Strings.Lower(a)[1] == Strings.LowerChar(a[1]) && Strings.Lower(b)[1] == Strings.LowerChar(b[1]);
      assert Persepolis[1] == 'e' && PyLoad[1] == 'y';
    }
  }

  /**
   * After a save that completes, a General tab built from the store
   * selects the same manager again and shows the saved token, whatever
   * manager was chosen.
   */
  lemma ReopenAfterSave(values: Values, platform: string, i: nat, f: Form)
    requires i < |ComboItems(platform)|
    ensures var v := Apply(values, GeneralWrites(ComboItems(platform)[i], f));
            FindText(ComboItems(platform), TextOf(v, ManagerKey)) == i && TextOf(v, TokenKey) == f.token
  {
    var items := ComboItems(platform);
    var w := GeneralWrites(items[i], f);
    ManagerKeysDistinct(items[i], f);
    assert w[0].0 == TokenKey && w[2].0 == ManagerKey;
    assert forall j :: 0 < j < |w| ==> w[j].0 != TokenKey by {
      assert ProxyKey != TokenKey && ManagerKey != TokenKey by {
        assert ProxyKey[14] == 'p' && TokenKey[14] == 't';
        assert ManagerKey[0] == 'd' && TokenKey[0] == 'r';
      }
    }
    assert forall j :: 2 < j < |w| ==> w[j].0 != ManagerKey;
    ApplyLast(values, w, 0);
    ApplyLast(values, w, 2);
    var v := Apply(values, w);
    assert TextOf(v, ManagerKey) == Strings.Lower(items[i]);
    LowerChars(items[i]);
    ComboItemsDistinct(platform);
  }

  /** What the corrected save writes: the proxy flag only when its check box exists. */
  function FixedWrites(hasProxyBox: bool, manager: string, f: Form): seq<(string, Setting)>
  {
    [(TokenKey, Text(f.token))] + (if hasProxyBox then [(ProxyKey, Flag(f.proxy))] else [])
    + [(ManagerKey, Text(Strings.Lower(manager)))] + ManagerWrites(manager, f)
  }

  /** As written, a save without the proxy check box stops after the token: the manager choice is lost. */
  lemma AbortedSaveKeepsManager(values: Values, manager: string, f: Form)
    ensures var v := Apply(values, GeneralWrites(manager, f)[..1]);
            (ManagerKey in v <==> ManagerKey in values) && (ManagerKey in values ==> v[ManagerKey] == values[ManagerKey])
  {
    var w := GeneralWrites(manager, f)[..1];
    assert w == [(TokenKey, Text(f.token))];
    assert ManagerKey != TokenKey by {
      assert ManagerKey[0] == 'd' && TokenKey[0] == 'r';
    }
    assert KeyList(w) == [TokenKey];
    ApplyUntouched(values, w, ManagerKey);
  }

  /** Corrected, the save always records the manager, as it is shown in lower case. */
  lemma FixedSaveKeepsManager(values: Values, hasProxyBox: bool, manager: string, f: Form)
    ensures var v := Apply(values, FixedWrites(hasProxyBox, manager, f));
            ManagerKey in v && v[ManagerKey] == Text(Strings.Lower(manager))
  {
    var w := FixedWrites(hasProxyBox, manager, f);
    var at := if hasProxyBox then 2 else 1;
    assert w[at] == (ManagerKey, Text(Strings.Lower(manager)));
    ManagerKeysDistinct(manager, f);
    assert forall j :: at < j < |w| ==> w[j].0 != ManagerKey;
    ApplyLast(values, w, at);
  }

  /** The General tab: its fields as the user left them, and the selected manager. */
  class GeneralTab {
    const settings: SettingsStore
    /** Whether the proxy check box was created: only when a token was stored. */
    const hasProxyBox: bool
    const items: seq<string>
    var index: int
    var form: Form

    constructor(settings: SettingsStore, platform: string)
      ensures this.settings == settings && items == ComboItems(platform)
      ensures hasProxyBox == (|TextOf(settings.values, TokenKey)| > 0)
      ensures index == FindText(items, TextOf(settings.values, ManagerKey))
      ensures form == ReadForm(settings.values, hasProxyBox)
    {
      this.settings := settings;
      hasProxyBox := |TextOf(settings.values, TokenKey)| > 0;
      items := ComboItems(platform);
      index := FindText(ComboItems(platform), TextOf(settings.values, ManagerKey));
      form := ReadForm(settings.values, |TextOf(settings.values, TokenKey)| > 0);
    }

    /**
     * `GeneralTab.save` as written: the token first; then, when the proxy
     * check box does not exist, the AttributeError that ends the save;
     * otherwise the proxy flag, the manager in lower case and the keys of
     * that manager.
     */
    method Save() returns (raised: Option<string>)
      modifies settings
      ensures var w := GeneralWrites(CurrentText(items, index), form);
              if hasProxyBox then raised == None && settings.values == Apply(old(settings.values), w)
              else raised == Some("AttributeError") && settings.values == Apply(old(settings.values), w[..1])
    {
      var manager := CurrentText(items, index);
      ghost var w := GeneralWrites(manager, form);
      ghost var start := settings.values;
      settings.SetValue(TokenKey, Text(form.token));
      assert w[..1] == [] + [w[0]];
      ApplySnoc(start, [], w[0]);
      if !hasProxyBox {
        return Some("AttributeError");
      }
      settings.SetValue(ProxyKey, Flag(form.proxy));
      settings.SetValue(ManagerKey, Text(Strings.Lower(manager)));
      ApplySnoc(start, w[..1], w[1]);
      assert w[..1] + [w[1]] == w[..2];
      ApplySnoc(start, w[..2], w[2]);
      assert w[..2] + [w[2]] == w[..3];
      if manager == Aria2 {
        settings.SetValue(Aria2HostKey, Text(form.aria2Host));
        settings.SetValue(Aria2PortKey, Text(form.aria2Port));
        settings.SetValue(Aria2SecretKey, Text(form.aria2Secret));
        settings.SetValue(Aria2UserKey, Text(form.aria2User));
        settings.SetValue(Aria2PassKey, Text(form.aria2Pass));
        Extend(start, w, 3);
        Extend(start, w, 4);
        Extend(start, w, 5);
        Extend(start, w, 6);
        Extend(start, w, 7);
      } else if manager == PyLoad {
        settings.SetValue(PyloadHostKey, Text(form.pyloadHost));
        settings.SetValue(PyloadUserKey, Text(form.pyloadUser));
        settings.SetValue(PyloadPassKey, Text(form.pyloadPass));
        Extend(start, w, 3);
        Extend(start, w, 4);
        Extend(start, w, 5);
      } else if manager == Idm {
        settings.SetValue(IdmPathKey, Text(form.idmPath));
        Extend(start, w, 3);
      } else if manager == KGet {
        settings.SetValue(KGetKey, Text(form.kgetCmd));
        Extend(start, w, 3);
      } else if manager == Persepolis {
        settings.SetValue(PersepolisKey, Text(form.persepolisCmd));
        Extend(start, w, 3);
      }
      assert w[..|w|] == w;
      return None;
    }

    /** The corrected save: the proxy flag is skipped when its check box does not exist, and the rest is saved. */
    method SaveFixed()
      modifies settings
      ensures settings.values == Apply(old(settings.values), FixedWrites(hasProxyBox, CurrentText(items, index), form))
    {
      var manager := CurrentText(items, index);
      ghost var w := FixedWrites(hasProxyBox, manager, form);
      ghost var start := settings.values;
      settings.SetValue(TokenKey, Text(form.token));
      assert w[..1] == [] + [w[0]];
      ApplySnoc(start, [], w[0]);
      var at := 1;
      if hasProxyBox {
        settings.SetValue(ProxyKey, Flag(form.proxy));
        Extend(start, w, 1);
        at := 2;
      }
      settings.SetValue(ManagerKey, Text(Strings.Lower(manager)));
      Extend(start, w, at);
      var m := ManagerWrites(manager, form);
      assert w == w[..at + 1] + m;
      var k := 0;
      while k < |m|
        invariant k <= |m|
        invariant settings.values == Apply(start, w[..at + 1 + k])
      {
        settings.SetValue(m[k].0, m[k].1);
        Extend(start, w, at + 1 + k);
        k := k + 1;
      }
      assert w[..at + 1 + k] == w;
    }
  }

  /** One more write of the sequence. */
  lemma Extend(start: Values, w: seq<(string, Setting)>, n: nat)
    requires n < |w|
    ensures Apply(start, w[..n])[w[n].0 := w[n].1] == Apply(start, w[..n + 1])
  {
    ApplySnoc(start, w[..n], w[n]);
    assert w[..n] + [w[n]] == w[..n + 1];
  }

  /** The items of a list whose rows are not selected, in order. */
  function Kept(s: seq<string>, selected: set<nat>): (r: seq<string>)
    ensures |r| <= |s|
  {
    if |s| == 0 then [] else Kept(s[..|s| - 1], selected) + (if |s| - 1 in selected then [] else [s[|s| - 1]])
  }

  lemma KeptStep(s: seq<string>, i: nat, selected: set<nat>)
    requires i < |s|
    ensures Kept(s[..i + 1], selected) == Kept(s[..i], selected) + (if i in selected then [] else [s[i]])
  {
    assert s[..i + 1][..i] == s[..i];
  }

  /** Taking out the item just after a prefix leaves the prefix and the tail. */
  lemma TakeAt(kept: seq<string>, tail: seq<string>)
    requires |tail| > 0
    ensures var rest := kept + tail; rest[..|kept|] + rest[|kept| + 1..] == kept + tail[1..]
  {
    var rest := kept + tail;
    assert rest[..|kept|] == kept;
    assert rest[|kept| + 1..] == tail[1..];
  }

  lemma SplitFront(kept: seq<string>, tail: seq<string>)
    requires |tail| > 0
    ensures kept + tail == kept + [tail[0]] + tail[1..]
  {
  }

  /** The items of the selected rows, in order. */
  function Taken(s: seq<string>, selected: set<nat>): seq<string>
  {
    if |s| == 0 then [] else Taken(s[..|s| - 1], selected) + (if |s| - 1 in selected then [s[|s| - 1]] else [])
  }

  /** Deleting the selection splits the items into those kept and those taken, and no item is lost or added. */
  lemma KeptTaken(s: seq<string>, selected: set<nat>)
    ensures multiset(Kept(s, selected)) + multiset(Taken(s, selected)) == multiset(s)
    ensures forall i :: 0 <= i < |s| && i !in selected ==> s[i] in Kept(s, selected)
    ensures forall i :: 0 <= i < |s| && i in selected ==> s[i] in Taken(s, selected)
  {
    KeptTakenCount(s, selected);
    forall i | 0 <= i < |s|
      ensures i !in selected ==> s[i] in Kept(s, selected)
      ensures i in selected ==> s[i] in Taken(s, selected)
    {
      KeptTakenHas(s, selected, i);
    }
  }

  lemma {:induction false} KeptTakenCount(s: seq<string>, selected: set<nat>)
    ensures multiset(Kept(s, selected)) + multiset(Taken(s, selected)) == multiset(s)
    decreases |s|
  {
    if |s| > 0 {
      var init, last := s[..|s| - 1], s[|s| - 1];
      KeptTakenCount(init, selected);
      assert s == init + [last];
      if |s| - 1 in selected {
        assert Taken(s, selected) == Taken(init, selected) + [last];
        assert Kept(s, selected) == Kept(init, selected);
      } else {
        assert Kept(s, selected) == Kept(init, selected) + [last];
        assert Taken(s, selected) == Taken(init, selected);
      }
    }
  }

  lemma {:induction false} KeptTakenHas(s: seq<string>, selected: set<nat>, i: nat)
    requires i < |s|
    ensures i !in selected ==> s[i] in Kept(s, selected)
    ensures i in selected ==> s[i] in Taken(s, selected)
    decreases |s|
  {
    var init := s[..|s| - 1];
    if i < |s| - 1 {
      KeptTakenHas(init, selected, i);
      assert init[i] == s[i];
    }
  }

  /** `FavoritesTab.save` on the store: the list is written only when it is not empty. */
  function SavedFavorites(values: Values, items: seq<string>): Values
  {
    if |items| > 0 then values[FavoritesKey := List(items)] else values
  }

  /** Saving a non-empty list and reading it back gives the same list; an empty list leaves the stored one. */
  lemma FavoritesRoundTrip(values: Values, items: seq<string>)
    ensures |items| > 0 ==> FavoritesOf(SavedFavorites(values, items)) == items
    ensures |items| == 0 ==> FavoritesOf(SavedFavorites(values, items)) == FavoritesOf(values)
  {
  }

  /** The Favorites tab: the list widget's items, kept sorted, and the label field. */
  class FavoritesTab {
    const settings: SettingsStore
    var items: seq<string>
    var lineText: string

    constructor(settings: SettingsStore)
      ensures this.settings == settings && lineText == ""
      ensures items == Sorting.Sort(FavoritesOf(settings.values))
    {
      var stored := FavoritesOf(settings.values);
      this.settings := settings;
      items := [];
      lineText := "";
      new;
      assert [] + stored == stored;
      AddItems(stored);
    }

    /** `add_items`: every item goes into the list, which is then sorted. */
    method AddItems(list: seq<string>)
      modifies this
      ensures items == Sorting.Sort(old(items) + list)
      ensures Sorting.Sorted(items) && multiset(items) == multiset(old(items)) + multiset(list)
      ensures lineText == old(lineText)
    {
      var added := items;
      var k := 0;
      while k < |list|
        invariant k <= |list|
        invariant added == old(items) + list[..k]
      {
        assert list[..k + 1] == list[..k] + [list[k]];
        added := added + [list[k]];
        k := k + 1;
      }
      assert list[..k] == list;
      items := Sorting.Sort(added);
    }

    /** `add_item`: a non-empty label joins the sorted list and the field is cleared; an empty one changes nothing. */
    method AddItem()
      modifies this
      ensures |old(lineText)| > 0 ==> items == Sorting.Sort(old(items) + [old(lineText)]) && lineText == ""
      ensures |old(lineText)| > 0 ==> Sorting.Sorted(items) && multiset(items) == multiset(old(items)) + multiset{old(lineText)}
      ensures |old(lineText)| == 0 ==> items == old(items) && lineText == old(lineText)
    {
      if |lineText| > 0 {
        items := Sorting.Sort(items + [lineText]);
        lineText := "";
      }
    }

    /**
     * `delete_items`: each selected item is taken out at its current row,
     * going through the selection in row order.
     */
    method DeleteItems(selected: set<nat>)
      modifies this
      ensures items == Kept(old(items), selected)
      ensures lineText == old(lineText)
    {
      var orig := items;
      var rest := items;
      var i, removed := 0, 0;
      while i < |orig|
        invariant i <= |orig|
        invariant rest == Kept(orig[..i], selected) + orig[i..]
        invariant removed + |Kept(orig[..i], selected)| == i
        invariant lineText == old(lineText)
      {
        KeptStep(orig, i, selected);
        ghost var kept := Kept(orig[..i], selected);
        if i in selected {
          var row := i - removed;
          TakeAt(kept, orig[i..]);
          rest := rest[..row] + rest[row + 1..];
          removed := removed + 1;
        } else {
          SplitFront(kept, orig[i..]);
        }
        i := i + 1;
      }
      assert orig[..i] == orig && orig[i..] == [];
      assert rest == Kept(orig, selected);
      items := rest;
    }

    /** `FavoritesTab.save`: the items copied row by row, and written only when there are any. */
    method Save()
      modifies settings
      ensures settings.values == SavedFavorites(old(settings.values), items)
    {
      if |items| > 0 {
        var faves: seq<string> := [];
        var row := 0;
        while row < |items|
          invariant row <= |items|
          invariant faves == items[..row]
        {
          assert items[..row + 1] == items[..row] + [items[row]];
          faves := faves + [items[row]];
          row := row + 1;
        }
        assert items[..row] == items;
        settings.SetValue(FavoritesKey, List(faves));
      }
    }
  }

  /** The settings dialog: its two tabs share one store. */
  class Settings {
    const general: GeneralTab
    const favorites: FavoritesTab

    constructor(general: GeneralTab, favorites: FavoritesTab)
      ensures this.general == general && this.favorites == favorites
    {
      this.general, this.favorites := general, favorites;
    }

    /**
     * `save_settings`: the General save, then the Favorites save, then the
     * main window reloads its settings; an error in the first save ends it
     * there.
     */
    method SaveSettings() returns (raised: Option<string>, reloaded: bool)
      requires general.settings == favorites.settings
      modifies general.settings
      ensures var w := GeneralWrites(CurrentText(general.items, general.index), general.form);
              if general.hasProxyBox then
                raised == None && reloaded
                && general.settings.values == SavedFavorites(Apply(old(general.settings.values), w), favorites.items)
              else
                raised == Some("AttributeError") && !reloaded
                && general.settings.values == Apply(old(general.settings.values), w[..1])
    {
      raised := general.Save();
      if raised.Some? {
        return raised, false;
      }
      favorites.Save();
      reloaded := true;
    }
  }
}
