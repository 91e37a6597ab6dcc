/**
 * The hoster links dialog: one group box per link with a logo named after
 * the link's host and COPY / OPEN / DOWNLOAD buttons whose id is the
 * link's index, and the slots that hand the link of a clicked button on.
 */
module Hosters {
  import Strings

  /** `get_hoster_name`: the host with every `www.`, then every `.com`, then every `.net` removed, one pass each. */
  function HosterName(host: string): string
  {
    Strings.ReplaceAll(Strings.ReplaceAll(Strings.ReplaceAll(host, "www.", ""), ".com", ""), ".net", "")
  }

  /** A host holding none of the three parts keeps its name. */
  lemma HosterNameUnchanged(host: string)
    requires !Strings.Contains(host, "www.") && !Strings.Contains(host, ".com") && !Strings.Contains(host, ".net")
    ensures HosterName(host) == host
  {
    Strings.ReplaceAbsent(host, "www.", "");
    Strings.ReplaceAbsent(host, ".com", "");
    Strings.ReplaceAbsent(host, ".net", "");
  }

  /** No occurrence of a part that begins with `.` starts inside a dot-free string. */
  lemma DotFreeSkips(l: string, t: string, p: string)
    requires |p| > 0 && p[0] == '.' && '.' !in l
    ensures forall i: nat :: i < |l| ==> !Strings.MatchAt(l + t, p, i)
  {
    forall i: nat | i < |l|
      ensures !Strings.MatchAt(l + t, p, i)
    {
      if i + |p| <= |l + t| {
        assert (l + t)[i..i + |p|][0] == l[i];
      }
    }
  }

  /** A string in which `p` starts nowhere does not contain it. */
  lemma NoMatchAbsent(s: string, p: string)
    requires forall i: nat :: !Strings.MatchAt(s, p, i)
    ensures !Strings.Contains(s, p)
  {
    Strings.ContainsIffMatch(s, p);
  }

  /** `www.<site>.com` is named `<site>` when the site has no dot and does not end in `www`. */
  lemma HosterNameOfDomain(site: string)
    requires '.' !in site
    requires |site| < 3 || site[|site| - 3..] != "www"
    ensures HosterName("www." + site + ".com") == site
  {
    WwwRemoved(site);
    ComRemoved(site);
    NetAbsent(site);
  }

  lemma WwwRemoved(site: string)
    requires '.' !in site
    requires |site| < 3 || site[|site| - 3..] != "www"
    ensures Strings.ReplaceAll("www." + site + ".com", "www.", "") == site + ".com"
  {
    var afterWww := site + ".com";
    assert "www." + site + ".com" == "www." + afterWww;
    Strings.ReplaceFront("www.", afterWww, "");
    NoWwwAfter(site);
    Strings.ReplaceAbsent(afterWww, "www.", "");
    assert "" + afterWww == afterWww;
  }

  lemma NoWwwAfter(site: string)
    requires '.' !in site
    requires |site| < 3 || site[|site| - 3..] != "www"
    ensures !Strings.Contains(site + ".com", "www.")
  {
    forall i: nat
      ensures !Strings.MatchAt(site + ".com", "www.", i)
    {
      NoWwwAt(site, i);
    }
    NoMatchAbsent(site + ".com", "www.");
  }

  lemma NoWwwAt(site: string, i: nat)
    requires '.' !in site
    requires |site| < 3 || site[|site| - 3..] != "www"
    ensures !Strings.MatchAt(site + ".com", "www.", i)
  {
    var a := site + ".com";
    if i + 4 <= |a| {
      if i + 3 < |site| {
        assert a[i + 3] == site[i + 3];
      } else if i + 3 == |site| {
        assert a[i..i + 3] == site[|site| - 3..];
        assert a[i..i + 4][..3] == a[i..i + 3];
      } else {
        ComNoDot(site, i + 3);
      }
      assert a[i..i + 4][3] == a[i + 3];
    }
  }

  lemma ComNoDot(site: string, k: nat)
    requires |site| < k < |site| + 4
    ensures (site + ".com")[k] != '.'
  {
    assert (site + ".com")[k] == ".com"[k - |site|];
  }

  lemma ComRemoved(site: string)
    requires '.' !in site
    ensures Strings.ReplaceAll(site + ".com", ".com", "") == site
  {
    DotFreeSkips(site, ".com", ".com");
    Strings.ReplaceSkips(site, ".com", ".com", "");
    EmptyRemoved(".com");
    assert site + "" == site;
  }

  lemma NetAbsent(site: string)
    requires '.' !in site
    ensures Strings.ReplaceAll(site, ".net", "") == site
  {
    assert '.' == ".net"[0];
    Strings.AbsentFirst(site, ".net");
    Strings.ReplaceAbsent(site, ".net", "");
  }

  /** A part alone is removed whole. */
  lemma EmptyRemoved(p: string)
    requires |p| > 0
    ensures Strings.ReplaceAll(p, p, "") == ""
  {
    Strings.ReplaceFront(p, "", "");
    assert p + "" == p;
    assert Strings.ReplaceAll("", p, "") == "";
  }

  /** The removals are not repeated: taking `.net` out of `.c.netom` leaves a `.com` that stays. */
  lemma HosterNameSinglePass()
    ensures HosterName(".c.netom") == ".com"
    ensures HosterName(HosterName(".c.netom")) == ""
  {
    FirstPassKeeps();
    NetLeavesCom();
    ComNamedEmpty();
  }

  lemma FirstPassKeeps()
    ensures Strings.ReplaceAll(".c.netom", "www.", "") == ".c.netom"
    ensures Strings.ReplaceAll(".c.netom", ".com", "") == ".c.netom"
  {
    var s := ".c.netom";
    forall i: nat
      ensures !Strings.MatchAt(s, "www.", i) && !Strings.MatchAt(s, ".com", i)
    {
      if i + 4 <= |s| {
        var w := s[i..i + 4];
        assert w[0] == s[i] && w[1] == s[i + 1] && w[2] == s[i + 2];
      }
    }
    NoMatchAbsent(s, "www.");
    NoMatchAbsent(s, ".com");
    Strings.ReplaceAbsent(s, "www.", "");
    Strings.ReplaceAbsent(s, ".com", "");
  }

  lemma NetLeavesCom()
    ensures Strings.ReplaceAll(".c.netom", ".net", "") == ".com"
  {
    var s := ".c.netom";
    assert s == ".c" + (".net" + "om");
    forall i: nat | i < 2
      ensures !Strings.MatchAt(s, ".net", i)
    {
      var w := s[i..i + 4];
      assert w[0] == s[i] && w[1] == s[i + 1];
    }
    Strings.ReplaceSkips(".c", ".net" + "om", ".net", "");
    Strings.ReplaceFront(".net", "om", "");
    Strings.ReplaceAbsent("om", ".net", "");
    assert ".c" + ("" + "om") == ".com";
  }

  lemma ComNamedEmpty()
    ensures HosterName(".com") == ""
  {
    var t := ".com";
    assert 'w' != t[0] && 'w' != t[1] && 'w' != t[2] && 'w' != t[3];
    assert "www."[0] !in t;
    Strings.AbsentFirst(t, "www.");
    Strings.ReplaceAbsent(t, "www.", "");
    EmptyRemoved(".com");
    assert Strings.ReplaceAll("", ".net", "") == "";
  }

  /** `hosters.index(link)`: the first index holding the link. */
  function FirstIndex(links: seq<string>, link: string): (i: nat)
    requires link in links
    ensures i < |links| && links[i] == link
    ensures forall j :: 0 <= j < i ==> links[j] != link
  {
    if links[0] == link then 0 else 1 + FirstIndex(links[1..], link)
  }

  /** The logo shown for a hoster name. */
  function LogoPath(name: string): string
  {
    "images/hoster_" + name + ".png"
  }

  /** What the dialog's layout receives: the title heading, or one group box per link with its logo and button id. */
  datatype Widget = Heading(text: string) | Box(logo: string, toolTip: string, buttonId: nat)

  /** The group box of the link at index `k`; `host` is what `QUrl(link).host()` gives. */
  function BoxAt(links: seq<string>, host: string -> string, k: nat): (w: Widget)
    requires k < |links|
    ensures w.Box? && w.buttonId <= k && links[w.buttonId] == links[k]
  {
    var index := FirstIndex(links, links[k]);
    var name := HosterName(host(links[index]));
    Box(LogoPath(name), name, index)
  }

  function Boxes(links: seq<string>, host: string -> string): seq<Widget>
  {
    seq(|links|, k requires 0 <= k < |links| => BoxAt(links, host, k))
  }

  /** A duplicated link shares the button id of its first occurrence. */
  lemma DuplicateSharesId(links: seq<string>, host: string -> string, j: nat, k: nat)
    requires j < k < |links| && links[j] == links[k]
    ensures Boxes(links, host)[k].buttonId == Boxes(links, host)[j].buttonId <= j
  {
  }

  /** The signals of the dialog. */
  datatype HosterSignal = CopyLink(link: string) | DownloadLink(link: string)

  class HosterLinks {
    const title: string
    const hasTitle: bool
    /** `self.hosters`. */
    var hosters: seq<string>
    /** The widgets added to the dialog's layout, in order. */
    var layout: seq<Widget>

    constructor(title: string, hasTitle: bool)
      ensures this.title == title && this.hasTitle == hasTitle
      ensures hosters == [] && layout == []
    {
      this.title, this.hasTitle := title, hasTitle;
      hosters, layout := [], [];
    }

    /** `show_hosters`: keeps the links, then adds the heading if there is a title and one box per link, in order. */
    method ShowHosters(links: seq<string>, host: string -> string)
      modifies this
      ensures hosters == links
      ensures layout == old(layout) + (if hasTitle then [Heading(title)] else []) + Boxes(links, host)
    {
      hosters := links;
      var added := layout + (if hasTitle then [Heading(title)] else []);
      ghost var start := added;
      var k := 0;
      while k < |links|
        invariant k <= |links|
        invariant added == start + Boxes(links, host)[..k]
      {
        assert Boxes(links, host)[..k + 1] == Boxes(links, host)[..k] + [BoxAt(links, host, k)];
        added := added + [BoxAt(links, host, k)];
        k := k + 1;
      }
      assert Boxes(links, host)[..k] == Boxes(links, host);
      layout := added;
    }

    /** `copy_link(button_id)`. */
    method CopyLinkSlot(buttonId: nat) returns (s: HosterSignal)
      requires buttonId < |hosters|
      ensures s == CopyLink(hosters[buttonId])
    {
      s := CopyLink(hosters[buttonId]);
    }

    /** `download_link(button_id)`. */
    method DownloadLinkSlot(buttonId: nat) returns (s: HosterSignal)
      requires buttonId < |hosters|
      ensures s == DownloadLink(hosters[buttonId])
    {
      s := DownloadLink(hosters[buttonId]);
    }
  }

  /** After `show_hosters(links)` on a fresh dialog, every box's button hands on exactly the link it was made for. */
  lemma ButtonCarriesItsLink(links: seq<string>, host: string -> string, k: nat)
    requires k < |links|
    ensures var w := Boxes(links, host)[k]; w.Box? && w.buttonId < |links| && links[w.buttonId] == links[k]
  {
  }
}
