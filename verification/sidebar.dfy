/** The sidebar generator of the documentation site: from a directory's
    listing, one navigation entry per Markdown page other than the index,
    in listing order. The two filesystem queries it makes (does the
    directory exist, what does it list) are its inputs here. */
module Sidebar {
  import opened Strings
  import opened Title

  /** A sidebar entry: the displayed title and the site-relative link. */
  datatype NavItem = NavItem(text: string, link: string)

  const PageSuffix: string := ".md"
  const IndexPage: string := "index.md"

  /** An entry becomes a sidebar item when it is a Markdown file other than the index. */
  predicate IsPage(file: string) {
    EndsWith(file, PageSuffix) && file != IndexPage
  }

  /** The shape of a directory-listing entry as far as the base-name step
      relies on it: a single path component, not the bare suffix. */
  predicate IsEntry(file: string) {
    '/' !in file && file != PageSuffix
  }

  predicate IsListing(names: seq<string>) {
    forall i :: 0 <= i < |names| ==> IsEntry(names[i])
  }

  /** `path.basename(file, '.md')` of a Markdown listing entry: the name
      without its one trailing `.md`; appending `.md` gives the entry back. */
  function BaseName(file: string): (name: string)
    requires IsEntry(file) && EndsWith(file, PageSuffix)
    ensures name + PageSuffix == file
    ensures |name| > 0
  {
    file[..|file| - |PageSuffix|]
  }

  /** The entry of one page in directory `dir`. */
  function PageItem(dir: string, file: string): (item: NavItem)
    requires IsEntry(file) && EndsWith(file, PageSuffix)
    ensures item.link + PageSuffix == "/" + dir + "/" + file
    ensures EndsWith(item.link, PageSuffix) <==> EndsWith(file, PageSuffix + PageSuffix)
  {
    var name := BaseName(file);
    assert ("/" + dir + "/" + name) + PageSuffix == "/" + dir + "/" + file;
    LinkSuffix(dir, name);
    NavItem(TitleCase(name), "/" + dir + "/" + name)
  }

  /** A link ends with `.md` exactly when its base name does: the `/` in
      front of the base name can never be part of a `.md` suffix. */
  lemma LinkSuffix(dir: string, name: string)
    requires |name| > 0 && '/' !in name
    ensures EndsWith("/" + dir + "/" + name, PageSuffix) <==> EndsWith(name + PageSuffix, PageSuffix + PageSuffix)
  {
    var link := "/" + dir + "/" + name;
    var n := |PageSuffix|;
    if |name| >= n {
      assert link[|link| - n..] == name[|name| - n..];
      var tail := name[|name| - n..];
      assert (name + PageSuffix)[|name| - n..] == tail + PageSuffix;
      assert tail + PageSuffix == PageSuffix + PageSuffix ==> tail == (tail + PageSuffix)[..n];
    } else {
      assert link[|link| - |name| - 1] == '/';
      assert link[|link| - n..][n - |name| - 1] == '/';
    }
  }

  /** The Markdown entries other than the index, in listing order. */
  function Pages(names: seq<string>): seq<string> {
    if |names| == 0 then []
    else Pages(names[..|names| - 1]) + (if IsPage(names[|names| - 1]) then [names[|names| - 1]] else [])
  }

  /** The positions of the listing that hold pages, ascending: a reference
      description of which entries the filter keeps. */
  function PageIndices(names: seq<string>): (ix: seq<nat>)
    ensures forall k :: 0 <= k < |ix| ==> ix[k] < |names| && IsPage(names[ix[k]])
    ensures forall k, l :: 0 <= k < l < |ix| ==> ix[k] < ix[l]
    ensures forall i :: i in ix <==> 0 <= i < |names| && IsPage(names[i])
  {
    if |names| == 0 then []
    else
      var prefix := names[..|names| - 1];
      var ix := PageIndices(prefix);
      assert forall k :: 0 <= k < |ix| ==> names[ix[k]] == prefix[ix[k]];
      if IsPage(names[|names| - 1]) then ix + [|names| - 1] else ix
  }

  function PageItems(dir: string, files: seq<string>): seq<NavItem>
    requires forall i :: 0 <= i < |files| ==> IsEntry(files[i]) && EndsWith(files[i], PageSuffix)
  {
    seq(|files|, k requires 0 <= k < |files| => PageItem(dir, files[k]))
  }

  /** Every page of a listing is one of its entries. */
  lemma {:induction false} PagesOfListing(names: seq<string>)
    requires IsListing(names)
    ensures forall i :: 0 <= i < |Pages(names)| ==> IsEntry(Pages(names)[i]) && IsPage(Pages(names)[i])
  {
    if |names| > 0 {
      PagesOfListing(names[..|names| - 1]);
    }
  }

  /** `getSidebarItems(dir)`: nothing when the directory is missing; otherwise
      the listing filtered to pages, each turned into its entry. */
  function SidebarItems(dir: string, dirExists: bool, names: seq<string>): (items: seq<NavItem>)
    requires IsListing(names)
    ensures !dirExists ==> items == []
  {
    if !dirExists then []
    else
      PagesOfListing(names);
      PageItems(dir, Pages(names))
  }

  /** The filtered pages are the entries at the page positions, in order. */
  lemma {:induction false} PagesAtIndices(names: seq<string>)
    ensures |Pages(names)| == |PageIndices(names)|
    ensures forall k :: 0 <= k < |Pages(names)| ==> Pages(names)[k] == names[PageIndices(names)[k]]
  {
    if |names| > 0 {
      var prefix := names[..|names| - 1];
      PagesAtIndices(prefix);
      assert forall k :: 0 <= k < |PageIndices(prefix)| ==> names[PageIndices(prefix)[k]] == prefix[PageIndices(prefix)[k]];
    }
  }

  /** Which entries yield an item, and where: the `k`-th item is the entry of
      the `k`-th page position of the listing, for every `k`. Together with the contract of
      `PageIndices` (ascending, exactly the page positions) this says the
      listing order is kept, nothing is sorted and nothing is de-duplicated. */
  lemma {:induction false} SidebarOrder(dir: string, names: seq<string>, k: nat)
    requires IsListing(names)
    ensures |SidebarItems(dir, true, names)| == |PageIndices(names)|
    ensures k < |PageIndices(names)| ==>
              SidebarItems(dir, true, names)[k] == PageItem(dir, names[PageIndices(names)[k]])
  {
    PagesAtIndices(names);
  }

  /** Each item links to `/<dir>/<base name>` of its entry and is titled by
      the character-wise conversion of that base name. */
  lemma SidebarItemShape(dir: string, names: seq<string>, k: nat)
    requires IsListing(names) && k < |PageIndices(names)|
    ensures var file := names[PageIndices(names)[k]];
      && k < |SidebarItems(dir, true, names)|
      && SidebarItems(dir, true, names)[k].link == "/" + dir + "/" + BaseName(file)
      && TitleOf(BaseName(file), SidebarItems(dir, true, names)[k].text)
  {
    SidebarOrder(dir, names, k);
    TitleCaseCharacterwise(BaseName(names[PageIndices(names)[k]]));
  }

  /** The positions of the listing holding pages, as a set. */
  ghost function PageSet(names: seq<string>): set<nat> {
    set i: nat | i < |names| && IsPage(names[i])
  }

  lemma {:induction false} PagesCount(names: seq<string>)
    ensures |Pages(names)| == |PageSet(names)|
  {
    if |names| > 0 {
      var last := |names| - 1;
      var prefix := names[..last];
      PagesCount(prefix);
      var rest := if IsPage(names[last]) then {last} else {};
      assert PageSet(names) == PageSet(prefix) + rest by {
        forall i: nat | i < last
          ensures names[i] == prefix[i]
        {
        }
      }
      assert PageSet(prefix) !! rest;
    }
  }

  /** There are exactly as many items as there are page entries in the listing. */
  lemma SidebarCount(dir: string, names: seq<string>)
    requires IsListing(names)
    ensures |SidebarItems(dir, true, names)| == |PageSet(names)|
  {
    PagesCount(names);
  }

  lemma {:induction false} PagesAppend(a: seq<string>, b: seq<string>)
    ensures Pages(a + b) == Pages(a) + Pages(b)
    decreases |b|
  {
    if |b| == 0 {
      assert a + b == a;
    } else {
      var b' := b[..|b| - 1];
      assert (a + b)[..|a + b| - 1] == a + b';
      PagesAppend(a, b');
    }
  }

  /** The listing is processed entry by entry with no reordering across
      entries: the items of a concatenated listing are the items of the
      first part followed by the items of the second. */
  lemma SidebarAppend(dir: string, a: seq<string>, b: seq<string>)
    requires IsListing(a) && IsListing(b)
    ensures IsListing(a + b)
    ensures SidebarItems(dir, true, a + b) == SidebarItems(dir, true, a) + SidebarItems(dir, true, b)
  {
    ListingAppend(a, b);
    PagesAppend(a, b);
    PagesOfListing(a);
    PagesOfListing(b);
    PageItemsAppend(dir, Pages(a), Pages(b));
  }

  lemma ListingAppend(a: seq<string>, b: seq<string>)
    requires IsListing(a) && IsListing(b)
    ensures IsListing(a + b)
  {
    assert forall i :: 0 <= i < |a + b| ==> (a + b)[i] == if i < |a| then a[i] else b[i - |a|];
  }

  lemma PageItemsAppend(dir: string, pa: seq<string>, pb: seq<string>)
    requires forall i :: 0 <= i < |pa| ==> IsEntry(pa[i]) && EndsWith(pa[i], PageSuffix)
    requires forall i :: 0 <= i < |pb| ==> IsEntry(pb[i]) && EndsWith(pb[i], PageSuffix)
    ensures forall i :: 0 <= i < |pa + pb| ==> IsEntry((pa + pb)[i]) && EndsWith((pa + pb)[i], PageSuffix)
    ensures PageItems(dir, pa + pb) == PageItems(dir, pa) + PageItems(dir, pb)
  {
    assert forall i :: 0 <= i < |pa + pb| ==> (pa + pb)[i] == if i < |pa| then pa[i] else pb[i - |pa|];
  }

  /** A listing without pages (only the index, only non-Markdown files) gives no items. */
  lemma {:induction false} NoPagesNoItems(dir: string, names: seq<string>)
    requires IsListing(names)
    requires forall i :: 0 <= i < |names| ==> !IsPage(names[i])
    ensures SidebarItems(dir, true, names) == []
  {
    if |names| > 0 {
      NoPagesNoItems(dir, names[..|names| - 1]);
    }
  }

  /** A listing of one page gives exactly that page's entry. */
  lemma SinglePage(dir: string, file: string)
    requires IsEntry(file) && IsPage(file)
    ensures SidebarItems(dir, true, [file]) == [PageItem(dir, file)]
  {
    assert Pages([file]) == [file] by {
      assert [file][..0] == [];
    }
    assert PageItems(dir, [file]) == [PageItem(dir, file)];
  }

  lemma GettingStartedName(file: string)
    requires file == "getting-started.md"
    ensures IsEntry(file) && IsPage(file) && BaseName(file) == "getting-started"
  {
  }

  lemma GettingStartedLink(dir: string, file: string)
    requires file == "getting-started.md"
    ensures IsEntry(file) && IsPage(file)
    ensures "/" + dir + "/" + BaseName(file) == "/" + dir + "/getting-started"
  {
    GettingStartedName(file);
    assert "/" + dir + "/" + BaseName(file) == ("/" + dir) + ("/" + BaseName(file));
    assert "/" + BaseName(file) == "/getting-started";
  }

  /** The documented example: a directory holding only `getting-started.md`
      has one entry, titled `Getting Started`, linking to `/<dir>/getting-started`. */
  lemma GettingStartedExample(dir: string, file: string)
    requires file == "getting-started.md"
    ensures SidebarItems(dir, true, [file]) == [NavItem("Getting Started", "/" + dir + "/getting-started")]
  {
    GettingStartedName(file);
    SinglePage(dir, file);
    var name := BaseName(file);
    TitleCaseGettingStarted(name);
    GettingStartedLink(dir, file);
    assert PageItem(dir, file) == NavItem(TitleCase(name), "/" + dir + "/" + name);
  }

  /** The index page and a file that is not Markdown (`notes.txt`, say) are
      skipped; the two pages after them give one entry each, in order. */
  lemma SkipsIndexAndOtherFiles(dir: string, other: string, a: string, b: string)
    requires IsEntry(other) && !EndsWith(other, PageSuffix)
    requires IsEntry(a) && IsPage(a) && IsEntry(b) && IsPage(b)
    ensures SidebarItems(dir, true, [IndexPage, other, a, b]) == [PageItem(dir, a), PageItem(dir, b)]
  {
    var skipped := [IndexPage, other];
    assert [IndexPage, other, a, b] == skipped + ([a] + [b]);
    NoPagesNoItems(dir, skipped);
    SidebarAppend(dir, [a], [b]);
    SidebarAppend(dir, skipped, [a] + [b]);
    SinglePage(dir, a);
    SinglePage(dir, b);
  }

  /** Two entries with the same name give two identical items. */
  lemma DuplicatesKept(dir: string, file: string)
    requires IsEntry(file) && IsPage(file)
    ensures SidebarItems(dir, true, [file, file]) == [PageItem(dir, file), PageItem(dir, file)]
  {
    SinglePage(dir, file);
    SidebarAppend(dir, [file], [file]);
    assert [file] + [file] == [file, file];
  }
}
