# Sidebar generator of the Canopy documentation site

The documentation site's configuration builds its "Design Docs" sidebar with
`getSidebarItems(dir)`. The function checks whether the directory exists and
lists it. It keeps the Markdown files other than `index.md` and strips the
`.md` suffix from each. It turns the kebab-case base name into a Title Case
title and emits one `{ text, link }` entry with link `/<dir>/<name>`.

This project models that function as pure Dafny over `string` = `seq<char>`:

- `strings.dfy` (module `Strings`): the JavaScript string operations used:
  `endsWith`, `split` and `join` with a one-character separator. It also holds
  their round trips: joining a split gives the string back, and splitting a
  join of separator-free segments gives the segments back.
- `title.dfy` (module `Title`): ASCII `toUpperCase`, the per-word
  capitalisation `word.charAt(0).toUpperCase() + word.slice(1)`, and
  `TitleCase`, defined exactly as the source computes it (split on `-`,
  capitalise each segment, join with spaces). A separate character-wise
  reading, `TitleChar`, is proved equal to it: a hyphen becomes a space, a
  segment's first character is upper-cased, and every other character is
  copied.
- `sidebar.dfy` (module `Sidebar`): the `NavItem` record, the page filter, the
  base name, the link, and `SidebarItems`. The filter has an independent
  reference description, `PageIndices`: the ascending positions of the listing
  that hold pages. The items are proved to be exactly the entries at those
  positions, in that order.

The filesystem is an input. `dirExists` stands for `fs.existsSync(fullPath)`
and `names` for `fs.readdirSync(fullPath)`, in the order the listing returns.

Two consequences of the code are easy to miss:

- A link can end in `.md`. `path.basename(file, '.md')` strips one suffix
  only, so `x.md.md` links to `/<dir>/x.md`. `LinkSuffix` and `PageItem`
  state exactly when this happens: when the entry ends in `.md.md`.
- The title has one space per hyphen of the name plus one per space already
  in the name (`TitleCaseSpaces`). The title's space-separated words are the
  capitalised hyphen-separated segments when the name has no spaces
  (`TitleCaseSegments`).

The function is pure once the filesystem is an input, so calling it twice on
the same listing gives the same items.

## Model

| member | source | states |
|---|---|---|
| Strings.Split | docs/.vitepress/config.ts:20 | `split('-')` always yields at least one segment, even for the empty name |
| Strings.SplitSegments | docs/.vitepress/config.ts:20 | a split has one segment more than the string has separators, and no segment contains the separator |
| Strings.JoinSplit | docs/.vitepress/config.ts:20-22 | joining the split segments with the same separator gives the original string back |
| Strings.SplitJoin | docs/.vitepress/config.ts:20-22 | splitting the join of a non-empty list of separator-free segments gives back exactly those segments |
| Title.Upper | docs/.vitepress/config.ts:21 | upper-casing never yields a lower-case ASCII letter; it changes only `a`..`z`, shifting each to its capital |
| Title.Capitalize | docs/.vitepress/config.ts:21 | a capitalised word has the word's length, its first character upper-cased and the rest (`slice(1)`) unchanged; an empty word stays empty |
| Title.TitleCaseCharacterwise | docs/.vitepress/config.ts:18-22 | the title has the name's length; position by position, a hyphen becomes a space, a segment's first character (first of the name, or right after a hyphen) is upper-cased, and every other character is copied |
| Title.TitleCaseLength | docs/.vitepress/config.ts:19-22 | the title is exactly as long as the base name |
| Title.TitleCaseNoHyphen | docs/.vitepress/config.ts:19-22 | no hyphen survives in the title |
| Title.TitleCaseSpaces | docs/.vitepress/config.ts:19-22 | the title has as many spaces as the name has hyphens plus spaces |
| Title.TitleCaseSegments | docs/.vitepress/config.ts:19-22 | for a name without spaces, the title's space-separated words are exactly the name's hyphen-separated segments, each capitalised |
| Title.TitleCaseOneSegment | docs/.vitepress/config.ts:19-22 | a name without hyphens is titled by capitalising it |
| Title.TitleCaseTwoSegments | docs/.vitepress/config.ts:19-22 | a name `a-b` is titled `Capitalize(a) + " " + Capitalize(b)` |
| Title.TitleCaseGettingStarted | docs/.vitepress/config.ts:18-22 | `getting-started` is titled `Getting Started` |
| Title.TitleCaseEmptySegment | docs/.vitepress/config.ts:20-22 | the empty segment between two hyphens stays empty: `a--b` is titled `A  B` |
| Sidebar.BaseName | docs/.vitepress/config.ts:17 | the base name is non-empty, and appending `.md` to it gives the listing entry back |
| Sidebar.PageItem | docs/.vitepress/config.ts:17-23 | an item's link followed by `.md` is `/<dir>/<entry>`; the link ends in `.md` exactly when the entry ends in `.md.md` |
| Sidebar.LinkSuffix | docs/.vitepress/config.ts:23 | `/<dir>/<name>` ends in `.md` exactly when `<name>.md` ends in `.md.md`, whatever `dir` is |
| Sidebar.PageIndices | docs/.vitepress/config.ts:15 | the page positions are strictly ascending, and a position is among them exactly when its entry ends in `.md` and is not `index.md` |
| Sidebar.SidebarItems | docs/.vitepress/config.ts:9-11 | a missing directory gives no items, whatever the listing |
| Sidebar.SidebarOrder | docs/.vitepress/config.ts:13-16 | there are as many items as page positions, and the k-th item is the item of the entry at the k-th page position, so listing order is kept |
| Sidebar.SidebarItemShape | docs/.vitepress/config.ts:17-23 | the k-th item links to `/<dir>/<base name>` of the entry at the k-th page position, and its title is the character-wise conversion of that base name |
| Sidebar.SidebarCount | docs/.vitepress/config.ts:13-16 | the number of items equals the number of listing entries that are pages |
| Sidebar.SidebarAppend | docs/.vitepress/config.ts:13-16 | the items of a concatenated listing are the first part's items followed by the second part's; nothing is sorted across entries |
| Sidebar.NoPagesNoItems | docs/.vitepress/config.ts:15 | a listing with no page (only `index.md`, only non-Markdown files) gives no items |
| Sidebar.SinglePage | docs/.vitepress/config.ts:13-24 | a listing of one page gives exactly that page's item |
| Sidebar.GettingStartedExample | docs/.vitepress/config.ts:13-24 | a directory holding `getting-started.md` gives one item `{ text: "Getting Started", link: "/<dir>/getting-started" }` |
| Sidebar.SkipsIndexAndOtherFiles | docs/.vitepress/config.ts:15 | in a listing `index.md`, a non-Markdown file, then pages `a` and `b`, only `a` and `b` give items, in that order |
| Sidebar.DuplicatesKept | docs/.vitepress/config.ts:13-16 | a page listed twice gives two identical items; there is no de-duplication |

## Left out

- The filesystem calls `fs.existsSync` and `fs.readdirSync` (docs/.vitepress/config.ts:9, 14) are I/O. They are the inputs `dirExists` and `names`. Their other failures (permissions, I/O errors) propagate out of the source and are not modelled.
- `path.join(__dirname, '..', dir)` (docs/.vitepress/config.ts:8) only resolves where to read. The model takes the listing directly; `dir` itself appears only in links, as in the source.
- Sidebar.SidebarItems: requires every listing entry to be a single path component (no `/`) and not exactly `.md`. `readdir` entries never contain a separator, and Node's `path.basename` treatment of the bare suffix `.md` is not modelled. Windows `\` separators are not modelled either.
- Title.Upper: models `toUpperCase` for ASCII `a`..`z` only and leaves every other character unchanged. Full Unicode case mapping can change a string's length (`ß` becomes `SS`), so `TitleCaseLength` holds for the model but not for every non-ASCII name in the source.
- The `defineConfig`/`withMermaid` configuration literal (docs/.vitepress/config.ts:27-77) is static data for external libraries: nav, sidebar grouping, social links, search provider and the edit-link pattern. It has no behaviour of its own.
