# Wikilinks for a static site, modelled in Dafny

The site's `wikilinks.js` rewrites the rendered page in the browser. It loads a
pre-built page index, then walks the text under `<main>` and replaces Obsidian-style
markup:

- `[[target]]` and `[[target|label]]` become links. The target is normalised into a
  slug and resolved through a chain of index lookups. An unresolved link is
  rendered as a broken link.
- `![[name]]` and `![[name|size]]` become images. On a page under `/notes/`, `/lab/`
  or `/blog/` the image is looked for in that section's `assets/` directory, with
  `/section/name` at the section root as the fallback. On any other page its source
  is `/name` and it has no fallback.

The model replaces the DOM by an immutable node tree and the browser by parameters:
the page path, the decoded index payload and the children of `<main>`. Every step
of the script is a pure function.

| file | module | what it models |
|---|---|---|
| `wrappers.dfy` | `Wrappers` | `Option`, for `null` and `undefined` |
| `strings.dfy` | `Strings` | `startsWith`, `endsWith`, `includes`, `trim`, ASCII `toLowerCase` and `split`, with a `JoinWith` that exists only as the inverse `split` is proved against |
| `page_index.dfy` | `PageIndex` | the insertion-ordered `Map` and `loadPageIndex` |
| `scanner.dfy` | `Scanner` | the global regex `(!?)\[\[([^\]]+)\]\]` and its `exec` loop over one text node |
| `fields.dfy` | `Fields` | the split of the content at its pipes, the step shared by links and images |
| `slug.dfy` | `Slug` | `toLowerCase().replace(/[_ ]+/g, '-')` |
| `links.dfy` | `Links` | the lookup chain, the partial match and the `<a>` that is built |
| `images.dfy` | `Images` | `getCurrentSection`, the image paths, the `<img>` that is built and the `onerror` handler |
| `tree.dfy` | `Tree` | the nodes of the content tree |
| `rewriter.dfy` | `Rewriter` | `processNode`, `convertWikilinks` and `init` |

The model follows the code as written, including these behaviours a reader might not expect:

- Both fields are trimmed only when the content holds a `|`. Without one, the link
  target, the link label and the image name are the raw content, untrimmed. The
  slug is computed from that untrimmed target.
- The image `alt` is the image name before its leading `/` is removed: the raw
  content without a pipe, the trimmed first field with one. The paths use the
  name with one leading `/` removed.
- The lookup chain treats an index entry whose URL is the empty string as a miss,
  because `||` treats `""` as falsy.
- The partial match stops at the first key with the right suffix, even when that
  key's URL is empty. The link is then broken, although a later key might have
  resolved it.
- The `onerror` guard does not stop after one swap; see Findings.

## Model

| member | source | states |
|---|---|---|
| PageIndex.Find | public/js/wikilinks.js:5 | the position of a key in iteration order is its first occurrence, and there is none when the key is absent |
| PageIndex.Get | public/js/wikilinks.js:118-121 | `get` returns a value exactly when the key is present, and with unique keys that value is the one stored under the key |
| PageIndex.Set | public/js/wikilinks.js:17-20 | after `set(k, v)` the key `k` maps to `v` and every other key is unchanged; keys stay unique; an existing key keeps its position and a new one is appended |
| PageIndex.AddEntry | public/js/wikilinks.js:15-22 | one record writes its URL under its slug, and under its basename when that is non-empty; every other key is unchanged; the keys it adds are appended slug first, then basename, each only if it was absent |
| PageIndex.AddAll | public/js/wikilinks.js:15-22 | the `forEach` fold keeps the keys unique |
| PageIndex.Survivors | public/js/wikilinks.js:12-26 | the records that are loaded are the prefix before the first malformed element, because the exception leaves the whole `try` |
| PageIndex.LoadPageIndex | public/js/wikilinks.js:8-27 | a missing element, a payload that does not parse and a payload without `pages` all leave the index empty; the loaded keys are unique |
| PageIndex.AddAllLastWriteWins | public/js/wikilinks.js:15-22 | after the fold a key maps to the URL of the last record that writes it, and a key no record writes keeps its earlier value |
| PageIndex.LoadLastWriteWins | public/js/wikilinks.js:8-27 | the loaded index maps each key to the URL of the last surviving record that writes it, and has no entry for a key that no record writes |
| PageIndex.AddAllKeepsPositions | public/js/wikilinks.js:15-22 | loading never moves a key that is already present; new keys are only appended |
| PageIndex.SetKeyOrder | public/js/wikilinks.js:17-20 | `map.set` appends its key exactly when the key is absent, and otherwise leaves the key order alone |
| PageIndex.WriteOrder | public/js/wikilinks.js:17-21 | the keys one record sets are exactly the keys it writes, slug before basename |
| PageIndex.WriteOrders | public/js/wikilinks.js:15-22 | the keys a run of records sets are exactly those some record of the run writes |
| PageIndex.FirstSeen | public/js/wikilinks.js:15-22 | the keys a run of `set` calls appends are the written keys not yet present, each once, in order of first write |
| PageIndex.FirstSeenAppend | public/js/wikilinks.js:15-22 | appending keys in two runs of `set` calls is the same as appending them in one run |
| PageIndex.AddAllKeyOrder | public/js/wikilinks.js:15-22 | after loading, the keys are the old keys followed by each new key at its first write, so a record's slug precedes its basename unless the basename was written earlier; this is the order the partial match scans |
| PageIndex.LoadKeyOrder | public/js/wikilinks.js:8-27 | the loaded index iterates its keys in order of first write over the surviving records |
| PageIndex.MalformedTruncates | public/js/wikilinks.js:12-26 | records before a malformed element are loaded and records after it are not |
| Strings.TrimStart | public/js/wikilinks.js:72 | the result is a suffix of the input, what it drops is whitespace, and it does not begin with whitespace |
| Strings.TrimEnd | public/js/wikilinks.js:72 | the result is a prefix of the input, what it drops is whitespace, and it does not end with whitespace |
| Strings.Trim | public/js/wikilinks.js:72-73 | the result is the middle of the input, all that surrounds it is whitespace, and neither of its ends is whitespace |
| Strings.TrimIdempotent | public/js/wikilinks.js:110-111 | trimming a trimmed field changes nothing |
| Strings.Lower | public/js/wikilinks.js:115 | lower-casing keeps the length and maps every character independently, leaving no upper-case ASCII letter |
| Strings.LowerIdempotent | public/js/wikilinks.js:115 | lower-casing twice is lower-casing once |
| Strings.LowerAppend | public/js/wikilinks.js:115 | lower-casing works character by character, so lower-casing a concatenation concatenates the lower-cased parts |
| Strings.SplitOn | public/js/wikilinks.js:71 | `split` gives at least one field, no field contains the separator, and there are two or more fields exactly when the separator occurs |
| Strings.JoinSplit | public/js/wikilinks.js:109 | joining the fields of a split with the separator rebuilds the string |
| Strings.SplitJoin | public/js/wikilinks.js:109 | splitting a join of separator-free fields gives back those fields |
| Fields.PipeFields | public/js/wikilinks.js:105-112 | without a pipe the content is taken whole with no second field; with one there is a second field and both fields are trimmed |
| Fields.PipeFieldsOf | public/js/wikilinks.js:108-112 | for `a`, a pipe and `b`, followed by nothing or by more pipes, the fields are `trim(a)` and `trim(b)`, so anything after a second pipe is ignored |
| Fields.PipeFieldsOfShape | public/js/wikilinks.js:108-112 | whenever content is `a`, a pipe, `b` and nothing or a further pipe-field, the two fields are `a` and `b` trimmed |
| Fields.PipeFieldsShape | public/js/wikilinks.js:108-112 | every content holding a pipe has that shape, so `PipeFieldsOf` describes every such content |
| Slug.Collapse | public/js/wikilinks.js:115 | the replacement never lengthens the string; `CollapseRun`, `CollapseFixed` and `CollapseChars` state what it replaces |
| Slug.SepRun | public/js/wikilinks.js:115 | one maximal `[_ ]+` run at the start of the string |
| Slug.Slugify | public/js/wikilinks.js:115 | a slug contains no space and no underscore and is no longer than the target; a target without spaces or underscores becomes its lower-cased self |
| Slug.CollapseFixed | public/js/wikilinks.js:115 | the replacement changes a string exactly when the string contains a space or an underscore |
| Slug.CollapseChars | public/js/wikilinks.js:115 | every character of the result is a hyphen or a character of the input |
| Slug.CollapseRun | public/js/wikilinks.js:115 | a maximal run of spaces and underscores becomes a single hyphen, and the text on either side is replaced independently |
| Slug.SlugifyRun | public/js/wikilinks.js:115 | the slug of a target is built piecewise: a maximal run of spaces and underscores becomes one hyphen between the lower-cased, collapsed text on either side |
| Slug.SlugIdempotent | public/js/wikilinks.js:115 | normalising a slug again leaves it unchanged |
| Slug.LeadingSeparator | public/js/wikilinks.js:115 | a target that starts with a space or an underscore gives a slug that starts with a hyphen |
| Scanner.LinkSpanChars | public/js/wikilinks.js:51 | a `[[c]]` match at `p` is, character by character, `[`, `[`, the content, `]`, `]` |
| Scanner.ImageSpanChars | public/js/wikilinks.js:51 | an image match at `p` is a `!` followed by a link match at `p + 1` |
| Scanner.MatchAt | public/js/wikilinks.js:51 | the pattern tried at one position finds only link or image matches; `MatchAtSound` and `MatchAtComplete` state that it finds exactly the pattern's matches |
| Scanner.ContentFrom | public/js/wikilinks.js:51 | the greedy `[^\]]+` capture is non-empty, is the text from its start, and leaves room for the closing `]]` |
| Scanner.MatchAtSound | public/js/wikilinks.js:51 | every match the matcher reports at a position is a match of the pattern there, with non-empty content free of `]` |
| Scanner.MatchAtComplete | public/js/wikilinks.js:51 | whenever the pattern matches at a position, the matcher reports exactly that match; the `!` is captured exactly when it is present |
| Scanner.ContentFromSound | public/js/wikilinks.js:51 | the content the greedy `[^\]]+` captures is non-empty, contains no `]`, and is followed by `]]` |
| Scanner.ContentFromComplete | public/js/wikilinks.js:51 | the greedy `[^\]]+` captures the content of any link match |
| Scanner.MatchLength | public/js/wikilinks.js:148 | a match is at least five characters long and spells its own source text at its index, so `lastIndex` advances past it |
| Scanner.MatchesPattern | public/js/wikilinks.js:51 | the match table holds, at each position, exactly the image or link match of the pattern starting there, with its content, and nothing where the pattern does not match |
| Scanner.ScanFrom | public/js/wikilinks.js:54-154 | the `exec` loop produces the leftmost tokenisation of the rest of the text; its tokens rebuild the text; the result is well formed; no literal contains a match |
| Scanner.Scan | public/js/wikilinks.js:49-154 | the fragment's tokens are the leftmost tokenisation of the whole text and rebuild it exactly; literals are non-empty and never adjacent, and none of them contains a match |
| Scanner.LeftmostUnique | public/js/wikilinks.js:54-149 | the leftmost tokenisation of a text is unique |
| Scanner.ScanUnique | public/js/wikilinks.js:54-149 | a token list is the leftmost tokenisation of a text exactly when it is the scan of that text |
| Scanner.JoinStep | public/js/wikilinks.js:59-61 | the text before a match, the match and the rest rebuild the text from `lastIndex` on |
| Scanner.SliceInert | public/js/wikilinks.js:59-60 | a stretch of the text without a match start holds no match of its own either |
| Scanner.MatchFreeScan | public/js/wikilinks.js:152-154 | a text without a match scans to one literal, or to nothing when empty |
| Scanner.ScanLiteralsInert | public/js/wikilinks.js:59-60 | each literal of a scan scans to itself |
| Scanner.NoBracketsInert | public/js/wikilinks.js:47 | a text without `[[` holds no match and scans to at most one literal |
| Links.Or | public/js/wikilinks.js:118-121 | the `or` of two lookups is truthy exactly when one operand is; it is `a` itself when `a` is truthy and `b` itself otherwise |
| Links.Candidates | public/js/wikilinks.js:118-121 | the chain looks up four keys |
| Links.Chain | public/js/wikilinks.js:118-121 | the chain returns one of the four lookups, and is truthy exactly when one of them is |
| Links.ChainFirstHit | public/js/wikilinks.js:118-121 | the chain returns the value of the first of the four candidate keys with a non-empty URL, and nothing truthy when none has one |
| Links.PartialMatch | public/js/wikilinks.js:124-131 | the partial match is the first index entry, in insertion order, whose key ends in `/slug` or `-slug`, and there is none when no key does |
| Links.FindHref | public/js/wikilinks.js:118-131 | the `href` is the first hitting candidate's URL; with no hit it is the partial match's URL, or nothing truthy |
| Links.Target | public/js/wikilinks.js:105-112 | the link target is the raw content without a pipe; with one, it is the text before the first pipe, trimmed |
| Links.Label | public/js/wikilinks.js:105-112 | the label is the raw content without a pipe; with one, it is the text between the first and second pipe, trimmed |
| Links.RenderLink | public/js/wikilinks.js:133-143 | a link is an `<a>` showing the label, with the class list `wikilink` or `wikilink broken`; it is broken exactly when no URL was found, and then has `href="#"`, the class `broken` and the title `Page not found: target`; otherwise its `href` is the URL found |
| Links.ResolvedIff | public/js/wikilinks.js:118-143 | a link resolves exactly when some candidate key has a non-empty URL, or else when the first partial match has one |
| Links.FirstHitOf | public/js/wikilinks.js:118-121 | when some candidate hits, there is a first hitting candidate, no later than that one |
| Links.PartialStopsAtFirst | public/js/wikilinks.js:124-131 | when the first suffix-matching key has an empty URL the search still stops there, and the link is broken |
| Images.CurrentSection | public/js/wikilinks.js:30-36 | a section is reported only when the path starts with its `/name/` prefix; `CurrentSectionIff` adds the converse |
| Images.CurrentSectionIff | public/js/wikilinks.js:30-36 | the section is `s` exactly when the path starts with `/s/`, and there is none exactly when the path starts with none of the three prefixes |
| Images.StripSlash | public/js/wikilinks.js:77 | one leading `/` is removed, and a name without one is unchanged |
| Images.StripSlashOnce | public/js/wikilinks.js:77 | only the first of several leading slashes is removed |
| Images.RenderImage | public/js/wikilinks.js:65-102 | the `<img>`: `alt` is the name, `src` is the section's `assets/` directory plus the cleaned name (with no section, `/` plus the cleaned name), there is a fallback exactly when there is a section (`/section/` plus the cleaned name), and there is a maximum width exactly when the size is non-empty |
| Images.FallbackDropsAssets | public/js/wikilinks.js:80-85 | the fallback path is the primary path without the `assets/` directory |
| Images.SizedEmbed | public/js/wikilinks.js:67-93 | on a page in a section, an embed of a name, a pipe and a size loads `/section/assets/name`, falls back to `/section/name`, and uses the size as the maximum width |
| Images.Swaps | public/js/wikilinks.js:96-100 | the handler as intended: over any number of load failures it swaps `src` at most once, and exactly once when it fails at least once on a path other than the fallback |
| Images.SwapsAsWritten | public/js/wikilinks.js:96-100 | the handler as written, comparing the absolute `src` with the fallback path: at most one assignment per failure |
| Images.AsWrittenRetriesForever | public/js/wikilinks.js:96-100 | as written, the handler reassigns `src` on every failure, because the absolute URL it reads back never equals the root-relative fallback path |
| Images.SwapsResolved | public/js/wikilinks.js:96-100 | comparing the resolved `src` with the resolved fallback gives the one-swap behaviour of `Swaps` |
| Rewriter.RenderToken | public/js/wikilinks.js:59-146 | a literal becomes a text node with its text, an image match becomes the `<img>` that `RenderImage` builds for the page's section, and a link match becomes the `<a>` that `RenderLink` builds from the index |
| Rewriter.MayHoldMarkup | public/js/wikilinks.js:47 | the guard sends a text to the scan exactly when it is non-empty and holds `[[`; the `![[` test adds nothing |
| Rewriter.ExpandText | public/js/wikilinks.js:45-158 | a text the guard rejects is kept as it is; a text the guard sends to the scan is replaced by the nodes of its scan |
| Rewriter.ProcessNode | public/js/wikilinks.js:44-166 | the walk leaves no markup behind; a text node is replaced by the nodes its text expands to; an element that is not skipped keeps its tag and has its children walked; a skipped element (`CODE`, `PRE`, `SCRIPT`, `STYLE`, `A`) and every node other than a text or an element stay as they are |
| Rewriter.ProcessChildren | public/js/wikilinks.js:164 | after the walk over the children, no text outside a skipped element holds markup |
| Rewriter.ExpandClean | public/js/wikilinks.js:54-154 | the nodes a text expands to hold no markup |
| Rewriter.InertKept | public/js/wikilinks.js:156-158 | a text without a match is kept as it is |
| Rewriter.CleanNodeFixed | public/js/wikilinks.js:44-166 | the walk leaves a node without markup unchanged |
| Rewriter.CleanFixed | public/js/wikilinks.js:44-166 | the walk leaves a sequence of nodes without markup unchanged |
| Rewriter.FixedIff | public/js/wikilinks.js:44-166 | the walk changes a sequence of nodes exactly when some text in it, outside the skipped elements, holds markup |
| Rewriter.ProcessIdempotent | public/js/wikilinks.js:168 | rewriting the rewritten content again changes nothing |
| Rewriter.SkipRule | public/js/wikilinks.js:159-164 | an element whose tag is `CODE`, `PRE`, `SCRIPT`, `STYLE` or `A` is left unchanged whatever it holds; any other element changes exactly when a text below it, outside skipped elements, holds markup |
| Rewriter.ChildrenAppend | public/js/wikilinks.js:164 | the walk handles children one by one: the walk over two runs of children is the two walks, concatenated |
| Rewriter.TextSplice | public/js/wikilinks.js:156-164 | a text node among its siblings is replaced in place by the nodes its text expands to, and the siblings before and after it are walked unchanged in position |
| Rewriter.GuardSound | public/js/wikilinks.js:47 | the guard's `![[` test implies its `[[` test, so a text without `[[` is left untouched; and a text the guard rejects would have scanned to itself |
| Rewriter.ConvertWikilinks | public/js/wikilinks.js:39-169 | with a `<main>` its children are replaced by their walk, so the result holds no markup and content without markup comes back unchanged; without a `<main>` nothing happens |
| Rewriter.Init | public/js/wikilinks.js:172-175 | the page is rewritten exactly when it has a `<main>`, by a walk that resolves links in the index loaded from the payload and places images by the section of the page path; the rewritten content holds no markup |

## Left out

- The DOM is replaced by the immutable `Tree.Node`. `document.getElementById`, `querySelector('main')` and `replaceChild` become parameters and return values. `processNode(mainContent)` is modelled as the walk over the children of `<main>`, whose tag `MAIN` is never skipped.
- `window.location.pathname` is a parameter of `Init`.
- `JSON.parse` is not modelled. The payload arrives already decoded, with `None` for a missing element, a parse error or a falsy `pages`. Records whose `s`, `b` or `u` are not strings are not modelled. Of the non-record elements, only one on which reading `p.s` throws is modelled, as `Malformed`.
- `console.warn` is left out, because it has no effect on the page.
- The attributes `loading="lazy"`, `height`, `display` and `margin` are left out. They are constants that no property depends on.
- `link.href` and `img.src` are kept as the strings assigned; the browser's resolution to absolute URLs is not modelled. The only place it matters is the `onerror` comparison, which `Images.SwapsAsWritten` models with an explicit origin.
- The readiness check and the `DOMContentLoaded` listener are left out. They only decide when `init` runs.
- Strings.Lower: handles only ASCII letters; `toLowerCase` also maps non-ASCII letters, and those mappings are not modelled.
- Strings are sequences of Unicode characters. JavaScript strings are UTF-16 code units, so a character outside the Basic Multilingual Plane counts as two positions there. This is not modelled.
- Images.RenderImage: the size is kept as the string assigned to `style.maxWidth`. The browser drops a value that is not valid CSS, so `![[pic.png|300]]` gets no maximum width there. The model gives it `Some("300")`, because CSS parsing is not modelled.
- Images.Swaps: the load-failure events are abstracted to a count of failures. The asynchronous event delivery is not modelled.

## Findings

| source | as written | input that shows it | evidently intended | confidence | as-written member | corrected member |
|---|---|---|---|---|---|---|
| public/js/wikilinks.js:96-100 | `this.src !== fallbackPath` compares the absolute URL the `src` property returns with a root-relative path, so it is always true and every failure reassigns `src` | `![[missing.png]]` on a page under `/notes/`, with neither `/notes/assets/missing.png` nor `/notes/missing.png` present; each failure of the fallback starts another load of it | swap to the fallback once, then leave a broken image | high, not executed | Images.AsWrittenRetriesForever | Images.SwapsResolved |
