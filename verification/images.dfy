/**
  Image embeds `![[name]]` and `![[name|size]]`: the section the page is in,
  the primary and fallback paths, and the `onerror` swap to the fallback.
 */
module Images {
  import opened Wrappers
  import opened Strings
  import opened Fields
  import opened Tree

  /** The top-level content sections a page can belong to. */
  datatype Section = Notes | Lab | Blog

  function Name(s: Section): string {
    match s
    case Notes => "notes"
    case Lab => "lab"
    case Blog => "blog"
  }

  /** `getCurrentSection`: the section whose `/name/` prefix the location path starts with. */
  function CurrentSection(path: string): (r: Option<Section>)
    ensures r.Some? ==> IsPrefix("/" + Name(r.value) + "/", path)
  {
    if IsPrefix("/notes/", path) then
      assert "/" + Name(Notes) + "/" == "/notes/";
      Some(Notes)
    else if IsPrefix("/lab/", path) then
      assert "/" + Name(Lab) + "/" == "/lab/";
      Some(Lab)
    else if IsPrefix("/blog/", path) then
      assert "/" + Name(Blog) + "/" == "/blog/";
      Some(Blog)
    else None
  }

  /**
    The section is `s` exactly when the path starts with `/s/`, and there is
    none exactly when it starts with none of them: the prefixes exclude each
    other, so the order of the tests does not matter.
   */
  lemma CurrentSectionIff(path: string, s: Section)
    ensures CurrentSection(path) == Some(s) <==> IsPrefix("/" + Name(s) + "/", path)
    ensures CurrentSection(path).None? <==>
      forall t: Section :: !IsPrefix("/" + Name(t) + "/", path)
  {
    assert "/" + Name(Notes) + "/" == "/notes/";
    assert "/" + Name(Lab) + "/" == "/lab/";
    assert "/" + Name(Blog) + "/" == "/blog/";
    if IsPrefix("/notes/", path) {
      assert path[1] == 'n';
    }
    if IsPrefix("/lab/", path) {
      assert path[1] == 'l';
    }
  }

  /** `name.replace(/^\//, '')`: at most one leading slash removed. */
  function StripSlash(name: string): (r: string)
    ensures |name| > 0 && name[0] == '/' ==> "/" + r == name
    ensures !(|name| > 0 && name[0] == '/') ==> r == name
  {
    if |name| > 0 && name[0] == '/' then name[1..] else name
  }

  /** Only the first of several leading slashes goes. */
  lemma StripSlashOnce(x: string)
    ensures StripSlash("/" + x) == x
  {
  }

  /** The directory an image is looked for first: the section's `assets/`, or the site root. */
  function PrimaryDir(section: Option<Section>): string {
    match section
    case Some(s) => "/" + Name(s) + "/assets/"
    case None => "/"
  }

  /** The `<img>` built for `![[content]]` on a page in `section`. */
  function RenderImage(section: Option<Section>, content: string): (r: Node)
    ensures r.Img? && r.alt == PipeFields(content).0
    ensures r.src == PrimaryDir(section) + StripSlash(PipeFields(content).0)
    ensures r.fallback.Some? <==> section.Some?
    ensures section.Some? ==> r.fallback == Some("/" + Name(section.value) + "/" + StripSlash(PipeFields(content).0))
    ensures r.maxWidth.Some? <==> PipeFields(content).1.Some? && PipeFields(content).1.value != ""
    ensures r.maxWidth.Some? ==> r.maxWidth == PipeFields(content).1
  {
    var f := PipeFields(content);
    var clean := StripSlash(f.0);
    var src := match section
      case Some(s) => "/" + Name(s) + "/assets/" + clean
      case None => "/" + clean;
    var fallback := match section
      case Some(s) => Some("/" + Name(s) + "/" + clean)
      case None => None;
    var maxWidth := if f.1.Some? && f.1.value != "" then f.1 else None;
    Img(src, f.0, maxWidth, fallback)
  }

  /**
    The primary and the fallback path end in the same cleaned name: the
    fallback is the primary with the `assets/` directory left out.
   */
  lemma FallbackDropsAssets(s: Section, content: string)
    ensures var r := RenderImage(Some(s), content);
      r.src == "/" + Name(s) + "/assets" + r.fallback.value[|Name(s)| + 1..]
  {
    var clean := StripSlash(PipeFields(content).0);
    var fb := "/" + Name(s) + "/" + clean;
    assert fb[|Name(s)| + 1..] == "/" + clean;
  }

  /**
    `![[name|size]]` on a page in section `s`, for instance `![[pic.png|300px]]`
    under `notes`: the name is looked for in `/s/assets/`, then in `/s/`, and a
    non-empty size becomes the maximum width.
   */
  lemma SizedEmbed(s: Section, name: string, size: string)
    requires '|' !in name && '|' !in size && Trimmed(name) && Trimmed(size)
    requires |name| == 0 || name[0] != '/'
    ensures RenderImage(Some(s), name + "|" + size) ==
      Img("/" + Name(s) + "/assets/" + name, name, if size == "" then None else Some(size),
          Some("/" + Name(s) + "/" + name))
  {
    assert name + "|" + size == name + "|" + size + "";
    PipeFieldsOf(name, size, "");
    TrimOfTrimmed(name);
    TrimOfTrimmed(size);
  }

  // ---------------------------------------------------------------------------
  // The onerror handler
  // ---------------------------------------------------------------------------

  /**
    `img.onerror` over `n` consecutive load failures, comparing the path as
    assigned (the intended reading of the `src` guard). Returns how many
    times the handler assigned `src`, each assignment starting a new load.
   */
  function Swaps(src: string, fallback: string, n: nat): (count: nat)
    ensures count <= 1
    ensures count == 1 <==> n > 0 && src != fallback
    decreases n
  {
    if n == 0 then 0
    else if src != fallback then 1 + Swaps(fallback, fallback, n - 1)
    else Swaps(src, fallback, n - 1)
  }

  /**
    The same handler with the comparison the browser actually performs: the
    `src` property reads back the absolute URL `origin + path`, while the
    fallback is a root-relative path.
   */
  function SwapsAsWritten(origin: string, src: string, fallback: string, n: nat): (count: nat)
    ensures count <= n
    decreases n
  {
    if n == 0 then 0
    else if origin + src != fallback then 1 + SwapsAsWritten(origin, fallback, fallback, n - 1)
    else SwapsAsWritten(origin, src, fallback, n - 1)
  }

  /**
    As written, the guard never stops the handler: an absolute URL never equals
    a root-relative path, so every failure, including those of the fallback
    itself, assigns `src` again and starts another load.
   */
  lemma {:induction false} AsWrittenRetriesForever(origin: string, src: string, fallback: string, n: nat)
    requires |origin| > 0 && origin[0] != '/'
    requires |fallback| > 0 && fallback[0] == '/'
    ensures SwapsAsWritten(origin, src, fallback, n) == n
    decreases n
  {
    if n > 0 {
      assert (origin + src)[0] != fallback[0];
      AsWrittenRetriesForever(origin, fallback, fallback, n - 1);
    }
  }

  /** Comparing the resolved `src` with the resolved fallback, the guard the handler evidently intends. */
  function SwapsResolved(origin: string, src: string, fallback: string, n: nat): (count: nat)
    ensures count == Swaps(src, fallback, n)
    decreases n
  {
    if n == 0 then 0
    else if origin + src != origin + fallback then 1 + SwapsResolved(origin, fallback, fallback, n - 1)
    else
      assert src == (origin + src)[|origin|..];
      SwapsResolved(origin, src, fallback, n - 1)
  }
}
