/**
  Link resolution for `[[target]]` and `[[target|label]]`: the slug, the
  lookup chain through the page index, the partial-match fallback, and the
  `<a>` that is emitted.
 */
module Links {
  import opened Wrappers
  import opened Strings
  import opened PageIndex
  import opened Slug
  import opened Fields
  import opened Tree

  /** JavaScript truthiness of a lookup result: present and not the empty string. */
  predicate Truthy(o: Option<string>) {
    o.Some? && o.value != ""
  }

  /** `a || b` */
  function Or(a: Option<string>, b: Option<string>): (r: Option<string>)
    ensures Truthy(r) <==> Truthy(a) || Truthy(b)
    ensures Truthy(a) ==> r == a
    ensures !Truthy(a) ==> r == b
  {
    if Truthy(a) then a else b
  }

  /** The keys the chain tries, in order. */
  function Candidates(slug: string): (ks: seq<string>)
    ensures |ks| == 4
  {
    [slug, "notes/" + slug, "lab/" + slug, "blog/" + slug]
  }

  /** `allPages.get(slug) || allPages.get('notes/' + slug) || ... || allPages.get('blog/' + slug)` */
  function Chain(idx: Index, slug: string): (r: Option<string>)
    ensures r == Get(idx, slug) || r == Get(idx, "notes/" + slug) || r == Get(idx, "lab/" + slug) || r == Get(idx, "blog/" + slug)
    ensures Truthy(r) <==> Truthy(Get(idx, slug)) || Truthy(Get(idx, "notes/" + slug))
                           || Truthy(Get(idx, "lab/" + slug)) || Truthy(Get(idx, "blog/" + slug))
  {
    Or(Or(Or(Get(idx, slug), Get(idx, "notes/" + slug)), Get(idx, "lab/" + slug)), Get(idx, "blog/" + slug))
  }

  /** The first candidate whose lookup is truthy, if any. */
  predicate FirstHit(idx: Index, slug: string, k: int) {
    && 0 <= k < 4
    && Truthy(Get(idx, Candidates(slug)[k]))
    && forall j :: 0 <= j < k ==> !Truthy(Get(idx, Candidates(slug)[j]))
  }

  /** The chain returns the lookup of the first candidate that hits, and something falsy when none does. */
  lemma ChainFirstHit(idx: Index, slug: string)
    ensures forall k :: FirstHit(idx, slug, k) ==> Chain(idx, slug) == Get(idx, Candidates(slug)[k])
    ensures (forall k :: 0 <= k < 4 ==> !Truthy(Get(idx, Candidates(slug)[k]))) ==> !Truthy(Chain(idx, slug))
  {
    var c := Candidates(slug);
    assert c[0] == slug && c[1] == "notes/" + slug && c[2] == "lab/" + slug && c[3] == "blog/" + slug;
  }

  /** `key.endsWith('/' + slug) || key.endsWith('-' + slug)` */
  predicate PartialKey(key: string, slug: string) {
    IsSuffix("/" + slug, key) || IsSuffix("-" + slug, key)
  }

  /** The `for (const [key, value] of allPages)` search with `break`: the first matching key in insertion order. */
  function PartialMatch(idx: Index, slug: string): (r: Option<nat>)
    ensures r.Some? ==> r.value < |idx| && PartialKey(idx[r.value].0, slug)
    ensures r.Some? ==> forall j :: 0 <= j < r.value ==> !PartialKey(idx[j].0, slug)
    ensures r.None? ==> forall j :: 0 <= j < |idx| ==> !PartialKey(idx[j].0, slug)
    decreases |idx|
  {
    if |idx| == 0 then None
    else if PartialKey(idx[0].0, slug) then Some(0)
    else match PartialMatch(idx[1..], slug)
      case Some(i) => Some(i + 1)
      case None => None
  }

  /**
    The value of `href` after the lookup: the chain's result when it is
    truthy; otherwise the value of the first partially matching key (which
    may be `""`, and is taken anyway); otherwise the chain's falsy result.
   */
  function FindHref(idx: Index, slug: string): (href: Option<string>)
    ensures forall k :: FirstHit(idx, slug, k) ==> href == Get(idx, Candidates(slug)[k])
    ensures (forall k :: 0 <= k < 4 ==> !Truthy(Get(idx, Candidates(slug)[k]))) ==>
      match PartialMatch(idx, slug)
      case Some(i) => href == Some(idx[i].1)
      case None => !Truthy(href)
  {
    ChainFirstHit(idx, slug);
    var h := Chain(idx, slug);
    if Truthy(h) then h
    else match PartialMatch(idx, slug)
      case Some(i) => Some(idx[i].1)
      case None => h
  }

  /** The link target: the trimmed first field with a pipe, the raw content without. */
  function Target(content: string): (r: string)
    ensures '|' !in content ==> r == content
    ensures '|' in content ==> Trimmed(r) && '|' !in r
    ensures forall a, b, rest :: PipeShape(content, a, b, rest) ==> r == Trim(a)
  {
    PipeFieldsOfShape(content);
    PipeFields(content).0
  }

  /** The link text: the trimmed second field with a pipe, the raw content without. */
  function Label(content: string): (r: string)
    ensures '|' !in content ==> r == content
    ensures '|' in content ==> Trimmed(r) && '|' !in r
    ensures forall a, b, rest :: PipeShape(content, a, b, rest) ==> r == Trim(b)
  {
    PipeFieldsOfShape(content);
    PipeFields(content).1.GetOr(content)
  }

  /** The `<a>` built for `[[content]]`. */
  function RenderLink(idx: Index, content: string): (r: Node)
    ensures r.Anchor? && r.text == Label(content)
    ensures r.classes == ["wikilink"] || r.classes == ["wikilink", "broken"]
    ensures r.href != ""
    ensures "broken" in r.classes <==> r.title.Some?
    ensures "broken" !in r.classes <==> Truthy(FindHref(idx, Slugify(Target(content))))
    ensures "broken" !in r.classes ==> Some(r.href) == FindHref(idx, Slugify(Target(content)))
    ensures "broken" in r.classes ==> r.href == "#" && r.title == Some("Page not found: " + Target(content))
  {
    var href := FindHref(idx, Slugify(Target(content)));
    if Truthy(href) then
      Anchor(href.value, ["wikilink"], None, Label(content))
    else
      Anchor("#", ["wikilink", "broken"], Some("Page not found: " + Target(content)), Label(content))
  }

  // ---------------------------------------------------------------------------
  // Properties
  // ---------------------------------------------------------------------------

  /** A link resolves exactly when some candidate, or failing those the first partial key, has a non-empty URL. */
  lemma ResolvedIff(idx: Index, content: string)
    ensures var slug := Slugify(Target(content));
      "broken" !in RenderLink(idx, content).classes <==>
        (exists k :: 0 <= k < 4 && Truthy(Get(idx, Candidates(slug)[k])))
        || (PartialMatch(idx, slug).Some? && idx[PartialMatch(idx, slug).value].1 != "")
  {
    var slug := Slugify(Target(content));
    if exists k :: 0 <= k < 4 && Truthy(Get(idx, Candidates(slug)[k])) {
      var k :| 0 <= k < 4 && Truthy(Get(idx, Candidates(slug)[k]));
      var f := FirstHitOf(idx, slug, k);
    }
  }

  /** Among hitting candidates there is a first one. */
  lemma {:induction false} FirstHitOf(idx: Index, slug: string, k: int) returns (f: int)
    requires 0 <= k < 4 && Truthy(Get(idx, Candidates(slug)[k]))
    ensures FirstHit(idx, slug, f) && f <= k
    decreases k
  {
    if exists j :: 0 <= j < k && Truthy(Get(idx, Candidates(slug)[j])) {
      var j :| 0 <= j < k && Truthy(Get(idx, Candidates(slug)[j]));
      f := FirstHitOf(idx, slug, j);
    } else {
      f := k;
    }
  }

  /**
    The partial match takes the first key in insertion order even when its URL
    is empty: a later key with a usable URL is never reached, and the link is
    broken.
   */
  lemma PartialStopsAtFirst(idx: Index, slug: string, i: nat)
    requires i < |idx| && PartialKey(idx[i].0, slug) && idx[i].1 == ""
    requires forall j :: 0 <= j < i ==> !PartialKey(idx[j].0, slug)
    requires forall k :: 0 <= k < 4 ==> !Truthy(Get(idx, Candidates(slug)[k]))
    ensures FindHref(idx, slug) == Some("")
  {
    assert PartialMatch(idx, slug) == Some(i);
  }
}
