/** Field extraction from an Atom feed: the walk over the root's `entry` children
    that fills six result slots, each starting from a fixed default and overwritten
    by every matching child of every entry, in document order. */
module FeedParser {
  import opened Xml

  /** Namespace URI of the Atom Syndication Format (RFC 4287). */
  const Atom := "http://www.w3.org/2005/Atom"

  /** The six values the parser returns: publication time (seconds), author name,
      author profile link, post title, post link and image link. */
  datatype Fields = Fields(
    postTime: nat,
    author: string,
    authorUrl: string,
    title: string,
    url: string,
    imageUrl: string)

  /** The values each slot holds before any entry is read. */
  const Defaults := Fields(0, "u/?", "", "[Titel]", "", "")

  /** Why the parser aborts: a lookup whose absence the parser does not handle. */
  datatype Panic =
    | AuthorWithoutName    // an Atom `author` with no Atom `name` child
    | AuthorWithoutUri     // an Atom `author` with no Atom `uri` child
    | LinkWithoutHref      // an Atom `link` with no `href` attribute
    | ThumbnailWithoutUrl  // an Atom `thumbnail` with no `url` attribute

  /** Result of parsing: the six fields, or the abort that ends the walk. */
  datatype Outcome = Parsed(fields: Fields) | Panicked(reason: Panic)

  predicate IsEntry(e: Element)
  {
    Is(e, "entry", Atom)
  }

  /** The effect of one child of an entry on the slots: the branch chain of the
      inner loop, in the order the parser tests the names. A `published` child
      has its text read and discarded; every other element is ignored. */
  function ReadEntryChild(f: Fields, child: Element): Outcome
  {
    if Is(child, "author", Atom) then
      match GetChild(child, "name", Atom)
      case None => Panicked(AuthorWithoutName)
      case Some(name) =>
        match GetChild(child, "uri", Atom)
        case None => Panicked(AuthorWithoutUri)
        case Some(uri) => Parsed(f.(author := name.text, authorUrl := uri.text))
    else if Is(child, "link", Atom) then
      match Attr(child, "href")
      case None => Panicked(LinkWithoutHref)
      case Some(href) => Parsed(f.(url := href))
    else if Is(child, "published", Atom) then
      Parsed(f)
    else if Is(child, "title", Atom) then
      Parsed(f.(title := child.text))
    else if Is(child, "thumbnail", Atom) then
      match Attr(child, "url")
      case None => Panicked(ThumbnailWithoutUrl)
      case Some(u) => Parsed(f.(imageUrl := u))
    else
      Parsed(f)
  }

  /** The inner loop: the children of one entry applied in order, from slots `f`. */
  function ReadEntry(f: Fields, children: seq<Element>): Outcome
    decreases |children|
  {
    if children == [] then Parsed(f)
    else
      match ReadEntryChild(f, children[0])
      case Panicked(p) => Panicked(p)
      case Parsed(g) => ReadEntry(g, children[1..])
  }

  /** The outer loop: the root's children in order, reading those that are Atom
      entries and skipping the rest. */
  function ReadTrunks(f: Fields, trunks: seq<Element>): Outcome
    decreases |trunks|
  {
    if trunks == [] then Parsed(f)
    else if IsEntry(trunks[0]) then
      match ReadEntry(f, trunks[0].children)
      case Panicked(p) => Panicked(p)
      case Parsed(g) => ReadTrunks(g, trunks[1..])
    else
      ReadTrunks(f, trunks[1..])
  }

  /** What the parser computes for a document whose root element is `root`. */
  function ParseFeed(root: Element): Outcome
  {
    ReadTrunks(Defaults, root.children)
  }

  /** One turn of the inner loop, when the child at `j` does not abort. */
  lemma EntryStepParsed(f: Fields, g: Fields, cs: seq<Element>, j: nat)
    requires j < |cs| && ReadEntryChild(f, cs[j]) == Parsed(g)
    ensures ReadEntry(f, cs[j..]) == ReadEntry(g, cs[j + 1..])
  {
    assert cs[j..][0] == cs[j] && cs[j..][1..] == cs[j + 1..];
  }

  /** One turn of the inner loop, when the child at `j` aborts. */
  lemma EntryStepPanicked(f: Fields, cs: seq<Element>, j: nat, p: Panic)
    requires j < |cs| && ReadEntryChild(f, cs[j]) == Panicked(p)
    ensures ReadEntry(f, cs[j..]) == Panicked(p)
  {
    assert cs[j..][0] == cs[j];
  }

  /** One turn of the outer loop over an entry that does not abort. */
  lemma TrunkStepEntry(f: Fields, g: Fields, ts: seq<Element>, i: nat)
    requires i < |ts| && IsEntry(ts[i]) && ReadEntry(f, ts[i].children) == Parsed(g)
    ensures ReadTrunks(f, ts[i..]) == ReadTrunks(g, ts[i + 1..])
  {
    assert ts[i..][0] == ts[i] && ts[i..][1..] == ts[i + 1..];
  }

  /** One turn of the outer loop over an entry that aborts. */
  lemma TrunkStepPanicked(f: Fields, ts: seq<Element>, i: nat, p: Panic)
    requires i < |ts| && IsEntry(ts[i]) && ReadEntry(f, ts[i].children) == Panicked(p)
    ensures ReadTrunks(f, ts[i..]) == Panicked(p)
  {
    assert ts[i..][0] == ts[i];
  }

  /** One turn of the outer loop over a child of the root that is not an entry. */
  lemma TrunkStepSkip(f: Fields, ts: seq<Element>, i: nat)
    requires i < |ts| && !IsEntry(ts[i])
    ensures ReadTrunks(f, ts[i..]) == ReadTrunks(f, ts[i + 1..])
  {
    assert ts[i..][0] == ts[i] && ts[i..][1..] == ts[i + 1..];
  }

  /** The body of the inner loop: one child of an entry applied to the slots,
      testing the names in the parser's order and returning at a failed lookup. */
  method ReadChild(slots: Fields, child: Element) returns (r: Outcome)
    ensures r == ReadEntryChild(slots, child)
  {
    var f := slots;
    if Is(child, "author", Atom) {
      var name := GetChild(child, "name", Atom);
      if name.None? {
        return Panicked(AuthorWithoutName);
      }
      f := f.(author := name.value.text);
      var uri := GetChild(child, "uri", Atom);
      if uri.None? {
        return Panicked(AuthorWithoutUri);
      }
      f := f.(authorUrl := uri.value.text);
    } else if Is(child, "link", Atom) {
      var href := Attr(child, "href");
      if href.None? {
        return Panicked(LinkWithoutHref);
      }
      f := f.(url := href.value);
    } else if Is(child, "published", Atom) {
      var postTimeString := child.text;
    } else if Is(child, "title", Atom) {
      f := f.(title := child.text);
    } else if Is(child, "thumbnail", Atom) {
      var u := Attr(child, "url");
      if u.None? {
        return Panicked(ThumbnailWithoutUrl);
      }
      f := f.(imageUrl := u.value);
    }
    r := Parsed(f);
  }

  /** The parser as the program runs it: the six slots, starting at their
      defaults, overwritten inside two nested loops over the root's children
      and each entry's children; the walk stops at the first failed lookup. */
  method ParseXml(root: Element) returns (r: Outcome)
    ensures r == ParseFeed(root)
  {
    var slots := Defaults;
    var i := 0;
    while i < |root.children|
      invariant 0 <= i <= |root.children|
      invariant ParseFeed(root) == ReadTrunks(slots, root.children[i..])
    {
      var trunk := root.children[i];
      if Is(trunk, "entry", Atom) {
        ghost var atEntry := slots;
        var j := 0;
        while j < |trunk.children|
          invariant 0 <= j <= |trunk.children|
          invariant ReadEntry(atEntry, trunk.children) == ReadEntry(slots, trunk.children[j..])
        {
          var o := ReadChild(slots, trunk.children[j]);
          if o.Panicked? {
            EntryStepPanicked(slots, trunk.children, j, o.reason);
            TrunkStepPanicked(atEntry, root.children, i, o.reason);
            return o;
          }
          EntryStepParsed(slots, o.fields, trunk.children, j);
          slots := o.fields;
          j := j + 1;
        }
        TrunkStepEntry(atEntry, slots, root.children, i);
      } else {
        TrunkStepSkip(slots, root.children, i);
      }
      i := i + 1;
    }
    r := Parsed(slots);
  }
}
