/** What the Atom field extraction guarantees: defaults for a feed without
    entries, a timestamp that never leaves 0, last-writer-wins per slot across
    all entries, indifference to elements outside the Atom namespace, and the
    exact conditions under which a lookup aborts the walk. */
module FeedProperties {
  import opened Xml
  import opened FeedParser

  // ---------------------------------------------------------------------------
  // Flattening: the walk reads one sequence of children
  // ---------------------------------------------------------------------------

  /** The direct children of the direct children of the root that are Atom
      entries, concatenated in document order. */
  function EntryChildren(trunks: seq<Element>): seq<Element>
    decreases |trunks|
  {
    if trunks == [] then []
    else (if IsEntry(trunks[0]) then trunks[0].children else []) + EntryChildren(trunks[1..])
  }

  /** Continue the inner walk over `rest` from an intermediate outcome. */
  function Continue(o: Outcome, rest: seq<Element>): Outcome
  {
    match o
    case Panicked(p) => Panicked(p)
    case Parsed(g) => ReadEntry(g, rest)
  }

  /** Reading `a + b` is reading `a` and then, unless it aborted, `b`. */
  lemma {:induction false} ReadEntryAppend(f: Fields, a: seq<Element>, b: seq<Element>)
    ensures ReadEntry(f, a + b) == Continue(ReadEntry(f, a), b)
    decreases |a|
  {
    if a == [] {
      assert a + b == b;
    } else {
      assert (a + b)[0] == a[0] && (a + b)[1..] == a[1..] + b;
      match ReadEntryChild(f, a[0])
      case Panicked(p) =>
      case Parsed(g) => ReadEntryAppend(g, a[1..], b);
    }
  }

  /** The nested walk is the flat walk over all entry children: entry
      boundaries carry no meaning, and only direct children are inspected. */
  lemma {:induction false} ReadTrunksFlat(f: Fields, trunks: seq<Element>)
    ensures ReadTrunks(f, trunks) == ReadEntry(f, EntryChildren(trunks))
    decreases |trunks|
  {
    if trunks != [] {
      var t := trunks[0];
      if IsEntry(t) {
        ReadEntryAppend(f, t.children, EntryChildren(trunks[1..]));
        match ReadEntry(f, t.children)
        case Panicked(p) =>
        case Parsed(g) => ReadTrunksFlat(g, trunks[1..]);
      } else {
        assert [] + EntryChildren(trunks[1..]) == EntryChildren(trunks[1..]);
        ReadTrunksFlat(f, trunks[1..]);
      }
    }
  }

  /** The children the parser sees, for a document with root `root`. */
  function Seen(root: Element): seq<Element>
  {
    EntryChildren(root.children)
  }

  lemma ParseFeedFlat(root: Element)
    ensures ParseFeed(root) == ReadEntry(Defaults, Seen(root))
  {
    ReadTrunksFlat(Defaults, root.children);
  }

  // ---------------------------------------------------------------------------
  // Defaults and the timestamp
  // ---------------------------------------------------------------------------

  lemma {:induction false} NoEntriesKeepSlots(f: Fields, trunks: seq<Element>)
    requires forall k :: 0 <= k < |trunks| ==> !IsEntry(trunks[k])
    ensures ReadTrunks(f, trunks) == Parsed(f)
    decreases |trunks|
  {
    if trunks != [] {
      NoEntriesKeepSlots(f, trunks[1..]);
    }
  }

  /** A root without an Atom `entry` child yields exactly the defaults. */
  lemma NoEntryYieldsDefaults(root: Element)
    requires forall k :: 0 <= k < |root.children| ==> !IsEntry(root.children[k])
    ensures ParseFeed(root) == Parsed(Fields(0, "u/?", "", "[Titel]", "", ""))
  {
    NoEntriesKeepSlots(Defaults, root.children);
  }

  lemma {:induction false} ReadEntryKeepsTime(f: Fields, cs: seq<Element>)
    requires ReadEntry(f, cs).Parsed?
    ensures ReadEntry(f, cs).fields.postTime == f.postTime
    decreases |cs|
  {
    if cs != [] {
      ReadEntryKeepsTime(ReadEntryChild(f, cs[0]).fields, cs[1..]);
    }
  }

  /** The `published` text is never converted: the timestamp is always 0. */
  lemma TimestampAlwaysZero(root: Element)
    requires ParseFeed(root).Parsed?
    ensures ParseFeed(root).fields.postTime == 0
  {
    ParseFeedFlat(root);
    ReadEntryKeepsTime(Defaults, Seen(root));
  }

  // ---------------------------------------------------------------------------
  // Last writer wins
  // ---------------------------------------------------------------------------

  /** The five text slots an entry child can write. */
  datatype Slot = AuthorName | AuthorUri | Link | Title | Thumbnail

  /** The Atom element name that writes a slot. */
  function Tag(s: Slot): string
  {
    match s
    case AuthorName => "author"
    case AuthorUri => "author"
    case Link => "link"
    case Title => "title"
    case Thumbnail => "thumbnail"
  }

  /** The value a slot holds. */
  function Get(f: Fields, s: Slot): string
  {
    match s
    case AuthorName => f.author
    case AuthorUri => f.authorUrl
    case Link => f.url
    case Title => f.title
    case Thumbnail => f.imageUrl
  }

  /** The value a writing element carries for a slot, if it carries one: the
      text of the first Atom `name` or `uri` child, the `href` or `url`
      attribute, or the element's own text. */
  function Carried(c: Element, s: Slot): Option<string>
  {
    match s
    case AuthorName => (match GetChild(c, "name", Atom) case None => None case Some(x) => Some(x.text))
    case AuthorUri => (match GetChild(c, "uri", Atom) case None => None case Some(x) => Some(x.text))
    case Link => Attr(c, "href")
    case Title => Some(c.text)
    case Thumbnail => Attr(c, "url")
  }

  predicate Writes(c: Element, s: Slot)
  {
    Is(c, Tag(s), Atom)
  }

  /** `k` is the last element of `cs` that writes slot `s`. */
  predicate IsLastWriter(cs: seq<Element>, k: int, s: Slot)
  {
    && 0 <= k < |cs|
    && Writes(cs[k], s)
    && forall m :: k < m < |cs| ==> !Writes(cs[m], s)
  }

  /** One child either writes a slot with the value it carries or leaves it. */
  lemma ReadEntryChildSlot(f: Fields, c: Element, s: Slot)
    requires ReadEntryChild(f, c).Parsed?
    ensures Writes(c, s) ==> Carried(c, s) == Some(Get(ReadEntryChild(f, c).fields, s))
    ensures !Writes(c, s) ==> Get(ReadEntryChild(f, c).fields, s) == Get(f, s)
  {
  }

  lemma {:induction false} ReadEntryUnwritten(f: Fields, cs: seq<Element>, s: Slot)
    requires ReadEntry(f, cs).Parsed?
    requires forall k :: 0 <= k < |cs| ==> !Writes(cs[k], s)
    ensures Get(ReadEntry(f, cs).fields, s) == Get(f, s)
    decreases |cs|
  {
    if cs != [] {
      var g := ReadEntryChild(f, cs[0]).fields;
      ReadEntryChildSlot(f, cs[0], s);
      assert forall k :: 0 <= k < |cs[1..]| ==> cs[1..][k] == cs[k + 1];
      ReadEntryUnwritten(g, cs[1..], s);
    }
  }

  lemma {:induction false} ReadEntryLastWriter(f: Fields, cs: seq<Element>, k: nat, s: Slot)
    requires ReadEntry(f, cs).Parsed?
    requires IsLastWriter(cs, k, s)
    ensures Carried(cs[k], s) == Some(Get(ReadEntry(f, cs).fields, s))
    decreases |cs|
  {
    var g := ReadEntryChild(f, cs[0]).fields;
    var rest := cs[1..];
    assert ReadEntry(f, cs) == ReadEntry(g, rest);
    if k > 0 {
      assert forall m :: k - 1 < m < |rest| ==> rest[m] == cs[m + 1];
      assert IsLastWriter(rest, k - 1, s);
      ReadEntryLastWriter(g, rest, k - 1, s);
    } else {
      ReadEntryChildSlot(f, cs[0], s);
      assert forall m :: 0 <= m < |rest| ==> rest[m] == cs[m + 1];
      ReadEntryUnwritten(g, rest, s);
    }
  }

  /** Every slot holds the value of the last element, over all entries in
      document order, that writes it; a slot nothing writes keeps its default. */
  lemma LastWriterWins(root: Element, s: Slot)
    requires ParseFeed(root).Parsed?
    ensures (forall k :: 0 <= k < |Seen(root)| ==> !Writes(Seen(root)[k], s))
              ==> Get(ParseFeed(root).fields, s) == Get(Defaults, s)
    ensures forall k :: IsLastWriter(Seen(root), k, s)
              ==> Carried(Seen(root)[k], s) == Some(Get(ParseFeed(root).fields, s))
  {
    ParseFeedFlat(root);
    if forall k :: 0 <= k < |Seen(root)| ==> !Writes(Seen(root)[k], s) {
      ReadEntryUnwritten(Defaults, Seen(root), s);
    }
    forall k | IsLastWriter(Seen(root), k, s)
      ensures Carried(Seen(root)[k], s) == Some(Get(ParseFeed(root).fields, s))
    {
      ReadEntryLastWriter(Defaults, Seen(root), k, s);
    }
  }

  /** If any element writes slot `s`, a last one does. */
  lemma {:induction false} LastWriterExists(cs: seq<Element>, k: int, s: Slot)
    requires 0 <= k < |cs| && Writes(cs[k], s)
    ensures exists w :: IsLastWriter(cs, w, s)
    decreases |cs| - k
  {
    if forall m :: k < m < |cs| ==> !Writes(cs[m], s) {
      assert IsLastWriter(cs, k, s);
    } else {
      var m :| k < m < |cs| && Writes(cs[m], s);
      LastWriterExists(cs, m, s);
    }
  }

  /** Author name and author link are written together: either both keep their
      defaults, or both come from the same Atom `author` element (its first
      Atom `name` child and its first Atom `uri` child). */
  lemma AuthorFieldsFromOneElement(root: Element)
    requires ParseFeed(root).Parsed?
    ensures var g := ParseFeed(root).fields;
      || (g.author == "u/?" && g.authorUrl == "")
      || exists k :: 0 <= k < |Seen(root)| && Is(Seen(root)[k], "author", Atom)
           && Carried(Seen(root)[k], AuthorName) == Some(g.author)
           && Carried(Seen(root)[k], AuthorUri) == Some(g.authorUrl)
  {
    var cs := Seen(root);
    LastWriterWins(root, AuthorName);
    LastWriterWins(root, AuthorUri);
    if k :| 0 <= k < |cs| && Writes(cs[k], AuthorName) {
      LastWriterExists(cs, k, AuthorName);
      var w :| IsLastWriter(cs, w, AuthorName);
      assert IsLastWriter(cs, w, AuthorUri);
    }
  }

  /** Slots are overwritten one by one, not per entry: a later entry without a
      thumbnail keeps the image of an earlier entry beside its own title. */
  lemma {:induction false} EntriesBlend(title1: string, title2: string, image: string)
    ensures
      var thumb := Element("thumbnail", Atom, map["url" := image], [], "");
      var first := Element("entry", Atom, map[], [thumb, Element("title", Atom, map[], [], title1)], "");
      var second := Element("entry", Atom, map[], [Element("title", Atom, map[], [], title2)], "");
      ParseFeed(Element("feed", Atom, map[], [first, second], ""))
        == Parsed(Defaults.(title := title2, imageUrl := image))
  {
    var thumb := Element("thumbnail", Atom, map["url" := image], [], "");
    var t1 := Element("title", Atom, map[], [], title1);
    var t2 := Element("title", Atom, map[], [], title2);
    var first := Element("entry", Atom, map[], [thumb, t1], "");
    var second := Element("entry", Atom, map[], [t2], "");
    var afterThumb := Defaults.(imageUrl := image);
    assert ReadEntryChild(Defaults, thumb) == Parsed(afterThumb);
    assert ReadEntry(afterThumb, [thumb, t1][1..]) == Parsed(afterThumb.(title := title1));
    assert ReadEntry(Defaults, first.children) == Parsed(afterThumb.(title := title1));
    assert ReadEntry(afterThumb.(title := title1), second.children) == Parsed(afterThumb.(title := title2));
    assert [first, second][1..] == [second];
    assert ReadTrunks(afterThumb.(title := title1), [second]) == Parsed(afterThumb.(title := title2));
  }

  // ---------------------------------------------------------------------------
  // Namespace filtering
  // ---------------------------------------------------------------------------

  /** The elements of `cs` in the Atom namespace, in order. */
  function AtomOnly(cs: seq<Element>): (r: seq<Element>)
    ensures forall x :: x in r <==> x in cs && x.ns == Atom
    ensures |r| <= |cs|
    decreases |cs|
  {
    if cs == [] then []
    else (if cs[0].ns == Atom then [cs[0]] else []) + AtomOnly(cs[1..])
  }

  /** Filtering keeps order: the filter of a concatenation is the
      concatenation of the filters. */
  lemma {:induction false} AtomOnlyAppend(a: seq<Element>, b: seq<Element>)
    ensures AtomOnly(a + b) == AtomOnly(a) + AtomOnly(b)
    decreases |a|
  {
    if a == [] {
      assert a + b == b;
    } else {
      assert (a + b)[0] == a[0] && (a + b)[1..] == a[1..] + b;
      AtomOnlyAppend(a[1..], b);
    }
  }

  /** A child outside the Atom namespace changes no slot and never aborts,
      whatever its name (a `media:thumbnail`, say). */
  lemma ForeignChildIgnored(f: Fields, c: Element)
    requires c.ns != Atom
    ensures ReadEntryChild(f, c) == Parsed(f)
  {
  }

  lemma {:induction false} ReadEntryAtomOnly(f: Fields, cs: seq<Element>)
    ensures ReadEntry(f, cs) == ReadEntry(f, AtomOnly(cs))
    decreases |cs|
  {
    if cs != [] {
      if cs[0].ns == Atom {
        assert AtomOnly(cs) == [cs[0]] + AtomOnly(cs[1..]);
        assert AtomOnly(cs)[0] == cs[0] && AtomOnly(cs)[1..] == AtomOnly(cs[1..]);
        match ReadEntryChild(f, cs[0])
        case Panicked(p) =>
        case Parsed(g) => ReadEntryAtomOnly(g, cs[1..]);
      } else {
        assert AtomOnly(cs) == AtomOnly(cs[1..]);
        ForeignChildIgnored(f, cs[0]);
        ReadEntryAtomOnly(f, cs[1..]);
      }
    }
  }

  /** The result depends only on the Atom-namespace children of the root's
      Atom entries: two documents that agree on those parse alike, whatever
      else they contain (other namespaces, other top-level elements, deeper
      nesting). */
  lemma OnlyAtomEntryChildrenMatter(r1: Element, r2: Element)
    requires AtomOnly(Seen(r1)) == AtomOnly(Seen(r2))
    ensures ParseFeed(r1) == ParseFeed(r2)
  {
    ParseFeedFlat(r1);
    ParseFeedFlat(r2);
    ReadEntryAtomOnly(Defaults, Seen(r1));
    ReadEntryAtomOnly(Defaults, Seen(r2));
  }

  // ---------------------------------------------------------------------------
  // Aborts
  // ---------------------------------------------------------------------------

  /** An entry child on which a lookup fails, aborting the walk. */
  predicate Faulty(c: Element)
  {
    || (Is(c, "author", Atom) && (GetChild(c, "name", Atom).None? || GetChild(c, "uri", Atom).None?))
    || (Is(c, "link", Atom) && Attr(c, "href").None?)
    || (Is(c, "thumbnail", Atom) && Attr(c, "url").None?)
  }

  /** The abort a faulty child causes. */
  function FaultOf(c: Element): Panic
  {
    if Is(c, "author", Atom) then
      (if GetChild(c, "name", Atom).None? then AuthorWithoutName else AuthorWithoutUri)
    else if Is(c, "link", Atom) then LinkWithoutHref
    else ThumbnailWithoutUrl
  }

  /** No child the parser inspects makes a lookup fail: the condition under
      which none of the parser's unwraps aborts. */
  predicate WellFormedFeed(root: Element)
  {
    forall k :: 0 <= k < |Seen(root)| ==> !Faulty(Seen(root)[k])
  }

  /** `k` is the first faulty element of `cs`. */
  predicate IsFirstFault(cs: seq<Element>, k: int)
  {
    0 <= k < |cs| && Faulty(cs[k]) && forall m :: 0 <= m < k ==> !Faulty(cs[m])
  }

  lemma ReadEntryChildFault(f: Fields, c: Element)
    ensures ReadEntryChild(f, c).Panicked? <==> Faulty(c)
    ensures Faulty(c) ==> ReadEntryChild(f, c) == Panicked(FaultOf(c))
  {
  }

  lemma {:induction false} ReadEntryNoFault(f: Fields, cs: seq<Element>)
    requires forall k :: 0 <= k < |cs| ==> !Faulty(cs[k])
    ensures ReadEntry(f, cs).Parsed?
    decreases |cs|
  {
    if cs != [] {
      ReadEntryChildFault(f, cs[0]);
      assert forall k :: 0 <= k < |cs[1..]| ==> cs[1..][k] == cs[k + 1];
      ReadEntryNoFault(ReadEntryChild(f, cs[0]).fields, cs[1..]);
    }
  }

  lemma {:induction false} ReadEntryFirstFault(f: Fields, cs: seq<Element>, k: nat)
    requires IsFirstFault(cs, k)
    ensures ReadEntry(f, cs) == Panicked(FaultOf(cs[k]))
    decreases |cs|
  {
    ReadEntryChildFault(f, cs[0]);
    if k > 0 {
      var rest := cs[1..];
      assert forall m :: 0 <= m < k - 1 ==> rest[m] == cs[m + 1];
      assert IsFirstFault(rest, k - 1);
      ReadEntryFirstFault(ReadEntryChild(f, cs[0]).fields, rest, k - 1);
    }
  }

  /** If some element is faulty, a first one is. */
  lemma {:induction false} FirstFaultExists(cs: seq<Element>, k: nat)
    requires k < |cs| && Faulty(cs[k])
    ensures exists w :: IsFirstFault(cs, w)
    decreases k
  {
    if forall m :: 0 <= m < k ==> !Faulty(cs[m]) {
      assert IsFirstFault(cs, k);
    } else {
      var m :| 0 <= m < k && Faulty(cs[m]);
      FirstFaultExists(cs, m);
    }
  }

  /** The parser aborts exactly when some inspected child is faulty, and then
      with the abort of the first faulty child in document order. */
  lemma PanicsExactlyOnFault(root: Element)
    ensures ParseFeed(root).Parsed? <==> WellFormedFeed(root)
    ensures ParseFeed(root).Panicked? ==>
              exists k :: IsFirstFault(Seen(root), k) && FaultOf(Seen(root)[k]) == ParseFeed(root).reason
  {
    var cs := Seen(root);
    ParseFeedFlat(root);
    if WellFormedFeed(root) {
      ReadEntryNoFault(Defaults, cs);
    } else {
      var k :| 0 <= k < |cs| && Faulty(cs[k]);
      FirstFaultExists(cs, k);
      var w :| IsFirstFault(cs, w);
      ReadEntryFirstFault(Defaults, cs, w);
    }
  }
}
