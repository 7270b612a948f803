/** The chat-webhook notification built from the parsed fields: a fixed sender
    and header, the author as a markdown link, and the post's title, link and
    image passed through. */
module Notification {
  import opened Xml
  import opened FeedParser
  import opened FeedProperties

  datatype EmbedField = EmbedField(name: string, value: string)
  datatype EmbedAuthor = EmbedAuthor(name: string, url: string)
  datatype Image = Image(url: string)

  /** One embed block of the webhook message. */
  datatype Embed = Embed(
    color: nat,
    author: EmbedAuthor,
    fields: seq<EmbedField>,
    title: string,
    url: string,
    image: Image)

  /** The webhook message: sender name, sender avatar and embeds. */
  datatype Payload = Payload(username: string, avatarUrl: string, embeds: seq<Embed>)

  const Username := "Schkreckl"
  const AvatarUrl := "https://styles.redditmedia.com/t5_4bnl6/styles/communityIcon_zimq8fp2clp11.png"
  const Color := 19608
  const HeaderName := "Neuer Post auf Schkreckl!"
  const HeaderUrl := "https://www.reddit.com/r/schkreckl"
  const AuthorFieldName := "Autor"

  /** The author attribution: `[author](authorUrl)`. */
  function AuthorLink(author: string, authorUrl: string): string
  {
    "[" + author + "](" + authorUrl + ")"
  }

  /** The parts of a payload that are the same for every post. */
  predicate HasFixedHeader(p: Payload)
  {
    && p.username == Username
    && p.avatarUrl == AvatarUrl
    && |p.embeds| == 1
    && p.embeds[0].color == Color
    && p.embeds[0].author == EmbedAuthor(HeaderName, HeaderUrl)
  }

  /** The notification for one set of parsed fields. The timestamp is not shown. */
  function BuildPayload(f: Fields): (p: Payload)
    ensures HasFixedHeader(p)
    ensures p.embeds[0].fields == [EmbedField(AuthorFieldName, AuthorLink(f.author, f.authorUrl))]
    ensures p.embeds[0].title == f.title
    ensures p.embeds[0].url == f.url
    ensures p.embeds[0].image == Image(f.imageUrl)
  {
    Payload(
      Username,
      AvatarUrl,
      [Embed(
        Color,
        EmbedAuthor(HeaderName, HeaderUrl),
        [EmbedField(AuthorFieldName, AuthorLink(f.author, f.authorUrl))],
        f.title,
        f.url,
        Image(f.imageUrl))])
  }

  // ---------------------------------------------------------------------------
  // Reading a notification back
  // ---------------------------------------------------------------------------

  /** Position of the first `c` in `s`. */
  function IndexOf(s: string, c: char): (r: Option<nat>)
    ensures r.None? <==> c !in s
    ensures r.Some? ==> r.value < |s| && s[r.value] == c && c !in s[..r.value]
  {
    if s == [] then None
    else if s[0] == c then Some(0)
    else
      match IndexOf(s[1..], c)
      case None => None
      case Some(k) =>
        assert s[..k + 1] == [s[0]] + s[1..][..k];
        Some(k + 1)
  }

  /** A string framed as `[`, name, `](`, link, `)` is the attribution of that name and link. */
  lemma LinkShape(s: string, k: nat)
    requires k + 3 <= |s| - 1 && s[0] == '[' && s[k + 1] == ']' && s[k + 2] == '(' && s[|s| - 1] == ')'
    ensures AuthorLink(s[1..k + 1], s[k + 3..|s| - 1]) == s
  {
    var t := AuthorLink(s[1..k + 1], s[k + 3..|s| - 1]);
    assert |t| == |s|;
    forall i | 0 <= i < |s| ensures t[i] == s[i] {
      if 1 <= i < k + 1 {
        assert t[i] == s[1..k + 1][i - 1];
      } else if k + 3 <= i < |s| - 1 {
        assert t[i] == s[k + 3..|s| - 1][i - k - 3];
      }
    }
  }

  /** Splits `[name](link)` at the first `]` into name and link. */
  function SplitAuthorLink(s: string): (r: Option<(string, string)>)
    ensures r.Some? ==> AuthorLink(r.value.0, r.value.1) == s && ']' !in r.value.0
  {
    if |s| < 4 || s[0] != '[' || s[|s| - 1] != ')' then None
    else
      match IndexOf(s[1..], ']')
      case None => None
      case Some(k) =>
        if k + 3 <= |s| - 1 && s[k + 2] == '(' then
          LinkShape(s, k);
          Some((s[1..k + 1], s[k + 3..|s| - 1]))
        else None
  }

  /** The first `c` in `a + b` is the head of `b` when `a` holds no `c`. */
  lemma {:induction false} IndexOfAfter(a: string, b: string, c: char)
    requires c !in a && b != [] && b[0] == c
    ensures IndexOf(a + b, c) == Some(|a|)
    decreases |a|
  {
    if a == [] {
      assert a + b == b;
    } else {
      assert (a + b)[1..] == a[1..] + b;
      IndexOfAfter(a[1..], b, c);
    }
  }

  /** Where the brackets of an attribution sit. */
  lemma AuthorLinkLayout(author: string, authorUrl: string)
    ensures var s, n := AuthorLink(author, authorUrl), |author|;
      && |s| == n + |authorUrl| + 4
      && s[0] == '[' && s[n + 1] == ']' && s[n + 2] == '(' && s[|s| - 1] == ')'
      && s[1..n + 1] == author
      && s[n + 3..|s| - 1] == authorUrl
      && s[1..] == author + s[n + 1..]
  {
    var s, n := AuthorLink(author, authorUrl), |author|;
    assert s == ['['] + author + [']', '('] + authorUrl + [')'];
    assert s[1..] == author + s[n + 1..];
  }

  /** SplitAuthorLink on a string framed as an attribution whose first `]`
      after the opening bracket is at `k + 1`. */
  lemma SplitAuthorLinkAt(s: string, k: nat)
    requires k + 3 <= |s| - 1 && s[0] == '[' && s[k + 2] == '(' && s[|s| - 1] == ')'
    requires IndexOf(s[1..], ']') == Some(k)
    ensures SplitAuthorLink(s) == Some((s[1..k + 1], s[k + 3..|s| - 1]))
  {
  }

  /** An author name without `]` and any link survive the attribution text. */
  lemma AuthorLinkRoundTrip(author: string, authorUrl: string)
    requires ']' !in author
    ensures SplitAuthorLink(AuthorLink(author, authorUrl)) == Some((author, authorUrl))
  {
    var s, n := AuthorLink(author, authorUrl), |author|;
    AuthorLinkLayout(author, authorUrl);
    IndexOfAfter(author, s[n + 1..], ']');
    SplitAuthorLinkAt(s, n);
  }

  /** Without that restriction the attribution text is ambiguous. */
  lemma AuthorLinkAmbiguous()
    ensures AuthorLink("a](b", "c") == AuthorLink("a", "b](c")
  {
  }

  /** What a reader of the notification learns about the post. */
  datatype Shown = Shown(author: string, authorUrl: string, title: string, url: string, imageUrl: string)

  /** Reads the post back from a notification shaped like the ones built here. */
  function Unpack(p: Payload): (r: Option<Shown>)
    ensures r.Some? ==> |p.embeds| == 1
  {
    if |p.embeds| != 1 || |p.embeds[0].fields| != 1 || p.embeds[0].fields[0].name != AuthorFieldName then None
    else
      var e := p.embeds[0];
      match SplitAuthorLink(e.fields[0].value)
      case None => None
      case Some(pair) => Some(Shown(pair.0, pair.1, e.title, e.url, e.image.url))
  }

  /** Every parsed field except the timestamp can be read back from the
      notification, provided the author name has no `]`. */
  lemma PayloadRoundTrip(f: Fields)
    requires ']' !in f.author
    ensures Unpack(BuildPayload(f)) == Some(Shown(f.author, f.authorUrl, f.title, f.url, f.imageUrl))
  {
    AuthorLinkRoundTrip(f.author, f.authorUrl);
  }

  /** The sender, avatar, colour and header do not depend on the post. */
  lemma HeaderIndependentOfPost(f1: Fields, f2: Fields)
    ensures BuildPayload(f1).username == BuildPayload(f2).username
    ensures BuildPayload(f1).avatarUrl == BuildPayload(f2).avatarUrl
    ensures BuildPayload(f1).embeds[0].color == BuildPayload(f2).embeds[0].color
    ensures BuildPayload(f1).embeds[0].author == BuildPayload(f2).embeds[0].author
  {
  }

  /** The notification ignores the timestamp. */
  lemma PayloadIgnoresTimestamp(f: Fields, t: nat)
    ensures BuildPayload(f.(postTime := t)) == BuildPayload(f)
  {
  }

  // ---------------------------------------------------------------------------
  // From document to notification
  // ---------------------------------------------------------------------------

  /** Parse the document and build its notification; `None` when the parser
      aborts on a failed lookup. */
  function NotificationFor(root: Element): (r: Option<Payload>)
    ensures r.Some? <==> WellFormedFeed(root)
    ensures r.Some? ==> HasFixedHeader(r.value)
  {
    PanicsExactlyOnFault(root);
    match ParseFeed(root)
    case Panicked(_) => None
    case Parsed(f) => Some(BuildPayload(f))
  }

  /** A document without Atom entries yields the placeholder notification. */
  lemma NoEntryNotification(root: Element)
    requires forall k :: 0 <= k < |root.children| ==> !IsEntry(root.children[k])
    ensures NotificationFor(root).Some?
    ensures var e := NotificationFor(root).value.embeds[0];
      && e.fields == [EmbedField("Autor", "[u/?]()")]
      && e.title == "[Titel]" && e.url == "" && e.image == Image("")
  {
    NoEntryYieldsDefaults(root);
    assert AuthorLink("u/?", "") == "[u/?]()";
  }
}
