# Feed bridge: Atom field extraction and webhook payload

This project models the core of an early version of a feed-to-chat bridge. The
bridge downloads a Reddit Atom feed, pulls a handful of fields out of its
entries and builds a Discord-webhook message from them. Two parts of
`src/main.rs` are modelled and verified in Dafny.

- **Atom field extraction** (`parse_xml`). The function walks the direct
  children of the document root. For every Atom `entry` (namespace
  `http://www.w3.org/2005/Atom`), it walks that entry's direct children and
  overwrites six result slots. The slots are timestamp, author, author link,
  title, post link and image link, with the defaults
  `(0, "u/?", "", "[Titel]", "", "")`.
  - `author` sets both author slots from its first Atom `name` and `uri` children.
  - `link` sets the post link from its `href` attribute.
  - `title` sets the title from its text.
  - `thumbnail` sets the image link from its `url` attribute.
  - `published` is read and thrown away, so the timestamp stays 0.
  - A missing `name`, `uri`, `href` or `url` makes the program panic (`unwrap`).
- **Payload construction** (the `json!` expression in `process_feed`). This
  maps the six values to a webhook message. The sender name, avatar, colour
  (19608) and embed header are fixed. The single embed field `Autor` holds
  `[author](author_url)`. Title, post link and image link are copied
  unchanged.

Files:

- `xml.dfy` (module `Xml`): the element tree. An element has a name, a
  resolved namespace URI, attributes, child elements and text. This module
  also holds the three queries the parser uses: `Is` (name and namespace
  equality), `GetChild` (first matching child) and `Attr` (attribute lookup).
- `feed_parser.dfy` (module `FeedParser`): the parser.
  - `ReadEntryChild`, `ReadEntry`, `ReadTrunks` and `ParseFeed` define the walk
    as a fold over the children.
  - `ParseXml` is the walk as the program runs it: two nested `while` loops.
    It is proved to compute `ParseFeed`.
  - `ReadChild` is the inner loop's branch chain.
  - A panic is an outcome, `Panicked(reason)`, not a precondition. The method
    returns it where the program would abort.
- `feed_properties.dfy` (module `FeedProperties`): what the walk guarantees.
  This covers defaults, the constant timestamp, last-writer-wins per slot,
  namespace filtering and exactly when a panic happens.
- `payload.dfy` (module `Notification`): the payload record and how it is
  built. It also holds an inverse that reads a post back out of a payload, and
  parse-then-build as one function.

This early version hard-codes the Atom URI, keeps one set of slots for the
whole feed and never sets the timestamp. The model follows the code.

## Model

| member | source | states |
|---|---|---|
| `Xml.GetChild` | src/main.rs:105-106 | `get_child` finds nothing exactly when no child element has that name and namespace; otherwise it returns the first one in document order (via `FirstMatching`) |
| `FeedParser.ReadChild` | src/main.rs:103-117 | one entry child applied to the slots in the program's branch order: `author` sets name and link from the first Atom `name`/`uri` children, `link` sets the URL from `href`, `title` sets the title from its text, `thumbnail` sets the image from `url`, `published` and everything else change nothing; a missing lookup returns the matching panic |
| `FeedParser.ParseXml` | src/main.rs:86-122 | the nested-loop walk with six slots starting at their defaults returns exactly `ParseFeed(root)`, including the panic the first failed `unwrap` causes |
| `FeedProperties.ReadTrunksFlat` | src/main.rs:101-103 | walking the root's entries one by one equals walking the flat sequence of all their direct children: entry boundaries carry no meaning and grandchildren are never inspected |
| `FeedProperties.NoEntryYieldsDefaults` | src/main.rs:94-102 | a root with no direct Atom `entry` child yields exactly `(0, "u/?", "", "[Titel]", "", "")` |
| `FeedProperties.TimestampAlwaysZero` | src/main.rs:109-111 | whenever the walk completes, the returned timestamp is 0: `published` is read and never converted |
| `FeedProperties.LastWriterWins` | src/main.rs:101-117 | every text slot equals the value carried by the last element, over all entries in document order, that writes it; a slot no element writes keeps its default |
| `FeedProperties.LastWriterExists` | src/main.rs:101-117 | if some element writes a slot, a last such element exists, so `LastWriterWins` always determines the slot |
| `FeedProperties.AuthorFieldsFromOneElement` | src/main.rs:104-106 | author and author link are either both still at their defaults or both come from the same Atom `author` element (its first `name` and first `uri`) |
| `FeedProperties.EntriesBlend` | src/main.rs:101-117 | two entries, the first with a thumbnail and title, the second with only a title, yield the second title beside the first image |
| `FeedProperties.ForeignChildIgnored` | src/main.rs:104-116 | a child outside the Atom namespace (a `media:thumbnail`, say) changes no slot and never panics |
| `FeedProperties.OnlyAtomEntryChildrenMatter` | src/main.rs:90-104 | two documents whose Atom entries have the same Atom-namespace direct children parse identically, whatever else they contain |
| `FeedProperties.PanicsExactlyOnFault` | src/main.rs:105-115 | the walk panics exactly when some inspected child is an Atom `author` without `name` or `uri`, a `link` without `href` or a `thumbnail` without `url`; the panic is the one the first such child in document order causes |
| `Notification.BuildPayload` | src/main.rs:49-70 | fixed sender `Schkreckl`, avatar, colour 19608 and header; one embed whose only field is `Autor` = `"[" + author + "](" + author_url + ")"`; title, post link and image link copied unchanged |
| `Notification.HeaderIndependentOfPost` | src/main.rs:50-58 | sender name, avatar, colour and embed header are the same for any two posts |
| `Notification.PayloadIgnoresTimestamp` | src/main.rs:45-67 | the timestamp does not reach the payload |
| `Notification.AuthorLinkRoundTrip` | src/main.rs:62 | for an author name without `]`, splitting `[author](author_url)` at the first `]` gives back author and link |
| `Notification.AuthorLinkAmbiguous` | src/main.rs:62 | without that condition the attribution is ambiguous: `[a](b](c)` comes from two different name/link pairs |
| `Notification.PayloadRoundTrip` | src/main.rs:59-67 | for an author name without `]`, author, author link, title, post link and image link can all be read back from the payload |
| `Notification.NotificationFor` | src/main.rs:45-70 | parsing then building yields a payload exactly when no inspected child makes an `unwrap` fail, and every payload built carries the fixed header |
| `Notification.NoEntryNotification` | src/main.rs:45-70 | a document without Atom entries yields the placeholder message: `Autor` = `[u/?]()`, title `[Titel]`, empty link and image |

## Left out

- Reading `RSS_URL` and `WEBHOOK_URL` from the environment, `main`, and building the HTTP client with its user agent (src/main.rs:11-33). These are process start-up and configuration.
- The HTTP GET of the feed (src/main.rs:39-42). Network I/O: the model takes the parsed document as input.
- The webhook POST (src/main.rs:77-80). Network I/O, and the code cannot reach it because of the early `return Ok(())` at src/main.rs:74.
- Turning the body text into a tree (`body.parse().unwrap()`, src/main.rs:91). This is the XML library's parser. The model starts from a well-formed tree whose namespaces are already resolved, so the panic on malformed XML is not modelled.
- The XML library's `text()` is taken as given: each element's `text` field stands for the concatenation of its own text nodes.
- `println!` of the body and of the payload (src/main.rs:72, 88). Console output.
- Conversion of the `published` date. The code reads the text and never converts it, so the model does not parse dates either.
- The async runtime. It has no effect on the logic.
- JSON serialisation of the payload. The payload is modelled as a record with the same fields, not as JSON text.
- The six `let mut` slots of `parse_xml` are one `Fields` record in the model. `ParseXml` updates it in its loops, and `ReadChild` updates it one field at a time, in the program's order. The loop body is a separate method, which keeps each proof small.
- `post_time` is a `u64` in the code and a `nat` in the model. It never leaves 0, so width does not matter.
