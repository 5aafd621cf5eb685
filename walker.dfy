/**
 * The specification of `parseBody` / `parsePart`: which leaves the walk
 * visits, at which section address, and what each leaf adds to the
 * `plain`, `html` and `other` bodies and to the attachment list.
 */
module Walker {
  import opened Wrappers
  import opened PhpStrings
  import opened MimeParts
  import opened Sections
  import opened Decoding
  import opened HeaderFlags

  /**
   * What the server holds for one message: its header snapshot, its
   * structure tree (`imap_fetchstructure`), its whole body (`imap_body`) and
   * the body of each section (`imap_fetchbody`, by rendered address).
   */
  datatype Mailbox = Mailbox(
    header: Header,
    structure: Part,
    body: string,
    fetchBody: string -> string)

  datatype Attachment = Attachment(filename: string, content: string)

  /** The accumulators: `$this->body['plain'|'html'|'other']` and `$this->attachments`. */
  datatype Body = Body(plain: string, html: string, other: string, attachments: seq<Attachment>)

  const EmptyBody := Body("", "", "", [])

  /** Appending one contribution after another, accumulator by accumulator. */
  function Then(a: Body, b: Body): Body
  {
    Body(a.plain + b.plain, a.html + b.html, a.other + b.other, a.attachments + b.attachments)
  }

  /** A visited leaf and the section address it is fetched at. */
  datatype Visit = Visit(part: Part, section: seq<nat>)

  /** `2 == $part->type && 'RFC822' === $part->subtype && $notAttachment`: both string tests are case-sensitive. */
  predicate Transparent(p: Part)
  {
    p.mediaType == TYPEMESSAGE && p.subtype == "RFC822" &&
    (p.disposition.None? || p.disposition.value != "attachment")
  }

  /** The leaves `parsePart($p, $section)` visits, depth-first, left to right. */
  function Leaves(p: Part, section: seq<nat>): seq<Visit>
    decreases p, 1, 0
  {
    if p.parts != [] then ChildLeaves(p, section, Transparent(p), |p.parts|)
    else [Visit(p, section)]
  }

  /** The leaves of the first `n` children of `parent`, child `k` at `ChildSection(section, transparent, k)`. */
  function ChildLeaves(parent: Part, section: seq<nat>, transparent: bool, n: nat): seq<Visit>
    requires n <= |parent.parts|
    decreases parent, 0, n
  {
    if n == 0 then []
    else
      ChildLeaves(parent, section, transparent, n - 1) +
      Leaves(parent.parts[n - 1], ChildSection(section, transparent, n - 1))
  }

  /**
   * The leaves `parseBody` visits: top-level child `k` at `[k + 1]` whatever
   * the root is, or the root itself, with no section, when it has no parts.
   */
  function MessageLeaves(root: Part): seq<Visit>
  {
    if root.parts != [] then ChildLeaves(root, [], false, |root.parts|)
    else [Visit(root, [])]
  }

  /** `imap_fetchbody` at the rendered section, or `imap_body` when there is none. */
  function Fetch(mb: Mailbox, section: seq<nat>): string
  {
    if section != [] then mb.fetchBody(Render(section)) else mb.body
  }

  /** The data of a leaf: fetched, transfer-decoded, then (TEXT only) charset-converted. */
  function LeafData(mb: Mailbox, c: Codecs, v: Visit): string
  {
    var decoded := TransferDecode(c, v.part.encoding, Fetch(mb, v.section));
    if v.part.mediaType == TYPETEXT then NormalizeCharset(c, ParamMap(v.part), decoded) else decoded
  }

  /** PHP's `$parameters[$key]` on a missing key reads `null`, which `mimeDecode` takes as "". */
  function Lookup(params: map<string, string>, key: string): string
  {
    if key in params then params[key] else ""
  }

  /** The TEXT-branch filename: `filename`, else `name`, else `uniqid` of the section. */
  function TextFilename(c: Codecs, params: map<string, string>, section: seq<nat>): string
  {
    if "filename" in params then MimeDecoded(c, params["filename"])
    else if "name" in params then MimeDecoded(c, params["name"])
    else c.uniqid(Render(section))
  }

  /**
   * The filename of a non-TEXT leaf. The nested ternary has no parentheses,
   * so PHP 7 reads it left-associatively:
   * `(isset(filename) ? mimeDecode(filename) : isset(name)) ? mimeDecode(name) : uniqid(section)`.
   */
  function OtherFilename(c: Codecs, params: map<string, string>, section: seq<nat>): string
  {
    var condition := if "filename" in params then Truthy(MimeDecoded(c, params["filename"])) else "name" in params;
    if condition then MimeDecoded(c, Lookup(params, "name")) else c.uniqid(Render(section))
  }

  /** The disposition test of the TEXT branch: `isset(disposition) || 'attachment' !== disposition`. */
  predicate TextDispositionTest(p: Part)
  {
    p.disposition.Some? || p.disposition != Some("attachment")
  }

  /** What one visited leaf adds to the accumulators: the `switch ($part->type)`. */
  function LeafBody(mb: Mailbox, c: Codecs, v: Visit): Body
  {
    var p := v.part;
    var data := LeafData(mb, c, v);
    if p.mediaType == TYPETEXT then
      if ToLower(p.subtype) == "plain" then Body(data, "", "", [])
      else if ToLower(p.subtype) == "html" then Body("", data, "", [])
      else if TextDispositionTest(p) then Body("", "", "", [Attachment(TextFilename(c, ParamMap(p), v.section), data)])
      else Body("", "", data, [])
    else if TYPEAPPLICATION <= p.mediaType <= TYPEOTHER then
      Body("", "", "", [Attachment(OtherFilename(c, ParamMap(p), v.section), data)])
    else EmptyBody
  }

  /** The accumulated contributions of a sequence of visits, in order. */
  function BodyOf(mb: Mailbox, c: Codecs, visits: seq<Visit>): Body
  {
    if visits == [] then EmptyBody
    else Then(BodyOf(mb, c, visits[..|visits| - 1]), LeafBody(mb, c, visits[|visits| - 1]))
  }

  /** What `parseBody` appends to a fresh message. */
  function ParsedBody(mb: Mailbox, c: Codecs): Body
  {
    BodyOf(mb, c, MessageLeaves(mb.structure))
  }
}
