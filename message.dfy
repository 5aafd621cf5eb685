/**
 * The `Message` class: the body accumulators, the parse-once latch and the
 * imperative walk that fills them (`parseBody`, `parsePart`).
 */
module ImapMessage {
  import opened Wrappers
  import opened PhpStrings
  import opened MimeParts
  import opened Sections
  import opened Decoding
  import opened HeaderFlags
  import opened Walker
  import opened WalkerProperties

  class Message {
    /** The server side of this message (stream and uid) and the PHP functions the walk calls. */
    const mailbox: Mailbox
    const codecs: Codecs

    var plain: string
    var html: string
    var other: string
    var attachments: seq<Attachment>
    var isBodyParsed: bool

    /** The leaves fetched so far, in fetch order, each with the section it was fetched at. */
    ghost var fetched: seq<Visit>

    function Output(): Body
      reads this
    {
      Body(plain, html, other, attachments)
    }

    /**
     * Before the first getter call nothing is accumulated or fetched; after
     * it, exactly the walk of the whole structure is.
     */
    ghost predicate Valid()
      reads this
    {
      if isBodyParsed then
        Output() == ParsedBody(mailbox, codecs) && fetched == MessageLeaves(mailbox.structure)
      else
        Output() == EmptyBody && fetched == []
    }

    constructor (mailbox: Mailbox, codecs: Codecs)
      ensures Valid() && !isBodyParsed
      ensures this.mailbox == mailbox && this.codecs == codecs
      ensures Output() == EmptyBody
    {
      this.mailbox := mailbox;
      this.codecs := codecs;
      plain, html, other := "", "", "";
      attachments := [];
      isBodyParsed := false;
      fetched := [];
    }

    /** `getSubject`: the header subject, MIME-decoded. */
    method GetSubject() returns (subject: string)
      ensures subject == MimeDecoded(codecs, mailbox.header.subject)
    {
      subject := MimeDecode(codecs, mailbox.header.subject);
    }

    /** `getBodyPlain`: parse on the first call only, then return the plain body. */
    method GetBodyPlain() returns (body: string)
      requires Valid()
      modifies this
      ensures Valid() && isBodyParsed
      ensures body == ParsedBody(mailbox, codecs).plain
      ensures old(isBodyParsed) ==> unchanged(this)
    {
      if !isBodyParsed {
        ParseBody();
        assert Output() == Then(EmptyBody, ParsedBody(mailbox, codecs));
      }
      body := plain;
    }

    /** `getBodyHtml`: parse on the first call only, then return the html body. */
    method GetBodyHtml() returns (body: string)
      requires Valid()
      modifies this
      ensures Valid() && isBodyParsed
      ensures body == ParsedBody(mailbox, codecs).html
      ensures old(isBodyParsed) ==> unchanged(this)
    {
      if !isBodyParsed {
        ParseBody();
        assert Output() == Then(EmptyBody, ParsedBody(mailbox, codecs));
      }
      body := html;
    }

    /** `getAttachments`: parse on the first call only, then return the attachment list. */
    method GetAttachments() returns (list: seq<Attachment>)
      requires Valid()
      modifies this
      ensures Valid() && isBodyParsed
      ensures list == ParsedBody(mailbox, codecs).attachments
      ensures old(isBodyParsed) ==> unchanged(this)
    {
      if !isBodyParsed {
        ParseBody();
        assert Output() == Then(EmptyBody, ParsedBody(mailbox, codecs));
      }
      list := attachments;
    }

    /**
     * `parseBody`: walk the top-level parts at sections 1, 2, ..., or the
     * structure itself with no section, then set the latch. Each call
     * appends again; only the getters' latch prevents that.
     */
    method ParseBody()
      modifies this
      ensures Output() == Then(old(Output()), ParsedBody(mailbox, codecs))
      ensures fetched == old(fetched) + MessageLeaves(mailbox.structure)
      ensures isBodyParsed
    {
      var structure := mailbox.structure;
      if structure.parts != [] {
        ghost var out0, log0 := Output(), fetched;
        ChildStart(mailbox, codecs, structure, [], false, log0, out0);
        var key := 0;
        while key < |structure.parts|
          invariant 0 <= key <= |structure.parts|
          invariant Output() == Then(out0, BodyOf(mailbox, codecs, ChildLeaves(structure, [], false, key)))
          invariant fetched == log0 + ChildLeaves(structure, [], false, key)
        {
          ParseTopLevelPart(key, out0, log0);
          key := key + 1;
        }
      } else {
        ParsePart(structure, []);
      }
      isBodyParsed := true;
    }

    /** One round of the `foreach` of `parseBody`: top-level part `key` at section `key + 1`, whatever the root's type. */
    method ParseTopLevelPart(key: nat, ghost out0: Body, ghost log0: seq<Visit>)
      requires key < |mailbox.structure.parts|
      requires Output() == Then(out0, BodyOf(mailbox, codecs, ChildLeaves(mailbox.structure, [], false, key)))
      requires fetched == log0 + ChildLeaves(mailbox.structure, [], false, key)
      modifies this
      ensures Output() == Then(out0, BodyOf(mailbox, codecs, ChildLeaves(mailbox.structure, [], false, key + 1)))
      ensures fetched == log0 + ChildLeaves(mailbox.structure, [], false, key + 1)
      ensures isBodyParsed == old(isBodyParsed)
    {
      ghost var out, log := Output(), fetched;
      assert ChildSection([], false, key) == [key + 1];
      ParsePart(mailbox.structure.parts[key], [key + 1]);
      ChildStep(mailbox, codecs, mailbox.structure, [], false, key, log0, out0, log, out, fetched, Output());
    }

    /**
     * `parsePart`: a part with children recurses into them in index order
     * and is not fetched itself; a leaf is handed to `ParseLeaf`.
     */
    method ParsePart(part: Part, section: seq<nat>)
      requires section != [] || part.parts == []
      modifies this
      ensures Output() == Then(old(Output()), BodyOf(mailbox, codecs, Leaves(part, section)))
      ensures fetched == old(fetched) + Leaves(part, section)
      ensures isBodyParsed == old(isBodyParsed)
      decreases part, 2
    {
      if part.parts != [] {
        ParseChildren(part, section);
      } else {
        ghost var out, log := Output(), fetched;
        ParseLeaf(part, section);
        LeafStep(mailbox, codecs, part, section, log, out, fetched, Output());
      }
    }

    /** The `foreach` of `parsePart` over the children, then `return`. */
    method ParseChildren(part: Part, section: seq<nat>)
      requires section != [] && part.parts != []
      modifies this
      ensures Output() == Then(old(Output()), BodyOf(mailbox, codecs, Leaves(part, section)))
      ensures fetched == old(fetched) + Leaves(part, section)
      ensures isBodyParsed == old(isBodyParsed)
      decreases part, 1
    {
      ghost var out0, log0 := Output(), fetched;
      ChildStart(mailbox, codecs, part, section, Transparent(part), log0, out0);
      var subSection := 0;
      while subSection < |part.parts|
        invariant 0 <= subSection <= |part.parts|
        invariant Output() == Then(out0, BodyOf(mailbox, codecs, ChildLeaves(part, section, Transparent(part), subSection)))
        invariant fetched == log0 + ChildLeaves(part, section, Transparent(part), subSection)
        invariant isBodyParsed == old(isBodyParsed)
      {
        ParseChild(part, section, subSection, out0, log0);
        subSection := subSection + 1;
      }
      ChildrenDone(mailbox, codecs, part, section, log0, out0, fetched, Output());
    }

    /**
     * One round of the `foreach` of `parsePart`: child `subSection` at the
     * part's own section under transparent descent, otherwise one segment deeper.
     */
    method ParseChild(part: Part, section: seq<nat>, subSection: nat, ghost out0: Body, ghost log0: seq<Visit>)
      requires section != [] && subSection < |part.parts|
      requires Output() == Then(out0, BodyOf(mailbox, codecs, ChildLeaves(part, section, Transparent(part), subSection)))
      requires fetched == log0 + ChildLeaves(part, section, Transparent(part), subSection)
      modifies this
      ensures Output() == Then(out0, BodyOf(mailbox, codecs, ChildLeaves(part, section, Transparent(part), subSection + 1)))
      ensures fetched == log0 + ChildLeaves(part, section, Transparent(part), subSection + 1)
      ensures isBodyParsed == old(isBodyParsed)
      decreases part, 0
    {
      ghost var out, log := Output(), fetched;
      var notAttachment := part.disposition.None? || part.disposition.value != "attachment";
      if part.mediaType == TYPEMESSAGE && part.subtype == "RFC822" && notAttachment {
        ParsePart(part.parts[subSection], section);
      } else {
        ParsePart(part.parts[subSection], section + [subSection + 1]);
      }
      ChildStep(mailbox, codecs, part, section, Transparent(part), subSection, log0, out0, log, out, fetched, Output());
    }

    /** The leaf half of `parsePart`: merge parameters, fetch, decode, convert, route. */
    method ParseLeaf(part: Part, section: seq<nat>)
      modifies this
      ensures Output() == Then(old(Output()), LeafBody(mailbox, codecs, Visit(part, section)))
      ensures fetched == old(fetched) + [Visit(part, section)]
      ensures isBodyParsed == old(isBodyParsed)
    {
      var parameters := CollectParameters(part);
      var data := FetchAndDecode(part, section, parameters);
      fetched := fetched + [Visit(part, section)];
      if part.mediaType == TYPETEXT {
        if ToLower(part.subtype) == "plain" {
          plain := plain + data;
        } else if ToLower(part.subtype) == "html" {
          html := html + data;
        } else {
          if part.disposition.Some? || part.disposition != Some("attachment") {
            var filename := TextFilenameOf(parameters, section);
            attachments := attachments + [Attachment(filename, data)];
          } else {
            // `isset($part->disposition) || 'attachment' !== $part->disposition` holds for every part
            assert false;
          }
        }
      } else if part.mediaType == TYPEMULTIPART || part.mediaType == TYPEMESSAGE {
      } else if TYPEAPPLICATION <= part.mediaType <= TYPEOTHER {
        var filename := OtherFilenameOf(parameters, section);
        attachments := attachments + [Attachment(filename, data)];
      }
    }

    /** Fetch the leaf at `section` (the whole body when there is none), undo its transfer encoding, convert TEXT. */
    method FetchAndDecode(part: Part, section: seq<nat>, parameters: map<string, string>) returns (data: string)
      requires parameters == ParamMap(part)
      ensures data == LeafData(mailbox, codecs, Visit(part, section))
    {
      if section != [] {
        data := mailbox.fetchBody(Render(section));
      } else {
        data := mailbox.body;
      }
      if part.encoding == ENCBASE64 {
        data := codecs.base64(data);
      } else if part.encoding == ENCQUOTEDPRINTABLE {
        data := codecs.qprint(data);
      }
      if part.mediaType == TYPETEXT {
        if "charset" in parameters && ToLower(parameters["charset"]) != "utf-8" {
          if ToLower(parameters["charset"]) == "iso-8859-1" {
            data := codecs.utf8Encode(data);
          } else {
            data := codecs.iconv(parameters["charset"], data);
          }
        }
      }
    }

    /** The parenthesised TEXT-branch ternary: `filename`, else `name`, else `uniqid`. */
    method TextFilenameOf(parameters: map<string, string>, section: seq<nat>) returns (filename: string)
      ensures filename == TextFilename(codecs, parameters, section)
    {
      if "filename" in parameters {
        filename := MimeDecode(codecs, parameters["filename"]);
      } else if "name" in parameters {
        filename := MimeDecode(codecs, parameters["name"]);
      } else {
        filename := codecs.uniqid(Render(section));
      }
    }

    /** The unparenthesised non-TEXT ternary, evaluated left to right as PHP 7 does. */
    method OtherFilenameOf(parameters: map<string, string>, section: seq<nat>) returns (filename: string)
      ensures filename == OtherFilename(codecs, parameters, section)
    {
      var useName: bool;
      if "filename" in parameters {
        var decoded := MimeDecode(codecs, parameters["filename"]);
        useName := Truthy(decoded);
      } else {
        useName := "name" in parameters;
      }
      if useName {
        var name := if "name" in parameters then parameters["name"] else "";
        filename := MimeDecode(codecs, name);
      } else {
        filename := codecs.uniqid(Render(section));
      }
    }
  }
}
