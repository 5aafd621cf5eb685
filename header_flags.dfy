/**
 * The message header snapshot (`imap_headerinfo`) and the `isMarkAs*`
 * predicates of `Message`, each a strict comparison of one header field
 * with one letter.
 */
module HeaderFlags {

  /** The flag fields of the header snapshot, each a one-letter string or " ", and the raw subject. */
  datatype Header = Header(
    recent: string,
    unseen: string,
    flagged: string,
    answered: string,
    deleted: string,
    draft: string,
    subject: string)

  predicate IsMarkAsAnswered(h: Header) { h.answered == "A" }

  predicate IsMarkAsDeleted(h: Header) { h.deleted == "D" }

  predicate IsMarkAsDraft(h: Header) { h.draft == "X" }

  predicate IsMarkAsImportant(h: Header) { h.flagged == "F" }

  predicate IsMarkAsRecent(h: Header) { h.recent == "R" }

  predicate IsMarkAsUnread(h: Header) { h.recent == "N" || h.unseen == "U" }

  /** Each predicate reads one header field only (two for unread): headers that agree there agree on it. */
  lemma PredicatesReadTheirField(h1: Header, h2: Header)
    ensures h1.answered == h2.answered ==> (IsMarkAsAnswered(h1) <==> IsMarkAsAnswered(h2))
    ensures h1.deleted == h2.deleted ==> (IsMarkAsDeleted(h1) <==> IsMarkAsDeleted(h2))
    ensures h1.draft == h2.draft ==> (IsMarkAsDraft(h1) <==> IsMarkAsDraft(h2))
    ensures h1.flagged == h2.flagged ==> (IsMarkAsImportant(h1) <==> IsMarkAsImportant(h2))
    ensures h1.recent == h2.recent ==> (IsMarkAsRecent(h1) <==> IsMarkAsRecent(h2))
    ensures h1.recent == h2.recent && h1.unseen == h2.unseen ==> (IsMarkAsUnread(h1) <==> IsMarkAsUnread(h2))
  {
  }

  /** The IMAP system flags of a message on the server. */
  datatype Flags = Flags(recent: bool, seen: bool, flagged: bool, answered: bool, deleted: bool, draft: bool)

  /**
   * The letters PHP's `imap_headerinfo` documents for the flags: Recent is
   * "R" when recent and seen, "N" when recent and unseen; Unseen is "U" only
   * when neither recent nor seen.
   */
  function HeaderOf(f: Flags, subject: string): Header
  {
    Header(
      if f.recent then (if f.seen then "R" else "N") else " ",
      if !f.recent && !f.seen then "U" else " ",
      if f.flagged then "F" else " ",
      if f.answered then "A" else " ",
      if f.deleted then "D" else " ",
      if f.draft then "X" else " ",
      subject)
  }

  /**
   * Read back through `imap_headerinfo`, `isMarkAsUnread` is exactly "not
   * \Seen", while `isMarkAsRecent` holds only for recent messages already seen.
   */
  lemma PredicatesOfFlags(f: Flags, subject: string)
    ensures IsMarkAsUnread(HeaderOf(f, subject)) <==> !f.seen
    ensures IsMarkAsRecent(HeaderOf(f, subject)) <==> f.recent && f.seen
    ensures IsMarkAsAnswered(HeaderOf(f, subject)) <==> f.answered
    ensures IsMarkAsDeleted(HeaderOf(f, subject)) <==> f.deleted
    ensures IsMarkAsDraft(HeaderOf(f, subject)) <==> f.draft
    ensures IsMarkAsImportant(HeaderOf(f, subject)) <==> f.flagged
  {
  }
}
