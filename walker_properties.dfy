/**
 * What the walk promises: only leaves are visited, each at an address
 * below its parent's, top-level children in index order; contributions
 * accumulate by appending in visit order; the `other` body is never
 * written; one attachment per attaching leaf.
 */
module WalkerProperties {
  import opened Wrappers
  import opened PhpStrings
  import opened MimeParts
  import opened Sections
  import opened Decoding
  import opened Walker

  lemma ThenAssociative(x: Body, y: Body, z: Body)
    ensures Then(Then(x, y), z) == Then(x, Then(y, z))
  {
  }

  /** Accumulating a joined visit list is accumulating each half in turn. */
  lemma {:induction false} BodyOfAppend(mb: Mailbox, c: Codecs, a: seq<Visit>, b: seq<Visit>)
    ensures BodyOf(mb, c, a + b) == Then(BodyOf(mb, c, a), BodyOf(mb, c, b))
    decreases |b|
  {
    if b == [] {
      assert a + b == a;
    } else {
      var b' := b[..|b| - 1];
      var last := LeafBody(mb, c, b[|b| - 1]);
      assert (a + b)[..|a + b| - 1] == a + b';
      assert (a + b)[|a + b| - 1] == b[|b| - 1];
      assert BodyOf(mb, c, a + b) == Then(BodyOf(mb, c, a + b'), last);
      assert BodyOf(mb, c, b) == Then(BodyOf(mb, c, b'), last);
      BodyOfAppend(mb, c, a, b');
      ThenAssociative(BodyOf(mb, c, a), BodyOf(mb, c, b'), last);
    }
  }

  /** A single visit contributes exactly its leaf's contribution. */
  lemma BodyOfSingleton(mb: Mailbox, c: Codecs, v: Visit)
    ensures BodyOf(mb, c, [v]) == LeafBody(mb, c, v)
  {
    assert [v][..0] == [];
    var b := LeafBody(mb, c, v);
    assert Then(EmptyBody, b) == Body("" + b.plain, "" + b.html, "" + b.other, [] + b.attachments);
    assert "" + b.plain == b.plain && "" + b.html == b.html && "" + b.other == b.other;
    assert [] + b.attachments == b.attachments;
  }

  /** Before the first child nothing is walked: the state is unchanged. */
  lemma ChildStart(mb: Mailbox, c: Codecs, parent: Part, section: seq<nat>, transparent: bool,
                   log: seq<Visit>, out: Body)
    ensures log == log + ChildLeaves(parent, section, transparent, 0)
    ensures out == Then(out, BodyOf(mb, c, ChildLeaves(parent, section, transparent, 0)))
  {
    assert log + [] == log;
    assert Then(out, EmptyBody) == Body(out.plain + "", out.html + "", out.other + "", out.attachments + []);
    assert out.plain + "" == out.plain && out.html + "" == out.html && out.other + "" == out.other;
    assert out.attachments + [] == out.attachments;
  }

  /** After the last child, the walk of all children is the walk of the part itself. */
  lemma ChildrenDone(mb: Mailbox, c: Codecs, part: Part, section: seq<nat>,
                     log0: seq<Visit>, out0: Body, log: seq<Visit>, out: Body)
    requires part.parts != []
    requires log == log0 + ChildLeaves(part, section, Transparent(part), |part.parts|)
    requires out == Then(out0, BodyOf(mb, c, ChildLeaves(part, section, Transparent(part), |part.parts|)))
    ensures log == log0 + Leaves(part, section)
    ensures out == Then(out0, BodyOf(mb, c, Leaves(part, section)))
  {
    assert Leaves(part, section) == ChildLeaves(part, section, Transparent(part), |part.parts|);
  }

  /** A leaf's walk is the leaf alone: appending its contribution is appending its walk. */
  lemma LeafStep(mb: Mailbox, c: Codecs, part: Part, section: seq<nat>,
                 log: seq<Visit>, out: Body, log': seq<Visit>, out': Body)
    requires part.parts == []
    requires log' == log + [Visit(part, section)]
    requires out' == Then(out, LeafBody(mb, c, Visit(part, section)))
    ensures log' == log + Leaves(part, section)
    ensures out' == Then(out, BodyOf(mb, c, Leaves(part, section)))
  {
    BodyOfSingleton(mb, c, Visit(part, section));
  }

  /**
   * One more child: when the state after the first `k` children is the walk
   * of those children, and child `k` then appends its own walk, the state is
   * the walk of the first `k + 1` children, in the fetch log as in the bodies.
   */
  lemma ChildStep(mb: Mailbox, c: Codecs, parent: Part, section: seq<nat>, transparent: bool, k: nat,
                  log0: seq<Visit>, out0: Body, log: seq<Visit>, out: Body, log': seq<Visit>, out': Body)
    requires k < |parent.parts|
    requires log == log0 + ChildLeaves(parent, section, transparent, k)
    requires out == Then(out0, BodyOf(mb, c, ChildLeaves(parent, section, transparent, k)))
    requires log' == log + Leaves(parent.parts[k], ChildSection(section, transparent, k))
    requires out' == Then(out, BodyOf(mb, c, Leaves(parent.parts[k], ChildSection(section, transparent, k))))
    ensures log' == log0 + ChildLeaves(parent, section, transparent, k + 1)
    ensures out' == Then(out0, BodyOf(mb, c, ChildLeaves(parent, section, transparent, k + 1)))
  {
    ChildLeavesSplit(mb, c, parent, section, transparent, k);
    var earlier := ChildLeaves(parent, section, transparent, k);
    var child := Leaves(parent.parts[k], ChildSection(section, transparent, k));
    SeqAppendAssociative(log0, earlier, child);
    ThenAssociative(out0, BodyOf(mb, c, earlier), BodyOf(mb, c, child));
  }

  /** The first `k + 1` children walk as the first `k`, then child `k`. */
  lemma ChildLeavesSplit(mb: Mailbox, c: Codecs, parent: Part, section: seq<nat>, transparent: bool, k: nat)
    requires k < |parent.parts|
    ensures ChildLeaves(parent, section, transparent, k + 1) ==
      ChildLeaves(parent, section, transparent, k) + Leaves(parent.parts[k], ChildSection(section, transparent, k))
    ensures BodyOf(mb, c, ChildLeaves(parent, section, transparent, k + 1)) ==
      Then(BodyOf(mb, c, ChildLeaves(parent, section, transparent, k)),
           BodyOf(mb, c, Leaves(parent.parts[k], ChildSection(section, transparent, k))))
  {
    BodyOfAppend(mb, c, ChildLeaves(parent, section, transparent, k),
      Leaves(parent.parts[k], ChildSection(section, transparent, k)));
  }

  lemma SeqAppendAssociative(a: seq<Visit>, b: seq<Visit>, c: seq<Visit>)
    ensures a + b + c == a + (b + c)
  {
  }

  /**
   * Every visit of `parsePart($p, $section)` is a leaf, and its address
   * extends `section`: a part with children is never fetched itself.
   */
  lemma {:induction false} LeavesUnder(p: Part, section: seq<nat>)
    ensures forall v :: v in Leaves(p, section) ==>
      v.part.parts == [] && |section| <= |v.section| && v.section[..|section|] == section
    decreases p, 1, 0
  {
    if p.parts != [] {
      ChildLeavesUnder(p, section, Transparent(p), |p.parts|);
    }
  }

  /**
   * The children's visits extend the parent's address; unless the parent is
   * descended transparently, the next segment is the 1-based child number,
   * and it never decreases along the walk (children in index order).
   */
  lemma {:induction false} ChildLeavesUnder(parent: Part, section: seq<nat>, transparent: bool, n: nat)
    requires n <= |parent.parts|
    ensures forall v :: v in ChildLeaves(parent, section, transparent, n) ==>
      v.part.parts == [] && |section| <= |v.section| && v.section[..|section|] == section
    ensures !transparent ==> forall v :: v in ChildLeaves(parent, section, transparent, n) ==>
      |section| < |v.section| && 1 <= v.section[|section|] <= n
    ensures !transparent ==> forall i, j ::
      0 <= i < j < |ChildLeaves(parent, section, transparent, n)| ==>
      |section| < |ChildLeaves(parent, section, transparent, n)[i].section| &&
      |section| < |ChildLeaves(parent, section, transparent, n)[j].section| &&
      ChildLeaves(parent, section, transparent, n)[i].section[|section|] <=
      ChildLeaves(parent, section, transparent, n)[j].section[|section|]
    decreases parent, 0, n
  {
    if n > 0 {
      var earlier := ChildLeaves(parent, section, transparent, n - 1);
      var cs := ChildSection(section, transparent, n - 1);
      var later := Leaves(parent.parts[n - 1], cs);
      var all := ChildLeaves(parent, section, transparent, n);
      assert all == earlier + later;
      ChildLeavesUnder(parent, section, transparent, n - 1);
      LeavesUnder(parent.parts[n - 1], cs);
      forall v | v in later
        ensures v.part.parts == [] && |section| <= |v.section| && v.section[..|section|] == section
        ensures !transparent ==> |section| < |v.section| && v.section[|section|] == n
      {
        assert v.section[..|cs|] == cs;
        assert v.section[..|section|] == v.section[..|cs|][..|section|];
        if !transparent {
          assert v.section[|section|] == v.section[..|cs|][|section|];
        }
      }
      forall v | v in all
        ensures v.part.parts == [] && |section| <= |v.section| && v.section[..|section|] == section
        ensures !transparent ==> |section| < |v.section| && 1 <= v.section[|section|] <= n
      {
        assert v in earlier || v in later;
      }
      if !transparent {
        forall i, j | 0 <= i < j < |all|
          ensures |section| < |all[i].section| && |section| < |all[j].section| &&
            all[i].section[|section|] <= all[j].section[|section|]
        {
          if j < |earlier| {
            assert all[i] == earlier[i] && all[j] == earlier[j];
          } else if i < |earlier| {
            assert all[i] == earlier[i] && all[i] in earlier;
            assert all[j] == later[j - |earlier|] && all[j] in later;
          } else {
            assert all[i] == later[i - |earlier|] && all[i] in later;
            assert all[j] == later[j - |earlier|] && all[j] in later;
          }
        }
        assert forall i, j :: 0 <= i < j < |all| ==>
          |section| < |all[i].section| && |section| < |all[j].section| &&
          all[i].section[|section|] <= all[j].section[|section|];
      }
    } else {
      assert ChildLeaves(parent, section, transparent, n) == [];
    }
  }

  /** Walking from an address of 1-based part numbers only ever produces such addresses. */
  lemma {:induction false} LeavesPositive(p: Part, section: seq<nat>)
    requires Positive(section)
    ensures forall v :: v in Leaves(p, section) ==> Positive(v.section)
    decreases p, 1, 0
  {
    if p.parts != [] {
      ChildLeavesPositive(p, section, Transparent(p), |p.parts|);
    }
  }

  lemma {:induction false} ChildLeavesPositive(parent: Part, section: seq<nat>, transparent: bool, n: nat)
    requires n <= |parent.parts| && Positive(section)
    ensures forall v :: v in ChildLeaves(parent, section, transparent, n) ==> Positive(v.section)
    decreases parent, 0, n
  {
    if n > 0 {
      var cs := ChildSection(section, transparent, n - 1);
      ChildSectionShape(section, transparent, n - 1);
      assert Positive(cs) by {
        forall i | 0 <= i < |cs| ensures 1 <= cs[i] {
          if i < |section| {
            assert cs[i] == cs[..|section|][i];
          }
        }
      }
      ChildLeavesPositive(parent, section, transparent, n - 1);
      LeavesPositive(parent.parts[n - 1], cs);
    }
  }

  /**
   * Every address the walk of a message fetches is made of 1-based part
   * numbers, so PHP's `if ($section)` is false for it exactly when there is
   * no address: `Fetch`'s test `section != []` is PHP's test.
   */
  lemma MessageSectionsTruthy(root: Part)
    ensures forall v :: v in MessageLeaves(root) ==> Positive(v.section)
    ensures forall v :: v in MessageLeaves(root) ==> (Truthy(Render(v.section)) <==> v.section != [])
  {
    if root.parts != [] {
      ChildLeavesPositive(root, [], false, |root.parts|);
    } else {
      assert MessageLeaves(root) == [Visit(root, [])];
    }
    forall v | v in MessageLeaves(root)
      ensures Truthy(Render(v.section)) <==> v.section != []
    {
      RenderTruthy(v.section);
    }
  }

  /** The leaf parts of the tree under `p`, left to right. */
  function Frontier(p: Part): seq<Part>
    decreases p, 1
  {
    if p.parts == [] then [p] else ChildrenFrontier(p, |p.parts|)
  }

  /** The leaf parts under the first `n` children of `parent`, left to right. */
  function ChildrenFrontier(parent: Part, n: nat): seq<Part>
    requires n <= |parent.parts|
    decreases parent, 0, n
  {
    if n == 0 then [] else ChildrenFrontier(parent, n - 1) + Frontier(parent.parts[n - 1])
  }

  /** The parts of a sequence of visits, addresses dropped. */
  function PartsOf(visits: seq<Visit>): (r: seq<Part>)
    ensures |r| == |visits|
    ensures forall i :: 0 <= i < |visits| ==> r[i] == visits[i].part
  {
    seq(|visits|, i requires 0 <= i < |visits| => visits[i].part)
  }

  lemma PartsOfAppend(a: seq<Visit>, b: seq<Visit>)
    ensures PartsOf(a + b) == PartsOf(a) + PartsOf(b)
  {
  }

  /**
   * The walk visits the leaves of the tree one by one, each exactly once and
   * in left-to-right order, whatever the addresses and transparent descents.
   */
  lemma {:induction false} LeavesFrontier(p: Part, section: seq<nat>)
    ensures PartsOf(Leaves(p, section)) == Frontier(p)
    decreases p, 1, 0
  {
    if p.parts != [] {
      ChildLeavesFrontier(p, section, Transparent(p), |p.parts|);
    } else {
      assert Leaves(p, section) == [Visit(p, section)];
    }
  }

  lemma {:induction false} ChildLeavesFrontier(parent: Part, section: seq<nat>, transparent: bool, n: nat)
    requires n <= |parent.parts|
    ensures PartsOf(ChildLeaves(parent, section, transparent, n)) == ChildrenFrontier(parent, n)
    decreases parent, 0, n
  {
    if n > 0 {
      var earlier := ChildLeaves(parent, section, transparent, n - 1);
      var later := Leaves(parent.parts[n - 1], ChildSection(section, transparent, n - 1));
      ChildLeavesFrontier(parent, section, transparent, n - 1);
      LeavesFrontier(parent.parts[n - 1], ChildSection(section, transparent, n - 1));
      PartsOfAppend(earlier, later);
    } else {
      assert ChildLeaves(parent, section, transparent, n) == [];
    }
  }

  /** The number of leaves of the tree under `p`, addresses aside. */
  function LeafCount(p: Part): nat
    decreases p, 1
  {
    if p.parts == [] then 1 else ChildrenLeafCount(p, |p.parts|)
  }

  /** The number of leaves under the first `n` children of `parent`. */
  function ChildrenLeafCount(parent: Part, n: nat): nat
    requires n <= |parent.parts|
    decreases parent, 0, n
  {
    if n == 0 then 0 else ChildrenLeafCount(parent, n - 1) + LeafCount(parent.parts[n - 1])
  }

  /**
   * The walk makes exactly as many visits as the tree has leaves, whatever
   * the addresses and the transparent descents.
   */
  lemma {:induction false} LeavesCount(p: Part, section: seq<nat>)
    ensures |Leaves(p, section)| == LeafCount(p)
    decreases p, 1
  {
    if p.parts != [] {
      ChildLeavesCount(p, section, Transparent(p), |p.parts|);
    }
  }

  lemma {:induction false} ChildLeavesCount(parent: Part, section: seq<nat>, transparent: bool, n: nat)
    requires n <= |parent.parts|
    ensures |ChildLeaves(parent, section, transparent, n)| == ChildrenLeafCount(parent, n)
    decreases parent, 0, n
  {
    if n > 0 {
      ChildLeavesCount(parent, section, transparent, n - 1);
      LeavesCount(parent.parts[n - 1], ChildSection(section, transparent, n - 1));
    }
  }

  /**
   * Child `k` of the first `n` is walked at `ChildSection(section, transparent, k)`:
   * every visit of its subtree is a visit of the parent's walk, and without
   * transparent descent it carries `k + 1` right after the parent's address.
   */
  lemma {:induction false} ChildVisits(parent: Part, section: seq<nat>, transparent: bool, n: nat)
    requires n <= |parent.parts|
    ensures forall k, v :: 0 <= k < n && v in Leaves(parent.parts[k], ChildSection(section, transparent, k)) ==>
      v in ChildLeaves(parent, section, transparent, n)
    ensures !transparent ==> forall k, v ::
      0 <= k < n && v in Leaves(parent.parts[k], ChildSection(section, transparent, k)) ==>
      |section| < |v.section| && v.section[|section|] == k + 1
  {
    if n > 0 {
      ChildVisits(parent, section, transparent, n - 1);
      var earlier := ChildLeaves(parent, section, transparent, n - 1);
      var later := Leaves(parent.parts[n - 1], ChildSection(section, transparent, n - 1));
      assert ChildLeaves(parent, section, transparent, n) == earlier + later;
    }
    if !transparent {
      forall k, v | 0 <= k < n && v in Leaves(parent.parts[k], ChildSection(section, transparent, k))
        ensures |section| < |v.section| && v.section[|section|] == k + 1
      {
        var cs := ChildSection(section, transparent, k);
        LeavesUnder(parent.parts[k], cs);
        assert v.section[..|cs|] == cs;
        assert v.section[|section|] == v.section[..|cs|][|section|];
      }
    }
  }

  /**
   * Addressing at the root: with parts, every visit lies under a top-level
   * child `1..n`, in index order; without, the root alone is visited, with
   * no section, so it is fetched through `imap_body`.
   */
  lemma RootAddressing(root: Part)
    ensures root.parts == [] ==> MessageLeaves(root) == [Visit(root, [])]
    ensures root.parts != [] ==> forall v :: v in MessageLeaves(root) ==>
      v.part.parts == [] && v.section != [] && 1 <= v.section[0] <= |root.parts|
    ensures root.parts != [] ==> forall i, j :: 0 <= i < j < |MessageLeaves(root)| ==>
      MessageLeaves(root)[i].section != [] && MessageLeaves(root)[j].section != [] &&
      MessageLeaves(root)[i].section[0] <= MessageLeaves(root)[j].section[0]
  {
    if root.parts != [] {
      ChildLeavesUnder(root, [], false, |root.parts|);
    }
  }

  /**
   * When the first `n` children are leaves, child `k` is visited exactly
   * once, at `section.(k+1)`, or at `section` itself under transparent descent.
   */
  lemma {:induction false} FlatAddressing(parent: Part, section: seq<nat>, transparent: bool, n: nat)
    requires n <= |parent.parts|
    requires forall k :: 0 <= k < n ==> parent.parts[k].parts == []
    ensures ChildLeaves(parent, section, transparent, n) ==
      seq(n, k requires 0 <= k < n => Visit(parent.parts[k], ChildSection(section, transparent, k)))
  {
    if n > 0 {
      FlatAddressing(parent, section, transparent, n - 1);
    }
  }

  /**
   * A part of type MESSAGE with subtype exactly "RFC822" and no disposition
   * exactly "attachment" walks each child at its own address; any other part
   * with children walks child `k` one segment deeper, at `section.(k+1)`.
   */
  lemma Rfc822Descent(part: Part, section: seq<nat>, k: nat)
    requires k < |part.parts|
    ensures part.mediaType == TYPEMESSAGE && part.subtype == "RFC822" && part.disposition != Some("attachment") ==>
      forall v :: v in Leaves(part.parts[k], section) ==> v in Leaves(part, section)
    ensures !(part.mediaType == TYPEMESSAGE && part.subtype == "RFC822" && part.disposition != Some("attachment")) ==>
      forall v :: v in Leaves(part.parts[k], section + [k + 1]) ==>
        v in Leaves(part, section) && |section| < |v.section| && v.section[|section|] == k + 1
  {
    var t := Transparent(part);
    assert Leaves(part, section) == ChildLeaves(part, section, t, |part.parts|);
    ChildVisits(part, section, t, |part.parts|);
    var inner := Leaves(part.parts[k], ChildSection(section, t, k));
    assert forall v :: v in inner ==> v in Leaves(part, section);
    if t {
      assert ChildSection(section, t, k) == section;
    } else {
      assert ChildSection(section, t, k) == section + [k + 1];
      assert forall v :: v in inner ==> |section| < |v.section| && v.section[|section|] == k + 1;
    }
  }

  /**
   * A forwarded message: the leaf inside a MESSAGE part that is the sole
   * top-level part is fetched at section 1 when the part is an inline
   * "RFC822" one, and at 1.1 for any other spelling or an "attachment" disposition.
   */
  lemma ForwardedMessage(leaf: Part, subtype: string, disposition: Option<string>)
    requires leaf.parts == []
    ensures
      var message := Part(TYPEMESSAGE, subtype, ENC7BIT, disposition, false, [], false, [], [leaf]);
      var root := Part(TYPEMULTIPART, "MIXED", ENC7BIT, None, false, [], false, [], [message]);
      MessageLeaves(root) ==
        if subtype == "RFC822" && disposition != Some("attachment") then [Visit(leaf, [1])]
        else [Visit(leaf, [1, 1])]
  {
    var message := Part(TYPEMESSAGE, subtype, ENC7BIT, disposition, false, [], false, [], [leaf]);
    var root := Part(TYPEMULTIPART, "MIXED", ENC7BIT, None, false, [], false, [], [message]);
    FlatAddressing(message, [1], Transparent(message), 1);
    assert ChildSection([], false, 0) == [1];
    assert ChildLeaves(root, [], false, 1) == ChildLeaves(root, [], false, 0) + Leaves(message, [1]);
    assert Leaves(message, [1]) == ChildLeaves(message, [1], Transparent(message), 1);
    var inner := ChildSection([1], Transparent(message), 0);
    assert ChildLeaves(message, [1], Transparent(message), 1) == [Visit(leaf, inner)];
    assert MessageLeaves(root) == [Visit(leaf, inner)];
    if subtype == "RFC822" && disposition != Some("attachment") {
      assert Transparent(message);
    } else {
      assert !Transparent(message);
      assert inner == [1, 1];
    }
  }

  /** The routing of one leaf, as the code decides it. */
  lemma LeafRouting(mb: Mailbox, c: Codecs, v: Visit)
    ensures LeafBody(mb, c, v).other == ""
    ensures v.part.mediaType == TYPETEXT && ToLower(v.part.subtype) == "plain" ==>
      LeafBody(mb, c, v) == Body(LeafData(mb, c, v), "", "", [])
    ensures v.part.mediaType == TYPETEXT && ToLower(v.part.subtype) == "html" ==>
      LeafBody(mb, c, v) == Body("", LeafData(mb, c, v), "", [])
    ensures v.part.mediaType == TYPETEXT && ToLower(v.part.subtype) !in {"plain", "html"} ==>
      LeafBody(mb, c, v) ==
        Body("", "", "", [Attachment(TextFilename(c, ParamMap(v.part), v.section), LeafData(mb, c, v))])
    ensures TYPEAPPLICATION <= v.part.mediaType <= TYPEOTHER ==>
      LeafBody(mb, c, v) ==
        Body("", "", "", [Attachment(OtherFilename(c, ParamMap(v.part), v.section), LeafData(mb, c, v))])
    ensures !(TYPETEXT <= v.part.mediaType <= TYPEOTHER) || v.part.mediaType in {TYPEMULTIPART, TYPEMESSAGE} ==>
      LeafBody(mb, c, v) == EmptyBody
  {
  }

  /** A TEXT leaf's data is transfer-decoded first, then converted; other leaves are never converted. */
  lemma DecodeBeforeConvert(mb: Mailbox, c: Codecs, v: Visit)
    ensures v.part.mediaType == TYPETEXT ==>
      LeafData(mb, c, v) == NormalizeCharset(c, ParamMap(v.part), TransferDecode(c, v.part.encoding, Fetch(mb, v.section)))
    ensures (v.part.mediaType == TYPETEXT && v.part.encoding == ENCBASE64 &&
      "charset" in ParamMap(v.part) && ToLower(ParamMap(v.part)["charset"]) == "iso-8859-1") ==>
      LeafData(mb, c, v) == c.utf8Encode(c.base64(Fetch(mb, v.section)))
    ensures (v.part.mediaType == TYPETEXT && v.part.encoding == ENCQUOTEDPRINTABLE &&
      "charset" in ParamMap(v.part) && ToLower(ParamMap(v.part)["charset"]) !in {"utf-8", "iso-8859-1"}) ==>
      LeafData(mb, c, v) == c.iconv(ParamMap(v.part)["charset"], c.qprint(Fetch(mb, v.section)))
    ensures v.part.mediaType != TYPETEXT ==>
      LeafData(mb, c, v) == TransferDecode(c, v.part.encoding, Fetch(mb, v.section))
  {
  }

  /** The TEXT-branch filename, case by case: `filename`, else `name`, else `uniqid`. */
  lemma TextFilenameCases(c: Codecs, params: map<string, string>, section: seq<nat>)
    ensures "filename" in params ==> TextFilename(c, params, section) == MimeDecoded(c, params["filename"])
    ensures "filename" !in params && "name" in params ==>
      TextFilename(c, params, section) == MimeDecoded(c, params["name"])
    ensures "filename" !in params && "name" !in params ==>
      TextFilename(c, params, section) == c.uniqid(Render(section))
  {
  }

  /**
   * The non-TEXT filename as PHP 7 evaluates it: a truthy decoded `filename`
   * selects the decoded `name` (empty when unset); a falsy one selects `uniqid`.
   */
  lemma OtherFilenameCases(c: Codecs, params: map<string, string>, section: seq<nat>)
    ensures "filename" !in params && "name" !in params ==>
      OtherFilename(c, params, section) == c.uniqid(Render(section))
    ensures "filename" !in params && "name" in params ==>
      OtherFilename(c, params, section) == MimeDecoded(c, params["name"])
    ensures "filename" in params && Truthy(MimeDecoded(c, params["filename"])) ==>
      OtherFilename(c, params, section) == MimeDecoded(c, Lookup(params, "name"))
    ensures "filename" in params && !Truthy(MimeDecoded(c, params["filename"])) ==>
      OtherFilename(c, params, section) == c.uniqid(Render(section))
  {
  }

  /** The `other` body is never written, whatever the leaves. */
  lemma {:induction false} OtherNeverWritten(mb: Mailbox, c: Codecs, visits: seq<Visit>)
    ensures BodyOf(mb, c, visits).other == ""
  {
    if visits != [] {
      OtherNeverWritten(mb, c, visits[..|visits| - 1]);
      LeafRouting(mb, c, visits[|visits| - 1]);
    }
  }

  /** A leaf that adds one attachment: a TEXT leaf that is neither plain nor html, or a type 3-8 leaf. */
  predicate Attaches(p: Part)
  {
    (p.mediaType == TYPETEXT && ToLower(p.subtype) != "plain" && ToLower(p.subtype) != "html") ||
    (TYPEAPPLICATION <= p.mediaType <= TYPEOTHER)
  }

  function CountAttaching(visits: seq<Visit>): nat
  {
    if visits == [] then 0
    else CountAttaching(visits[..|visits| - 1]) + (if Attaches(visits[|visits| - 1].part) then 1 else 0)
  }

  /** Exactly one attachment per attaching leaf, and none for any other leaf. */
  lemma {:induction false} AttachmentCount(mb: Mailbox, c: Codecs, visits: seq<Visit>)
    ensures |BodyOf(mb, c, visits).attachments| == CountAttaching(visits)
  {
    if visits != [] {
      AttachmentCount(mb, c, visits[..|visits| - 1]);
      LeafRouting(mb, c, visits[|visits| - 1]);
    }
  }

  /**
   * A single-part TEXT/plain message with no transfer decoding and no
   * charset conversion yields its raw body, verbatim, as the plain body.
   */
  lemma SinglePartPlain(mb: Mailbox, c: Codecs)
    requires mb.structure.parts == [] && mb.structure.mediaType == TYPETEXT
    requires ToLower(mb.structure.subtype) == "plain"
    requires mb.structure.encoding !in {ENCBASE64, ENCQUOTEDPRINTABLE}
    requires "charset" in ParamMap(mb.structure) ==> ToLower(ParamMap(mb.structure)["charset"]) == "utf-8"
    ensures ParsedBody(mb, c) == Body(mb.body, "", "", [])
  {
    var v := Visit(mb.structure, []);
    assert MessageLeaves(mb.structure) == [v];
    BodyOfSingleton(mb, c, v);
    assert LeafBody(mb, c, v) == Body(mb.body, "", "", []);
  }

  /**
   * A single-part TEXT/plain message with no transfer decoding: the plain
   * body is the raw body after the charset step. A declared charset such as
   * `us-ascii` goes through `iconv`, and the raw body comes back verbatim
   * whenever `iconv` returns it unchanged.
   */
  lemma SinglePartConverted(mb: Mailbox, c: Codecs)
    requires mb.structure.parts == [] && mb.structure.mediaType == TYPETEXT
    requires ToLower(mb.structure.subtype) == "plain"
    requires mb.structure.encoding !in {ENCBASE64, ENCQUOTEDPRINTABLE}
    ensures ParsedBody(mb, c) == Body(NormalizeCharset(c, ParamMap(mb.structure), mb.body), "", "", [])
    ensures ("charset" in ParamMap(mb.structure) &&
             ToLower(ParamMap(mb.structure)["charset"]) !in {"utf-8", "iso-8859-1"} &&
             c.iconv(ParamMap(mb.structure)["charset"], mb.body) == mb.body) ==>
      ParsedBody(mb, c) == Body(mb.body, "", "", [])
  {
    var v := Visit(mb.structure, []);
    assert MessageLeaves(mb.structure) == [v];
    BodyOfSingleton(mb, c, v);
    assert LeafBody(mb, c, v) == Body(NormalizeCharset(c, ParamMap(mb.structure), mb.body), "", "", []);
  }

  /** The subtype spellings the server reports, lower-cased as the routing compares them. */
  lemma LowerCaseSubtypes()
    ensures ToLower("PLAIN") == "plain" && ToLower("HTML") == "html" && ToLower("NAME") == "name"
  {
    assert ToLower("PLAIN") == "plain" by {
      forall i | 0 <= i < 5 ensures ToLower("PLAIN")[i] == "plain"[i] {}
    }
    assert ToLower("HTML") == "html" by {
      forall i | 0 <= i < 4 ensures ToLower("HTML")[i] == "html"[i] {}
    }
    assert ToLower("NAME") == "name" by {
      forall i | 0 <= i < 4 ensures ToLower("NAME")[i] == "name"[i] {}
    }
  }

  /** The first two top-level sections render as "1" and "2". */
  lemma RenderFirstTwo()
    ensures Render([1]) == "1" && Render([2]) == "2"
  {
    assert NatToString(1) == "1" && NatToString(2) == "2";
  }

  /** Two top-level leaves are visited at sections 1 and 2, and contribute in that order. */
  lemma TwoLeafMessage(mb: Mailbox, c: Codecs)
    requires |mb.structure.parts| == 2
    requires mb.structure.parts[0].parts == [] && mb.structure.parts[1].parts == []
    ensures ParsedBody(mb, c) ==
      Then(LeafBody(mb, c, Visit(mb.structure.parts[0], [1])), LeafBody(mb, c, Visit(mb.structure.parts[1], [2])))
  {
    var root := mb.structure;
    FlatAddressing(root, [], false, 2);
    var v1 := Visit(root.parts[0], [1]);
    var v2 := Visit(root.parts[1], [2]);
    assert ChildSection([], false, 0) == [1] && ChildSection([], false, 1) == [2];
    assert MessageLeaves(root) == [v1, v2];
    BodyOfSingleton(mb, c, v1);
    BodyOfSingleton(mb, c, v2);
    BodyOfAppend(mb, c, [v1], [v2]);
    assert [v1] + [v2] == [v1, v2];
  }

  /** A leaf without transfer encoding and without parameters is its fetched section, verbatim. */
  lemma BareLeafData(mb: Mailbox, c: Codecs, v: Visit)
    requires v.part.encoding == ENC7BIT && !v.part.ifparameters && !v.part.ifdparameters
    ensures LeafData(mb, c, v) == Fetch(mb, v.section)
  {
    assert ParamMap(v.part) == map[];
  }

  /** A bare TEXT/PLAIN or TEXT/HTML leaf adds its fetched section to `plain` or to `html`. */
  lemma BareTextLeaf(mb: Mailbox, c: Codecs, v: Visit)
    requires v.part.mediaType == TYPETEXT
    requires v.part.encoding == ENC7BIT && !v.part.ifparameters && !v.part.ifdparameters
    ensures ToLower(v.part.subtype) == "plain" ==> LeafBody(mb, c, v) == Body(Fetch(mb, v.section), "", "", [])
    ensures ToLower(v.part.subtype) == "html" ==> LeafBody(mb, c, v) == Body("", Fetch(mb, v.section), "", [])
  {
    BareLeafData(mb, c, v);
    LeafRouting(mb, c, v);
  }

  /**
   * A base64 APPLICATION leaf whose only parameter is NAME becomes one
   * attachment: the decoded `name`, and the base64-decoded section.
   */
  lemma NamedBase64Leaf(mb: Mailbox, c: Codecs, v: Visit, subtype: string, name: string)
    requires v.part == Part(TYPEAPPLICATION, subtype, ENCBASE64, None, true, [Param("NAME", name)], false, [], [])
    ensures LeafBody(mb, c, v) ==
      Body("", "", "", [Attachment(MimeDecoded(c, name), c.base64(Fetch(mb, v.section)))])
  {
    LowerCaseSubtypes();
    var rows := [Param("NAME", name)];
    assert rows[..0] == [];
    assert AddRows(map[], rows) == map[][ToLower("NAME") := name];
    var params := ParamMap(v.part);
    assert params == map["name" := name];
    assert OtherFilename(c, params, v.section) == MimeDecoded(c, name);
    LeafRouting(mb, c, v);
  }

  /**
   * MULTIPART/MIXED with a TEXT/PLAIN part and a base64 APPLICATION part
   * whose only parameter is NAME: the text goes to `plain` as fetched from
   * section 1, the decoded section 2 becomes one attachment named by the
   * decoded `name`.
   */
  lemma MixedMessage(mb: Mailbox, c: Codecs)
    requires mb.structure == Part(TYPEMULTIPART, "MIXED", ENC7BIT, None, false, [], false, [], [
      Part(TYPETEXT, "PLAIN", ENC7BIT, None, false, [], false, [], []),
      Part(TYPEAPPLICATION, "OCTET-STREAM", ENCBASE64, None, true, [Param("NAME", "f.bin")], false, [], [])])
    ensures ParsedBody(mb, c) ==
      Body(mb.fetchBody("1"), "", "", [Attachment(MimeDecoded(c, "f.bin"), c.base64(mb.fetchBody("2")))])
  {
    var root := mb.structure;
    TwoLeafMessage(mb, c);
    LowerCaseSubtypes();
    var v1 := Visit(root.parts[0], [1]);
    var v2 := Visit(root.parts[1], [2]);
    RenderFirstTwo();
    assert Fetch(mb, [1]) == mb.fetchBody("1") && Fetch(mb, [2]) == mb.fetchBody("2");
    BareTextLeaf(mb, c, v1);
    NamedBase64Leaf(mb, c, v2, "OCTET-STREAM", "f.bin");
    var b1 := Body(mb.fetchBody("1"), "", "", []);
    var b2 := Body("", "", "", [Attachment(MimeDecoded(c, "f.bin"), c.base64(mb.fetchBody("2")))]);
    assert LeafBody(mb, c, v1) == b1 && LeafBody(mb, c, v2) == b2;
    assert Then(b1, b2) == Body(b1.plain + "", "" + "", "" + "", [] + b2.attachments);
    assert b1.plain + "" == b1.plain && "" + "" == "" && [] + b2.attachments == b2.attachments;
  }

  /** MULTIPART/ALTERNATIVE with TEXT/PLAIN and TEXT/HTML parts: one goes to `plain`, the other to `html`. */
  lemma AlternativeMessage(mb: Mailbox, c: Codecs)
    requires mb.structure == Part(TYPEMULTIPART, "ALTERNATIVE", ENC7BIT, None, false, [], false, [], [
      Part(TYPETEXT, "PLAIN", ENC7BIT, None, false, [], false, [], []),
      Part(TYPETEXT, "HTML", ENC7BIT, None, false, [], false, [], [])])
    ensures ParsedBody(mb, c) == Body(mb.fetchBody("1"), mb.fetchBody("2"), "", [])
  {
    var root := mb.structure;
    TwoLeafMessage(mb, c);
    LowerCaseSubtypes();
    var v1 := Visit(root.parts[0], [1]);
    var v2 := Visit(root.parts[1], [2]);
    RenderFirstTwo();
    BareTextLeaf(mb, c, v1);
    BareTextLeaf(mb, c, v2);
  }
}
