/**
 * IMAP section addresses (section 6.4.5 of RFC 3501): a sequence of
 * 1-based part numbers, written dot-joined. The empty sequence stands for
 * PHP's `null` section, which `parsePart` fetches as the whole body.
 */
module Sections {
  import opened PhpStrings

  /** The string `parsePart` passes to `imap_fetchbody` and `uniqid`. */
  function Render(section: seq<nat>): (r: string)
    ensures section == [] <==> r == ""
  {
    if section == [] then ""
    else if |section| == 1 then NatToString(section[0])
    else NatToString(section[0]) + "." + Render(section[1..])
  }

  /**
   * The address of child `k` (0-based) of a part at `section`: the part's own
   * address when it is descended transparently, otherwise one more segment
   * `k + 1`.
   */
  function ChildSection(section: seq<nat>, transparent: bool, k: nat): seq<nat>
  {
    if transparent then section else section + [k + 1]
  }

  /**
   * A child's address extends its parent's; it is the parent's own exactly
   * under transparent descent, and otherwise one segment longer, ending in `k + 1`.
   */
  lemma ChildSectionShape(section: seq<nat>, transparent: bool, k: nat)
    ensures |section| <= |ChildSection(section, transparent, k)|
    ensures ChildSection(section, transparent, k)[..|section|] == section
    ensures transparent <==> ChildSection(section, transparent, k) == section
    ensures !transparent ==> |ChildSection(section, transparent, k)| == |section| + 1
    ensures !transparent ==> ChildSection(section, transparent, k)[|section|] == k + 1
  {
  }

  /**
   * Appending a segment is PHP's `$section.'.'.($k + 1)`: the rendered
   * parent address, a dot, and the decimal child number.
   */
  lemma {:induction false} RenderAppend(section: seq<nat>, n: nat)
    requires section != []
    ensures Render(section + [n]) == Render(section) + "." + NatToString(n)
    decreases |section|
  {
    var s := section + [n];
    assert s[0] == section[0] && |s| > 1;
    assert Render(s) == NatToString(section[0]) + "." + Render(s[1..]);
    if |section| == 1 {
      assert s[1..] == [n];
    } else {
      assert s[1..] == section[1..] + [n];
      RenderAppend(section[1..], n);
    }
  }

  /** A top-level part number `k + 1` renders as `(string) ($key + 1)`. */
  lemma RenderTopLevel(k: nat)
    ensures Render(ChildSection([], false, k)) == NatToString(k + 1)
  {
  }

  /** Every segment is a 1-based part number. */
  predicate Positive(section: seq<nat>)
  {
    forall i :: 0 <= i < |section| ==> 1 <= section[i]
  }

  /**
   * PHP's `if ($section)` on a rendered address of 1-based part numbers is
   * false exactly for the missing address: no such address renders as "" or "0".
   */
  lemma RenderTruthy(section: seq<nat>)
    requires Positive(section)
    ensures Truthy(Render(section)) <==> section != []
  {
    if |section| == 1 {
      NatToStringValue(section[0]);
      assert Render(section) == NatToString(section[0]);
    } else if |section| > 1 {
      assert Render(section) == NatToString(section[0]) + "." + Render(section[1..]);
      assert |Render(section)| >= 2;
    }
  }

  /** Only digits and dots appear in a rendered address, and it never ends in a dot. */
  lemma {:induction false} RenderAlphabet(section: seq<nat>)
    ensures forall i :: 0 <= i < |Render(section)| ==>
      Render(section)[i] == '.' || '0' <= Render(section)[i] <= '9'
    ensures section != [] ==> '0' <= Render(section)[|Render(section)| - 1] <= '9'
    decreases |section|
  {
    if |section| > 1 {
      var tail := Render(section[1..]);
      RenderAlphabet(section[1..]);
      var digits := NatToString(section[0]);
      var head := digits + ".";
      var r := Render(section);
      assert r == head + tail;
      forall i | 0 <= i < |r|
        ensures r[i] == '.' || '0' <= r[i] <= '9'
      {
        if i >= |head| {
          assert r[i] == tail[i - |head|];
        } else if i < |digits| {
          assert r[i] == digits[i];
        }
      }
      assert r[|r| - 1] == tail[|tail| - 1];
    }
  }
}
