/** Enumeration of every hyponym below a WordNet synset, each written as its
    ImageNet/WordNet identifier ("wnid"): `n` followed by the synset's offset
    zero-padded to eight decimal digits. */
module SynsetTesting {
  import opened DecimalFormat

  /** A synset of the lexical hierarchy: its numeric offset and its direct
      hyponyms, in the order the database returns them. Being an inductive
      value, the hierarchy is finite and acyclic; the same offset may still
      occur at several places. */
  datatype Synset = Synset(offset: nat, hyponyms: seq<Synset>)

  /** The wnid of an offset, `"n{:08d}".format(offset)`: an `n` followed only
      by digits, at least nine characters in all. */
  function Wnid(offset: nat): (r: string)
    ensures IsWnid(r)
  {
    "n" + FormatZeroPadded(offset, 8)
  }

  /** The shape of every wnid: an `n`, then at least eight digits. */
  predicate IsWnid(id: string) {
    |id| >= 9 && id[0] == 'n' && AllDigits(id[1..])
  }

  /** The digits of a wnid spell its offset again: the padding neither adds
      value nor truncates. */
  lemma WnidRoundTrip(offset: nat)
    ensures DecimalValue(Wnid(offset)[1..]) == offset
  {
    assert Wnid(offset)[1..] == FormatZeroPadded(offset, 8);
    FormatRoundTrip(offset, 8);
  }

  /** Distinct offsets get distinct wnids. */
  lemma WnidInjective(a: nat, b: nat)
    requires Wnid(a) == Wnid(b)
    ensures a == b
  {
    WnidRoundTrip(a);
    WnidRoundTrip(b);
  }

  /** Offsets below 10^8 give a nine-character wnid; a larger offset is
      written out in full, with no padding and nothing cut. */
  lemma WnidLength(offset: nat)
    ensures offset < 100_000_000 ==> |Wnid(offset)| == 9
    ensures offset >= 100_000_000 ==> Wnid(offset) == "n" + Digits(offset)
  {
    assert Pow10(8) == 100_000_000;
    DigitsLength(offset, 8);
  }

  /** The identifiers `ident` gives the first `k` hyponyms of `s`, each
      followed by the identifiers of everything below it. With `Wnid` as
      `ident`, this is what the loop of `GetAllHyponyms` has collected after
      `k` rounds. */
  function Walk<T>(s: Synset, k: nat, ident: nat -> T): seq<T>
    requires k <= |s.hyponyms|
    decreases s, k
  {
    if k == 0 then [] else Walk(s, k - 1, ident) + Block(s.hyponyms[k - 1], ident)
  }

  /** What one round of the loop adds for hyponym `h`: its identifier, then
      the identifiers of everything below it. */
  function Block<T>(h: Synset, ident: nat -> T): seq<T>
    decreases h, |h.hyponyms| + 1
  {
    [ident(h.offset)] + Walk(h, |h.hyponyms|, ident)
  }

  /** Everything `get_all_hyponyms(s)` returns. */
  function AllHyponyms(s: Synset): seq<string> {
    Walk(s, |s.hyponyms|, Wnid)
  }

  /** `get_all_hyponyms(synset, depth)`: for each hyponym in turn, append its
      wnid and then everything below it. The depth only indents the
      diagnostic line printed per hyponym and has no effect on the result. */
  method GetAllHyponyms(synset: Synset, depth: nat) returns (hyponyms: seq<string>)
    ensures hyponyms == AllHyponyms(synset)
    decreases synset
  {
    hyponyms := [];
    for i := 0 to |synset.hyponyms|
      invariant hyponyms == Walk(synset, i, Wnid)
    {
      var hyponym := synset.hyponyms[i];
      var wnid := Wnid(hyponym.offset);
      hyponyms := hyponyms + [wnid];
      var below := GetAllHyponyms(hyponym, depth + 1);
      hyponyms := hyponyms + below;
      WalkStep(synset, i, Wnid);
    }
  }

  /** One more round appends the child's identifier and then its subtree. */
  lemma WalkStep<T>(s: Synset, i: nat, ident: nat -> T)
    requires i < |s.hyponyms|
    ensures Walk(s, i + 1, ident)
      == Walk(s, i, ident) + [ident(s.hyponyms[i].offset)]
        + Walk(s.hyponyms[i], |s.hyponyms[i].hyponyms|, ident)
  {
  }

  // Reference definition: the textbook pre-order of a tree.

  /** The offsets of `s` and of everything below it, each node before its
      hyponyms and sibling subtrees left to right. */
  function PreOrder(s: Synset): seq<nat>
    decreases s, 1
  {
    [s.offset] + PreOrderAll(s.hyponyms)
  }

  function PreOrderAll(ss: seq<Synset>): seq<nat>
    decreases ss, 0
  {
    if ss == [] then [] else PreOrder(ss[0]) + PreOrderAll(ss[1..])
  }

  /** The identifiers of a sequence of offsets, position by position. */
  function Labels<T>(offsets: seq<nat>, ident: nat -> T): (r: seq<T>)
    ensures |r| == |offsets|
    ensures forall k :: 0 <= k < |r| ==> r[k] == ident(offsets[k])
  {
    if offsets == [] then [] else [ident(offsets[0])] + Labels(offsets[1..], ident)
  }

  predicate Distinct<T(==)>(xs: seq<T>) {
    forall i, j :: 0 <= i < j < |xs| ==> xs[i] != xs[j]
  }

  lemma {:induction false} LabelsAppend<T>(a: seq<nat>, b: seq<nat>, ident: nat -> T)
    ensures Labels(a + b, ident) == Labels(a, ident) + Labels(b, ident)
  {
    if a != [] {
      assert (a + b)[1..] == a[1..] + b;
      LabelsAppend(a[1..], b, ident);
    }
  }

  lemma {:induction false} PreOrderAllSnoc(ss: seq<Synset>, h: Synset)
    ensures PreOrderAll(ss + [h]) == PreOrderAll(ss) + PreOrder(h)
  {
    if ss == [] {
      assert PreOrderAll([h]) == PreOrder(h) + PreOrderAll([]);
    } else {
      assert (ss + [h])[1..] == ss[1..] + [h];
      PreOrderAllSnoc(ss[1..], h);
    }
  }

  /** After `k` rounds the walk holds the identifiers of the pre-order of the first
      `k` subtrees. */
  lemma {:induction false} WalkIsPreOrder<T>(s: Synset, k: nat, ident: nat -> T)
    requires k <= |s.hyponyms|
    ensures Walk(s, k, ident) == Labels(PreOrderAll(s.hyponyms[..k]), ident)
    decreases s, k
  {
    if k == 0 {
      assert s.hyponyms[..0] == [];
    } else {
      var hs := s.hyponyms;
      var h := hs[k - 1];
      WalkIsPreOrder(s, k - 1, ident);
      WalkIsPreOrder(h, |h.hyponyms|, ident);
      assert h.hyponyms[..|h.hyponyms|] == h.hyponyms;
      assert hs[..k] == hs[..k - 1] + [h];
      PreOrderAllSnoc(hs[..k - 1], h);
      var before := PreOrderAll(hs[..k - 1]);
      var below := PreOrderAll(h.hyponyms);
      LabelsAppend(before, [h.offset] + below, ident);
      LabelsAppend([h.offset], below, ident);
    }
  }

  /** The result is exactly the pre-order of the hierarchy with the root left
      out, every node mapped to its wnid: nothing sorted, merged or dropped,
      and one entry per node below the root (per path to it). */
  lemma HyponymsArePreOrder(s: Synset)
    ensures AllHyponyms(s) == Labels(PreOrder(s)[1..], Wnid)
    ensures |AllHyponyms(s)| == |PreOrder(s)| - 1
  {
    WalkIsPreOrder(s, |s.hyponyms|, Wnid);
    assert s.hyponyms[..|s.hyponyms|] == s.hyponyms;
    assert PreOrder(s)[1..] == PreOrderAll(s.hyponyms);
  }

  /** A synset with no hyponyms yields the empty list. */
  lemma LeafHasNoHyponyms(s: Synset)
    requires s.hyponyms == []
    ensures AllHyponyms(s) == []
  {
  }

  /** What is collected after `j` rounds is a prefix of what is collected
      after `k >= j`: later hyponyms only add at the end. */
  lemma {:induction false} WalkPrefix<T>(s: Synset, j: nat, k: nat, ident: nat -> T)
    requires j <= k <= |s.hyponyms|
    ensures Walk(s, j, ident) <= Walk(s, k, ident)
    decreases k
  {
    if j < k {
      WalkPrefix(s, j, k - 1, ident);
    }
  }

  /** Pre-order: the walk begins with what the hyponyms before the `i`-th
      contribute, immediately followed by the identifier of the `i`-th
      hyponym and then by everything below that hyponym. With `Wnid` as
      `ident` the walk is `AllHyponyms(s)`. */
  lemma ChildBlock<T>(s: Synset, i: nat, ident: nat -> T)
    requires i < |s.hyponyms|
    ensures var h := s.hyponyms[i];
      Walk(s, i, ident) + ([ident(h.offset)] + Walk(h, |h.hyponyms|, ident))
        <= Walk(s, |s.hyponyms|, ident)
  {
    WalkPrefix(s, i + 1, |s.hyponyms|, ident);
  }

  /** Sibling order is kept: the identifier of the `i`-th hyponym and
      everything below it are all collected before the `j`-th hyponym is
      reached. */
  lemma SiblingOrder<T>(s: Synset, i: nat, j: nat, ident: nat -> T)
    requires i < j < |s.hyponyms|
    ensures var h := s.hyponyms[i];
      Walk(s, i, ident) + ([ident(h.offset)] + Walk(h, |h.hyponyms|, ident))
        <= Walk(s, j, ident)
  {
    WalkPrefix(s, i + 1, j, ident);
  }

  /** Every entry of the result is a well-formed wnid, and a nine-character
      one when every offset below the root is below 10^8. */
  lemma HyponymsWellFormed(s: Synset)
    ensures forall k :: 0 <= k < |AllHyponyms(s)| ==> IsWnid(AllHyponyms(s)[k])
    ensures (forall k :: 1 <= k < |PreOrder(s)| ==> PreOrder(s)[k] < 100_000_000) ==>
      forall k :: 0 <= k < |AllHyponyms(s)| ==> |AllHyponyms(s)[k]| == 9
  {
    HyponymsArePreOrder(s);
    var offsets := PreOrder(s)[1..];
    forall k | 0 <= k < |offsets|
      ensures offsets[k] < 100_000_000 ==> |Wnid(offsets[k])| == 9
    {
      WnidLength(offsets[k]);
    }
  }

  /** When no offset repeats below the root, no wnid repeats in the result. */
  lemma HyponymsDistinct(s: Synset)
    requires Distinct(PreOrder(s)[1..])
    ensures Distinct(AllHyponyms(s))
  {
    HyponymsArePreOrder(s);
    var below := PreOrder(s)[1..];
    var r := AllHyponyms(s);
    forall i, j | 0 <= i < j < |r|
      ensures r[i] != r[j]
    {
      if r[i] == r[j] {
        WnidInjective(below[i], below[j]);
      }
    }
  }

  /** The root's own wnid is never collected, unless its offset also occurs
      below it; other offsets may repeat (a synset with several parents). */
  lemma RootNotEmitted(s: Synset)
    requires s.offset !in PreOrder(s)[1..]
    ensures Wnid(s.offset) !in AllHyponyms(s)
  {
    HyponymsArePreOrder(s);
    var r := AllHyponyms(s);
    if Wnid(s.offset) in r {
      var k :| 0 <= k < |r| && r[k] == Wnid(s.offset);
      WnidInjective(PreOrder(s)[k + 1], s.offset);
    }
  }

  /** Two hyponyms A (offset 100) and B (offset 200), A with one hyponym C
      (offset 300): the walk lists A, C, B, whatever the identifier format
      (`WnidExample` gives the wnids themselves). */
  lemma TwoLevelExample<T>(ident: nat -> T)
    ensures
      var c := Synset(300, []);
      var root := Synset(1, [Synset(100, [c]), Synset(200, [])]);
      Walk(root, 2, ident) == [ident(100), ident(300), ident(200)]
  {
    var c := Synset(300, []);
    var a := Synset(100, [c]);
    var b := Synset(200, []);
    var root := Synset(1, [a, b]);
    WalkIsPreOrder(root, 2, ident);
    assert root.hyponyms[..2] == [a, b];
    assert PreOrder(c) == [300] + PreOrderAll([]);
    assert PreOrderAll([c]) == PreOrder(c) + PreOrderAll([]);
    assert PreOrder(a) == [100, 300];
    assert PreOrderAll([b]) == PreOrder(b) + PreOrderAll([]);
    assert [a, b][1..] == [b];
    assert PreOrderAll([a, b]) == [100, 300, 200];
  }

  // Concrete identifiers, each built up from its digits and its padding.

  lemma Pad100()
    ensures FormatZeroPadded(100, 8) == "00000100"
  {
    assert Digits(10) == "10";
    assert Digits(100) == "100";
    FiveZeros();
  }

  lemma Pad200()
    ensures FormatZeroPadded(200, 8) == "00000200"
  {
    assert Digits(20) == "20";
    assert Digits(200) == "200";
    FiveZeros();
  }

  lemma Pad300()
    ensures FormatZeroPadded(300, 8) == "00000300"
  {
    assert Digits(30) == "30";
    assert Digits(300) == "300";
    FiveZeros();
  }

  lemma PadBear()
    ensures FormatZeroPadded(2132136, 8) == "02132136"
  {
    BearDigits();
    assert Zeros(1) == "0";
  }

  lemma BearDigits()
    ensures Digits(2132136) == "2132136"
  {
    assert Digits(21) == "21";
    assert Digits(2132) == "2132";
    assert Digits(213213) == "213213";
  }

  lemma FiveZeros()
    ensures Zeros(5) == "00000"
  {
    assert Zeros(2) == "00";
    assert Zeros(4) == "0000";
  }

  /** The bear synset's offset 2132136 has the wnid `n02132136`. */
  lemma WnidExample()
    ensures Wnid(2132136) == "n02132136"
  {
    PadBear();
    Spelled(2132136, "02132136");
  }

  /** A wnid is `n` followed by the zero-padded offset. */
  lemma Spelled(offset: nat, d: string)
    requires FormatZeroPadded(offset, 8) == d
    ensures Wnid(offset) == ['n'] + d
  {
  }

  /** The wnids of the offsets in `TwoLevelExample`. */
  lemma SmallWnids()
    ensures Wnid(100) == "n00000100"
    ensures Wnid(200) == "n00000200"
    ensures Wnid(300) == "n00000300"
  {
    Pad100();
    Spelled(100, "00000100");
    Pad200();
    Spelled(200, "00000200");
    Pad300();
    Spelled(300, "00000300");
  }

  /** The two-level hierarchy of `TwoLevelExample` yields `n00000100`,
      `n00000300`, `n00000200`, in that order. */
  lemma HyponymsExample()
    ensures AllHyponyms(Synset(1, [Synset(100, [Synset(300, [])]), Synset(200, [])]))
      == ["n00000100", "n00000300", "n00000200"]
  {
    TwoLevelExample(Wnid);
    SmallWnids();
  }
}
