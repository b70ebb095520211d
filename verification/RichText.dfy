/**
 atlib/atpost.go: the post builder and its rich-text facets. A builder is copied by value, but
 its facets live in a growable buffer that copies share, as the language's slices do.
 */
module RichText {
  import opened Text
  import opened Utf8

  const FACET_LINK := 1
  const FACET_MENTION := 2
  const FACET_TAG := 3

  datatype Facet = Facet(ftype: int, value: Bytes, tFacet: Bytes)

  datatype Feature =
    | Link(typeId: string, uri: Bytes)
    | Mention(typeId: string, did: Bytes)
    | Tag(typeId: string, tag: Bytes)
    | NoFeature

  datatype RichFacet = RichFacet(features: seq<Feature>, byteStart: nat, byteEnd: nat)

  /** facets is None for a post whose facets were never set. */
  datatype Post = Post(text: Bytes, typeId: string, createdAt: string, facets: Option<seq<RichFacet>>)

  /** The first len cells of the buffer are the builder's facets; the rest is spare capacity. */
  datatype PostBuilder = PostBuilder(text: Bytes, buffer: array<Facet>, len: nat) {
    ghost predicate Valid() {
      len <= buffer.Length
    }

    ghost function Facets(): (r: seq<Facet>)
      requires Valid()
      reads buffer
      ensures |r| == len
    {
      buffer[..len]
    }
  }

  function FacetTypeName(ftype: int): (r: string)
    ensures r == "Unknown" <==> !(1 <= ftype <= 3)
  {
    if ftype == FACET_LINK then "app.bsky.richtext.facet#link"
    else if ftype == FACET_MENTION then "app.bsky.richtext.facet#mention"
    else if ftype == FACET_TAG then "app.bsky.richtext.facet#tag"
    else "Unknown"
  }

  function FeatureOf(f: Facet): Feature {
    if f.ftype == FACET_LINK then Link(FacetTypeName(f.ftype), f.value)
    else if f.ftype == FACET_MENTION then Mention(FacetTypeName(f.ftype), f.value)
    else if f.ftype == FACET_TAG then Tag(FacetTypeName(f.ftype), f.value)
    else NoFeature
  }

  // ---------- building up ----------

  method NewPostBuilder(text: Bytes) returns (pb: PostBuilder)
    ensures pb.Valid() && fresh(pb.buffer)
    ensures pb.text == text && pb.Facets() == [] && pb.buffer.Length == 0
  {
    var buffer := new Facet[0];
    pb := PostBuilder(text, buffer, 0);
  }

  /**
   Appends to the slice: in place when there is spare capacity, else in a new buffer of some
   larger capacity. The facets the old header shows stay what they were.
   */
  method WithFacet(pb: PostBuilder, ftype: int, value: Bytes, text: Bytes, grown: nat) returns (r: PostBuilder)
    requires pb.Valid() && grown > pb.len
    modifies pb.buffer
    ensures r.Valid() && r.text == pb.text
    ensures r.Facets() == old(pb.Facets()) + [Facet(ftype, value, text)]
    ensures pb.Facets() == old(pb.Facets())
    ensures if pb.len < pb.buffer.Length then r.buffer == pb.buffer else fresh(r.buffer) && r.buffer.Length == grown
  {
    var f := Facet(ftype, value, text);
    if pb.len < pb.buffer.Length {
      pb.buffer[pb.len] := f;
      r := pb.(len := pb.len + 1);
    } else {
      var buffer := new Facet[grown];
      forall i | 0 <= i < pb.len {
        buffer[i] := pb.buffer[i];
      }
      buffer[pb.len] := f;
      r := pb.(buffer := buffer, len := pb.len + 1);
      assert buffer[..pb.len] == pb.buffer[..pb.len];
    }
  }

  /** A linear chain of calls, each on the builder the last one returned, collects the facets in call order. */
  method WithFacets(text: Bytes, calls: seq<Facet>, grown: seq<nat>) returns (pb: PostBuilder)
    requires |grown| == |calls| && forall i :: 0 <= i < |grown| ==> grown[i] > i
    ensures pb.Valid() && pb.text == text && pb.Facets() == calls
  {
    pb := NewPostBuilder(text);
    for i := 0 to |calls|
      invariant pb.Valid() && fresh(pb.buffer)
      invariant pb.text == text && pb.Facets() == calls[..i]
    {
      pb := WithFacet(pb, calls[i].ftype, calls[i].value, calls[i].tFacet, grown[i]);
    }
  }

  /**
   Two calls on the same builder. The second result is always right; the first keeps its own
   last facet exactly when the buffer was full, or both calls append the same facet.
   */
  method ForkedWithFacet(pb: PostBuilder, f: Facet, g: Facet, grown: nat) returns (a: PostBuilder, b: PostBuilder)
    requires pb.Valid() && grown > pb.len
    modifies pb.buffer
    ensures a.Valid() && b.Valid()
    ensures b.Facets() == old(pb.Facets()) + [g]
    ensures a.Facets() == old(pb.Facets()) + [f] <==> pb.len == pb.buffer.Length || f == g
    ensures pb.len < pb.buffer.Length ==> a.Facets() == old(pb.Facets()) + [g]
  {
    a := WithFacet(pb, f.ftype, f.value, f.tFacet, grown);
    ghost var shared := pb.len < pb.buffer.Length;
    b := WithFacet(pb, g.ftype, g.value, g.tFacet, grown);
    if shared {
      assert a.Facets() == b.Facets();
      assert (old(pb.Facets()) + [g])[pb.len] == g && (old(pb.Facets()) + [f])[pb.len] == f;
    }
  }

  /**
   It happens: a first facet whose buffer grows to two cells leaves one to spare, and of two calls
   on that builder the first loses its own facet and shows the other's instead.
   */
  method ForkLosesFacet(text: Bytes, e: Facet, f: Facet, g: Facet) returns (a: PostBuilder, b: PostBuilder)
    requires f != g
    ensures a.Valid() && b.Valid()
    ensures a.Facets() == [e, g] == b.Facets() && a.Facets() != [e, f]
  {
    var pb := NewPostBuilder(text);
    pb := WithFacet(pb, e.ftype, e.value, e.tFacet, 2);
    assert pb.Facets() == [e];
    a, b := ForkedWithFacet(pb, f, g, 2);
    assert [e] + [g] == [e, g];
    assert [e, g][1] != [e, f][1];
  }

  // ---------- building ----------

  function FindSubstring(s: Bytes, sub: Bytes): (r: Option<(nat, nat)>)
    ensures r.None? <==> !Occurs(s, sub)
    ensures r.Some? ==> OccursAt(s, sub, r.value.0) && r.value.1 == r.value.0 + |sub|
    ensures r.Some? ==> forall k :: 0 <= k < r.value.0 ==> !OccursAt(s, sub, k)
  {
    var index := Index(s, sub);
    if index == -1 then None else Some((index, index + |sub|))
  }

  /** The facet emitted for f: the one feature of its type, and the byte range of the leftmost occurrence of its text. */
  ghost predicate Emitted(text: Bytes, f: Facet, rf: RichFacet) {
    && (f.ftype == 1 ==> rf.features == [Link("app.bsky.richtext.facet#link", f.value)])
    && (f.ftype == 2 ==> rf.features == [Mention("app.bsky.richtext.facet#mention", f.value)])
    && (f.ftype == 3 ==> rf.features == [Tag("app.bsky.richtext.facet#tag", f.value)])
    && (!(1 <= f.ftype <= 3) ==> rf.features == [NoFeature])
    && OccursAt(text, f.tFacet, rf.byteStart)
    && rf.byteEnd == rf.byteStart + |f.tFacet|
    && forall k :: 0 <= k < rf.byteStart ==> !OccursAt(text, f.tFacet, k)
  }

  ghost predicate FirstMissing(text: Bytes, facets: seq<Facet>, i: nat) {
    && i < |facets|
    && !Occurs(text, facets[i].tFacet)
    && forall j :: 0 <= j < i ==> Occurs(text, facets[j].tFacet)
  }

  /** Build; the error carries the facet text that could not be found. */
  method Build(pb: PostBuilder, now: string) returns (post: Post, err: Option<Bytes>)
    requires pb.Valid()
    ensures post.text == pb.text && post.typeId == "app.bsky.feed.post" && post.createdAt == now
    ensures err.None? <==> forall f :: f in pb.Facets() ==> Occurs(pb.text, f.tFacet)
    ensures err.None? ==>
              && post.facets.Some?
              && |post.facets.value| == |pb.Facets()|
              && forall i :: 0 <= i < |pb.Facets()| ==> Emitted(pb.text, pb.Facets()[i], post.facets.value[i])
    ensures err.Some? ==>
              && post.facets.None?
              && exists i: nat :: FirstMissing(pb.text, pb.Facets(), i) && err.value == pb.Facets()[i].tFacet
  {
    post := Post(pb.text, "app.bsky.feed.post", now, None);
    var facets: seq<RichFacet> := [];
    for i := 0 to pb.len
      invariant |facets| == i
      invariant forall j :: 0 <= j < i ==> Emitted(pb.text, pb.Facets()[j], facets[j])
    {
      var f := pb.buffer[i];
      var range := FindSubstring(post.text, f.tFacet);
      if range.None? {
        assert FirstMissing(pb.text, pb.Facets(), i);
        assert f == pb.Facets()[i];
        return post, Some(f.tFacet);
      }
      facets := facets + [RichFacet([FeatureOf(f)], range.value.0, range.value.1)];
    }
    post := post.(facets := Some(facets));
    err := None;
  }

  /** The emitted byte range starts and ends on code-point boundaries and decodes to the facet's code points. */
  lemma EmittedRangeDecodes(text: Bytes, f: Facet, rf: RichFacet)
    requires WellFormed(text) && WellFormed(f.tFacet) && Emitted(text, f, rf)
    ensures rf.byteEnd <= |text| && Boundary(text, rf.byteStart) && Boundary(text, rf.byteEnd)
    ensures WellFormed(text[rf.byteStart..rf.byteEnd]) && WellFormed(text[rf.byteEnd..])
    ensures Decode(text[rf.byteStart..rf.byteEnd]) == Decode(f.tFacet)
    ensures Decode(text) == Decode(text[..rf.byteStart]) + (Decode(f.tFacet) + Decode(text[rf.byteEnd..]))
  {
    if f.tFacet == [] {
      EmptyFacetAtStart(text, f, rf);
    }
    hide WellFormed, Decode, OccursAt;
    OccurrenceDecodes(text, f.tFacet, rf.byteStart, rf.byteEnd);
  }

  lemma EmptyFacetAtStart(text: Bytes, f: Facet, rf: RichFacet)
    requires Emitted(text, f, rf) && f.tFacet == []
    ensures rf.byteStart == 0 && Boundary(text, 0)
  {
    assert OccursAt(text, f.tFacet, 0);
  }

  /** With a facet text that is not well-formed, the range is cut inside a code point at one end or the other. */
  lemma EmittedRangeWellFormedIff(text: Bytes, f: Facet, rf: RichFacet)
    requires WellFormed(text) && f.tFacet != [] && Emitted(text, f, rf)
    ensures WellFormed(f.tFacet) <==> Boundary(text, rf.byteStart) && Boundary(text, rf.byteEnd)
  {
    OccurrenceOnBoundaries(text, f.tFacet, rf.byteStart);
  }
}
