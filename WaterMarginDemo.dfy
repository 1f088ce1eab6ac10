/**
 * The demo's own Markdown chunker: the text is split into blank-line
 * separated paragraphs, trimmed, emptied ones dropped, and consecutive
 * paragraphs packed, joined by a blank line, into chunks of about
 * `CHUNK_SIZE` characters.
 */
module WaterMarginDemo {
  import opened Common
  import opened Strings
  import opened GraphVisualization

  const ChunkSize := 1000
  const Sep := "\n\n"

  /** The paragraphs: `split(/\n\s*\n/)`, each trimmed, the empty ones dropped. */
  function DemoParagraphs(content: string): seq<string> {
    Filter(Trimmed(Paragraphs(content)), (p: string) => p != [])
  }

  /** Paragraphs as the packing loop receives them: non-empty and trimmed. */
  predicate Clean(ps: seq<string>) {
    forall p :: p in ps ==> p != [] && Trim(p) == p
  }

  /** Trimming every piece and dropping the empty ones leaves clean paragraphs. */
  lemma TrimmedFilterClean(raw: seq<string>)
    ensures Clean(Filter(Trimmed(raw), (p: string) => p != []))
  {
    var t := Trimmed(raw);
    var r := Filter(t, (p: string) => p != []);
    forall p | p in r
      ensures p != [] && Trim(p) == p
    {
      assert p in t;
      var k :| 0 <= k < |t| && t[k] == p;
      TrimTwice(raw[k]);
    }
  }

  lemma DemoParagraphsClean(content: string)
    ensures Clean(DemoParagraphs(content))
  {
    TrimmedFilterClean(Paragraphs(content));
  }

  /** The packing loop's state: the chunks pushed and `currentChunk`. */
  datatype Bundle = Bundle(chunks: seq<string>, current: string)

  /**
   * One step: when the paragraph would take the chunk past `size` (the
   * separator not counted) and the chunk is not empty, the chunk is pushed
   * and restarted with the paragraph; otherwise the paragraph is appended,
   * after a blank line unless the chunk is empty.
   */
  function Add(b: Bundle, p: string, size: int): Bundle {
    if |b.current| + |p| > size && |b.current| > 0 then Bundle(b.chunks + [Trim(b.current)], p)
    else Bundle(b.chunks, b.current + (if |b.current| > 0 then Sep else "") + p)
  }

  function AddAll(ps: seq<string>, size: int): Bundle
    decreases |ps|
  {
    if ps == [] then Bundle([], "") else Add(AddAll(ps[..|ps| - 1], size), ps[|ps| - 1], size)
  }

  /** The chunks after the loop: a non-empty last chunk is pushed too. */
  function PackParagraphs(ps: seq<string>, size: int): seq<string> {
    var b := AddAll(ps, size);
    if |b.current| > 0 then b.chunks + [Trim(b.current)] else b.chunks
  }

  /** Two trimmed non-empty strings joined by a blank line are trimmed. */
  lemma JoinedTrimmed(a: string, p: string)
    requires a != [] && Trim(a) == a && p != [] && Trim(p) == p
    ensures Trim(a + Sep + p) == a + Sep + p
  {
    var j := a + Sep + p;
    assert j[0] == a[0] && j[|j| - 1] == p[|p| - 1];
    TrimOfTrimmed(j);
  }

  /** The loop's state outright: the current chunk is trimmed, and empty only before the first paragraph. */
  lemma {:induction false} AddAllCurrent(ps: seq<string>, size: int)
    requires Clean(ps)
    ensures ps == [] ==> AddAll(ps, size) == Bundle([], "")
    ensures ps != [] ==> AddAll(ps, size).current != [] && Trim(AddAll(ps, size).current) == AddAll(ps, size).current
    ensures forall c :: c in AddAll(ps, size).chunks ==> c != [] && Trim(c) == c
    decreases |ps|
  {
    if ps != [] {
      var init, p := ps[..|ps| - 1], ps[|ps| - 1];
      assert p in ps;
      assert Clean(init) by {
        forall q | q in init
          ensures q in ps
        {
        }
      }
      AddAllCurrent(init, size);
      AddStep(AddAll(init, size), p, size);
    }
  }

  /** One step keeps the chunks and the current chunk trimmed and non-empty. */
  lemma AddStep(b: Bundle, p: string, size: int)
    requires p != [] && Trim(p) == p
    requires Trim(b.current) == b.current
    requires forall c :: c in b.chunks ==> c != [] && Trim(c) == c
    ensures Add(b, p, size).current != [] && Trim(Add(b, p, size).current) == Add(b, p, size).current
    ensures forall c :: c in Add(b, p, size).chunks ==> c != [] && Trim(c) == c
  {
    if |b.current| + |p| > size && |b.current| > 0 {
      assert Add(b, p, size) == Bundle(b.chunks + [b.current], p);
    } else if |b.current| > 0 {
      JoinedTrimmed(b.current, p);
    } else {
      assert Add(b, p, size) == Bundle(b.chunks, p);
    }
  }

  /** A step extends the joined text by a blank line and the paragraph. */
  lemma AddJoin(b: Bundle, p: string, size: int)
    requires b.current != [] && Trim(b.current) == b.current
    ensures Join(Add(b, p, size).chunks + [Add(b, p, size).current], Sep) == Join(b.chunks + [b.current], Sep) + Sep + p
  {
    var cur := b.current;
    if |cur| + |p| > size {
      assert b.chunks + [Trim(cur)] + [p] == (b.chunks + [cur]) + [p];
      JoinSnoc(b.chunks + [cur], p, Sep);
    } else if b.chunks == [] {
      assert [cur] + [] == [cur];
    } else {
      JoinSnoc(b.chunks, cur + Sep + p, Sep);
      JoinSnoc(b.chunks, cur, Sep);
      var j := Join(b.chunks, Sep);
      ConcatAssoc(j + Sep, cur + Sep, p);
      ConcatAssoc(j + Sep, cur, Sep);
      ConcatAssoc(j, Sep, cur);
    }
  }

  lemma {:induction false} AddAllJoin(ps: seq<string>, size: int)
    requires Clean(ps) && ps != []
    ensures Join(AddAll(ps, size).chunks + [AddAll(ps, size).current], Sep) == Join(ps, Sep)
    decreases |ps|
  {
    var init, p := ps[..|ps| - 1], ps[|ps| - 1];
    assert ps == init + [p];
    assert Clean(init) by {
      forall q | q in init
        ensures q in ps
      {
      }
    }
    if init == [] {
      assert ps == [p];
    } else {
      AddAllJoin(init, size);
      AddAllCurrent(init, size);
      AddJoin(AddAll(init, size), p, size);
      JoinSnoc(init, p, Sep);
    }
  }

  lemma {:induction false} AddAllCount(ps: seq<string>, size: int)
    requires Clean(ps)
    ensures |AddAll(ps, size).chunks| + (if AddAll(ps, size).current == [] then 0 else 1) <= |ps|
    decreases |ps|
  {
    if ps != [] {
      var init := ps[..|ps| - 1];
      assert Clean(init) by {
        forall q | q in init
          ensures q in ps
        {
        }
      }
      AddAllCount(init, size);
    }
  }

  /** A step keeps every chunk either one of the paragraphs in `all` or within `size + 2`. */
  lemma AddSize(b: Bundle, p: string, size: int, all: seq<string>)
    requires p in all && Trim(b.current) == b.current
    requires forall c :: c in b.chunks ==> c in all || |c| <= size + 2
    requires b.current == [] || b.current in all || |b.current| <= size + 2
    ensures forall c :: c in Add(b, p, size).chunks ==> c in all || |c| <= size + 2
    ensures Add(b, p, size).current in all || |Add(b, p, size).current| <= size + 2
  {
    if |b.current| + |p| > size && |b.current| > 0 {
      assert Add(b, p, size) == Bundle(b.chunks + [b.current], p);
    } else if |b.current| > 0 {
      assert |Add(b, p, size).current| == |b.current| + 2 + |p|;
    } else {
      assert Add(b, p, size) == Bundle(b.chunks, p);
    }
  }

  /** A chunk of several paragraphs is at most `size + 2` long: the size test leaves the blank line out. */
  lemma {:induction false} AddAllSize(ps: seq<string>, size: int, all: seq<string>)
    requires Clean(ps) && forall q :: q in ps ==> q in all
    ensures forall c :: c in AddAll(ps, size).chunks ==> c in all || |c| <= size + 2
    ensures AddAll(ps, size).current == [] || AddAll(ps, size).current in all || |AddAll(ps, size).current| <= size + 2
    decreases |ps|
  {
    if ps != [] {
      var init, p := ps[..|ps| - 1], ps[|ps| - 1];
      assert p in ps;
      assert forall q :: q in init ==> q in ps;
      AddAllSize(init, size, all);
      AddAllCurrent(init, size);
      AddSize(AddAll(init, size), p, size, all);
    }
  }

  /** Every chunk is non-empty and trimmed, there is one when there are paragraphs, and never more chunks than paragraphs. */
  lemma PackParagraphsCount(ps: seq<string>, size: int)
    requires Clean(ps)
    ensures forall c :: c in PackParagraphs(ps, size) ==> c != [] && Trim(c) == c
    ensures |PackParagraphs(ps, size)| <= |ps|
    ensures PackParagraphs(ps, size) == [] <==> ps == []
  {
    var b := AddAll(ps, size);
    AddAllCurrent(ps, size);
    AddAllCount(ps, size);
    if ps == [] {
      assert PackParagraphs(ps, size) == [];
    } else {
      assert PackParagraphs(ps, size) == b.chunks + [b.current];
    }
  }

  /** Joining the chunks with a blank line gives the paragraphs joined with a blank line. */
  lemma PackParagraphsJoin(ps: seq<string>, size: int)
    requires Clean(ps)
    ensures Join(PackParagraphs(ps, size), Sep) == Join(ps, Sep)
  {
    AddAllCurrent(ps, size);
    if ps != [] {
      AddAllJoin(ps, size);
    }
  }

  /** A chunk longer than `size + 2` is a single paragraph. */
  lemma PackParagraphsSize(ps: seq<string>, size: int)
    requires Clean(ps)
    ensures forall c :: c in PackParagraphs(ps, size) ==> c in ps || |c| <= size + 2
  {
    AddAllCurrent(ps, size);
    AddAllSize(ps, size, ps);
  }

  /** The packing loop of the demo's `readMarkdownAndGetChunks`. */
  method PackLoop(paragraphs: seq<string>) returns (chunks: seq<string>)
    ensures chunks == PackParagraphs(paragraphs, ChunkSize)
  {
    chunks := [];
    var currentChunk := "";
    for i := 0 to |paragraphs|
      invariant Bundle(chunks, currentChunk) == AddAll(paragraphs[..i], ChunkSize)
    {
      assert paragraphs[..i + 1][..i] == paragraphs[..i];
      var paragraph := paragraphs[i];
      if |currentChunk| + |paragraph| > ChunkSize && |currentChunk| > 0 {
        chunks := chunks + [Trim(currentChunk)];
        currentChunk := paragraph;
      } else {
        currentChunk := currentChunk + (if |currentChunk| > 0 then Sep else "") + paragraph;
      }
    }
    assert paragraphs[..|paragraphs|] == paragraphs;
    if |currentChunk| > 0 {
      chunks := chunks + [Trim(currentChunk)];
    }
  }

  /** The demo's `readMarkdownAndGetChunks`, on the file's content. */
  method DemoChunks(content: string) returns (chunks: seq<string>)
    ensures chunks == PackParagraphs(DemoParagraphs(content), ChunkSize)
  {
    var paragraphs := DemoParagraphs(content);
    chunks := PackLoop(paragraphs);
  }
}
