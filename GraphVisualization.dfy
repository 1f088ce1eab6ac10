/**
 * The text chunkers and the graph formatter of the visualisation helpers:
 * `smartChunkText` packs sentences into chunks of bounded size,
 * `readMarkdownAndGetChunks` splits a Markdown text into paragraphs, cleans
 * them and keeps or re-chunks them by length, and
 * `formatGraphForVisualization` turns a property graph into vis-network
 * node and edge records.
 */
module GraphVisualization {
  import opened Common
  import opened Strings
  import opened PropertyGraphs

  // ---------------------------------------------------------------------------
  // Sentences

  /** The marks a sentence ends with: 。 ！ ？ ； */
  predicate IsMark(c: char) {
    c == '\U{3002}' || c == '\U{FF01}' || c == '\U{FF1F}' || c == '\U{FF1B}'
  }

  predicate NoMark(s: string) {
    forall i :: 0 <= i < |s| ==> !IsMark(s[i])
  }

  /** A sentence with its mark: it ends with a mark and holds no other. */
  predicate Ended(p: string) {
    |p| > 0 && IsMark(p[|p| - 1]) && NoMark(p[..|p| - 1])
  }

  /**
   * `text.split(/([。！？；])/)` read two items at a time, as the chunking
   * loop does: each sentence joined to the mark that follows it, and last the
   * text after the final mark (empty when the text ends with a mark).
   */
  function Sentences(s: string): (r: seq<string>)
    ensures 1 <= |r| <= |s| + 1
    decreases |s|
  {
    if s == [] then [""]
    else if IsMark(s[0]) then [[s[0]]] + Sentences(s[1..])
    else
      var rest := Sentences(s[1..]);
      [[s[0]] + rest[0]] + rest[1..]
  }

  /** The sentences put back together are the text. */
  lemma {:induction false} SentencesFlatten(s: string)
    ensures Flatten(Sentences(s)) == s
    decreases |s|
  {
    if s == [] {
      assert Sentences(s) == [] + [""];
      FlattenSnoc([], "");
    } else {
      var rest := Sentences(s[1..]);
      SentencesFlatten(s[1..]);
      assert s == [s[0]] + s[1..];
      if IsMark(s[0]) {
        assert Sentences(s) == [[s[0]]] + rest;
        FlattenCons([s[0]], rest);
      } else {
        var head, tail := rest[0], rest[1..];
        assert Sentences(s) == [[s[0]] + head] + tail;
        assert rest == [head] + tail;
        FlattenCons(head, tail);
        FlattenCons([s[0]] + head, tail);
        ConcatAssoc([s[0]], head, Flatten(tail));
      }
    }
  }

  /** Every sentence but the last ends with its one mark; the last holds no mark. */
  lemma {:induction false} SentencesShape(s: string)
    ensures forall k :: 0 <= k < |Sentences(s)| - 1 ==> Ended(Sentences(s)[k])
    ensures NoMark(Sentences(s)[|Sentences(s)| - 1])
    decreases |s|
  {
    if s != [] {
      var rest := Sentences(s[1..]);
      var r := Sentences(s);
      SentencesShape(s[1..]);
      if IsMark(s[0]) {
        assert r == [[s[0]]] + rest;
        assert Ended([s[0]]);
        assert forall k :: 1 <= k < |r| ==> r[k] == rest[k - 1];
      } else {
        var head := [s[0]] + rest[0];
        assert r == [head] + rest[1..];
        if |rest| > 1 {
          assert Ended(rest[0]);
          assert head[..|head| - 1] == [s[0]] + rest[0][..|rest[0]| - 1];
          assert Ended(head);
        } else {
          assert NoMark(head);
        }
        assert forall k :: 1 <= k < |r| ==> r[k] == rest[k];
      }
    }
  }

  // ---------------------------------------------------------------------------
  // Blank strings

  /** A string is blank exactly when every character is white space. */
  lemma BlankIff(a: string)
    ensures IsBlank(a) <==> forall i :: 0 <= i < |a| ==> IsSpace(a[i])
  {
    var t := TrimStart(a);
    assert IsBlank(a) ==> TrimEnd(t) == [] && t == [];
    if forall i :: 0 <= i < |a| ==> IsSpace(a[i]) {
      assert t == [];
    }
  }

  lemma {:induction false} TrimStartAfterSpaces(a: string, b: string)
    requires forall i :: 0 <= i < |a| ==> IsSpace(a[i])
    ensures TrimStart(a + b) == TrimStart(b)
    decreases |a|
  {
    if a != [] {
      assert (a + b)[0] == a[0];
      assert (a + b)[1..] == a[1..] + b;
      assert TrimStart(a + b) == TrimStart(a[1..] + b);
      TrimStartAfterSpaces(a[1..], b);
    } else {
      assert a + b == b;
    }
  }

  /** Blank text in front changes nothing after trimming. */
  lemma TrimAfterBlank(a: string, b: string)
    requires IsBlank(a)
    ensures Trim(a + b) == Trim(b)
  {
    BlankIff(a);
    TrimStartAfterSpaces(a, b);
  }

  /** Appending keeps a non-blank string non-blank. */
  lemma NonBlankAppend(a: string, b: string)
    requires !IsBlank(a)
    ensures !IsBlank(a + b)
  {
    BlankIff(a);
    BlankIff(a + b);
    var i :| 0 <= i < |a| && !IsSpace(a[i]);
    assert (a + b)[i] == a[i];
  }

  /** A trimmed string is its own trim. */
  lemma TrimTwice(s: string)
    ensures Trim(Trim(s)) == Trim(s)
  {
    TrimOfTrimmed(Trim(s));
  }

  // ---------------------------------------------------------------------------
  // smartChunkText

  /** The chunking loop's state: the chunks pushed so far and `currentChunk`. */
  datatype Packer = Packer(chunks: seq<string>, current: string)

  /**
   * One loop step: the current chunk is pushed, trimmed, and restarted with
   * the piece exactly when adding the piece would make it longer than `max`
   * and it is not blank; otherwise the piece is appended.
   */
  function Push(p: Packer, piece: string, max: int): Packer {
    if |p.current + piece| > max && !IsBlank(p.current) then Packer(p.chunks + [Trim(p.current)], piece)
    else Packer(p.chunks, p.current + piece)
  }

  /** The loop's state after the given pieces. */
  function PackAll(pieces: seq<string>, max: int): Packer
    decreases |pieces|
  {
    if pieces == [] then Packer([], "") else Push(PackAll(pieces[..|pieces| - 1], max), pieces[|pieces| - 1], max)
  }

  /** After the loop, a non-blank current chunk is pushed, trimmed. */
  function Finish(p: Packer): seq<string> {
    if IsBlank(p.current) then p.chunks else p.chunks + [Trim(p.current)]
  }

  /** `smartChunkText(text, max)`. */
  function SmartChunks(text: string, max: int): seq<string> {
    Finish(PackAll(Sentences(text), max))
  }

  /** The pieces, each trimmed. */
  function Trimmed(pieces: seq<string>): (r: seq<string>)
    ensures |r| == |pieces| && forall k :: 0 <= k < |r| ==> r[k] == Trim(pieces[k])
  {
    seq(|pieces|, k requires 0 <= k < |pieces| => Trim(pieces[k]))
  }

  lemma {:induction false} PackTrimmed(pieces: seq<string>, max: int)
    ensures forall c :: c in PackAll(pieces, max).chunks ==> c != [] && Trim(c) == c
    decreases |pieces|
  {
    if pieces != [] {
      var init := pieces[..|pieces| - 1];
      PackTrimmed(init, max);
      PushTrimmed(PackAll(init, max), pieces[|pieces| - 1], max);
    }
  }

  /** A step pushes only a trimmed, non-blank chunk. */
  lemma PushTrimmed(p: Packer, x: string, max: int)
    requires forall c :: c in p.chunks ==> c != [] && Trim(c) == c
    ensures forall c :: c in Push(p, x, max).chunks ==> c != [] && Trim(c) == c
  {
    if |p.current + x| > max && !IsBlank(p.current) {
      TrimTwice(p.current);
      assert Push(p, x, max).chunks == p.chunks + [Trim(p.current)];
    }
  }

  /** One step adds the piece's characters, white space aside, at the end. */
  lemma PushSqueeze(p: Packer, x: string, max: int)
    ensures Squeeze(Flatten(Push(p, x, max).chunks) + Push(p, x, max).current)
         == Squeeze(Flatten(p.chunks) + p.current) + Squeeze(x)
  {
    var f := Flatten(p.chunks);
    SqueezeAppend(f, p.current);
    if |p.current + x| > max && !IsBlank(p.current) {
      var t := Trim(p.current);
      FlattenSnoc(p.chunks, t);
      SqueezeAppend(f, t);
      SqueezeAppend(f + t, x);
    } else {
      SqueezeAppend(p.current, x);
      SqueezeAppend(f, p.current + x);
    }
  }

  lemma {:induction false} PackSqueeze(pieces: seq<string>, max: int)
    ensures Squeeze(Flatten(PackAll(pieces, max).chunks) + PackAll(pieces, max).current) == Squeeze(Flatten(pieces))
    decreases |pieces|
  {
    if pieces != [] {
      var init, x := pieces[..|pieces| - 1], pieces[|pieces| - 1];
      PackSqueeze(init, max);
      PushSqueeze(PackAll(init, max), x, max);
      assert pieces == init + [x];
      FlattenSnoc(init, x);
      SqueezeAppend(Flatten(init), x);
    }
  }

  /** A step keeps every over-long chunk the trim of the piece that started it. */
  lemma PushLong(p: Packer, x: string, max: int, ts: seq<string>)
    requires forall c :: c in p.chunks && |c| > max ==> c in ts
    requires |p.current| > max && !IsBlank(p.current) ==> Trim(p.current) in ts
    requires Trim(x) in ts
    ensures forall c :: c in Push(p, x, max).chunks && |c| > max ==> c in ts
    ensures |Push(p, x, max).current| > max && !IsBlank(Push(p, x, max).current)
            ==> Trim(Push(p, x, max).current) in ts
  {
    if |p.current + x| > max && !IsBlank(p.current) {
      assert |Trim(p.current)| <= |p.current|;
    } else if |p.current + x| > max {
      TrimAfterBlank(p.current, x);
    }
  }

  lemma PackLong(pieces: seq<string>, max: int)
    ensures forall c :: c in PackAll(pieces, max).chunks && |c| > max ==> c in Trimmed(pieces)
    ensures |PackAll(pieces, max).current| > max && !IsBlank(PackAll(pieces, max).current)
            ==> Trim(PackAll(pieces, max).current) in Trimmed(pieces)
  {
    var ts := Trimmed(pieces);
    forall k | 0 <= k < |pieces|
      ensures Trim(pieces[k]) in ts
    {
      assert ts[k] == Trim(pieces[k]);
    }
    PackLongIn(pieces, max, ts);
  }

  /** Every over-long chunk is among `ts` when the trim of every piece is. */
  lemma {:induction false} PackLongIn(pieces: seq<string>, max: int, ts: seq<string>)
    requires forall k :: 0 <= k < |pieces| ==> Trim(pieces[k]) in ts
    ensures forall c :: c in PackAll(pieces, max).chunks && |c| > max ==> c in ts
    ensures |PackAll(pieces, max).current| > max && !IsBlank(PackAll(pieces, max).current)
            ==> Trim(PackAll(pieces, max).current) in ts
    decreases |pieces|
  {
    if pieces != [] {
      var init, x := pieces[..|pieces| - 1], pieces[|pieces| - 1];
      forall k | 0 <= k < |init|
        ensures Trim(init[k]) in ts
      {
        assert init[k] == pieces[k];
      }
      PackLongIn(init, max, ts);
      PushLong(PackAll(init, max), x, max, ts);
    }
  }

  lemma {:induction false} PackShort(pieces: seq<string>, max: int)
    requires |Flatten(pieces)| <= max
    ensures PackAll(pieces, max) == Packer([], Flatten(pieces))
    decreases |pieces|
  {
    if pieces != [] {
      var init, x := pieces[..|pieces| - 1], pieces[|pieces| - 1];
      assert pieces == init + [x];
      FlattenSnoc(init, x);
      PackShort(init, max);
    }
  }

  lemma {:induction false} PackCount(pieces: seq<string>, max: int)
    ensures |PackAll(pieces, max).chunks| + (if IsBlank(PackAll(pieces, max).current) then 0 else 1) <= |pieces|
    decreases |pieces|
  {
    if pieces != [] {
      var init, x := pieces[..|pieces| - 1], pieces[|pieces| - 1];
      var p := PackAll(init, max);
      PackCount(init, max);
      if !IsBlank(p.current) {
        NonBlankAppend(p.current, x);
      }
    }
  }

  /** Every chunk is trimmed and non-empty. */
  lemma SmartChunksTrimmed(text: string, max: int)
    ensures forall c :: c in SmartChunks(text, max) ==> c != [] && Trim(c) == c
  {
    var p := PackAll(Sentences(text), max);
    PackTrimmed(Sentences(text), max);
    TrimTwice(p.current);
  }

  /** Only white space is lost: the chunks hold the text's other characters, in order. */
  lemma SmartChunksSqueeze(text: string, max: int)
    ensures Squeeze(Flatten(SmartChunks(text, max))) == Squeeze(text)
  {
    var p := PackAll(Sentences(text), max);
    PackSqueeze(Sentences(text), max);
    SentencesFlatten(text);
    SqueezeAppend(Flatten(p.chunks), p.current);
    if !IsBlank(p.current) {
      FlattenSnoc(p.chunks, Trim(p.current));
      SqueezeAppend(Flatten(p.chunks), Trim(p.current));
    }
  }

  /** A chunk longer than the limit is one sentence, trimmed. */
  lemma SmartChunksLong(text: string, max: int)
    ensures forall c :: c in SmartChunks(text, max) && |c| > max ==> c in Trimmed(Sentences(text))
  {
    var p := PackAll(Sentences(text), max);
    PackLong(Sentences(text), max);
    assert |Trim(p.current)| <= |p.current|;
  }

  /** A text within the limit becomes its trimmed self, or nothing when blank. */
  lemma SmartChunksShort(text: string, max: int)
    requires |text| <= max
    ensures SmartChunks(text, max) == if IsBlank(text) then [] else [Trim(text)]
  {
    SentencesFlatten(text);
    PackShort(Sentences(text), max);
  }

  /** There are no more chunks than sentences. */
  lemma SmartChunksCount(text: string, max: int)
    ensures |SmartChunks(text, max)| <= |Sentences(text)|
  {
    PackCount(Sentences(text), max);
  }

  /** `smartChunkText`: the loop over the sentences with the `currentChunk` accumulator. */
  method SmartChunkText(text: string, maxChunkSize: int) returns (chunks: seq<string>)
    ensures chunks == SmartChunks(text, maxChunkSize)
  {
    var sentences := Sentences(text);
    chunks := [];
    var current := "";
    for i := 0 to |sentences|
      invariant Packer(chunks, current) == PackAll(sentences[..i], maxChunkSize)
    {
      assert sentences[..i + 1][..i] == sentences[..i];
      var piece := sentences[i];
      if |current + piece| > maxChunkSize && Trim(current) != [] {
        chunks := chunks + [Trim(current)];
        current := piece;
      } else {
        current := current + piece;
      }
    }
    assert sentences[..|sentences|] == sentences;
    if Trim(current) != [] {
      chunks := chunks + [Trim(current)];
    }
  }

  // ---------------------------------------------------------------------------
  // readMarkdownAndGetChunks

  const DefaultMaxChunkSize := 300
  const DefaultMinChunkSize := 50

  /** The index just past the white-space run starting at `i`. */
  function RunEnd(s: string, i: nat): (j: nat)
    requires i <= |s|
    ensures i <= j <= |s| && (j == |s| || !IsSpace(s[j]))
    ensures forall k :: i <= k < j ==> IsSpace(s[k])
    decreases |s| - i
  {
    if i < |s| && IsSpace(s[i]) then RunEnd(s, i + 1) else i
  }

  /** A run of white space from `i` to `j` reaches at least `j`. */
  lemma {:induction false} RunEndPast(s: string, i: nat, j: nat)
    requires i <= j <= |s| && forall k :: i <= k < j ==> IsSpace(s[k])
    ensures j <= RunEnd(s, i)
    decreases j - i
  {
    if i < j {
      RunEndPast(s, i + 1, j);
    }
  }

  /** The last newline among the positions `lo` up to `hi - 1`. */
  function LastNewline(s: string, lo: nat, hi: nat): (r: Option<nat>)
    requires lo <= hi <= |s|
    ensures r.Some? ==> lo <= r.value < hi && s[r.value] == '\n'
    ensures r.None? ==> forall k :: lo <= k < hi ==> s[k] != '\n'
    decreases hi - lo
  {
    if hi == lo then None else if s[hi - 1] == '\n' then Some(hi - 1) else LastNewline(s, lo, hi - 1)
  }

  /**
   * The end of a match of the paragraph separator `/\n\s*\n/` that starts at
   * `p`: after the newline the greedy `\s*` takes the whole white-space run and
   * gives back characters until a newline follows, so the match ends just
   * after the run's last newline.
   */
  function BreakAt(s: string, p: nat): (r: Option<nat>)
    requires p <= |s|
    ensures r.Some? ==> p + 2 <= r.value <= |s| && forall k :: p <= k < r.value ==> IsSpace(s[k])
  {
    if p < |s| && s[p] == '\n' then
      match LastNewline(s, p + 1, RunEnd(s, p + 1))
      case None => None
      case Some(q) => Some(q + 1)
    else None
  }

  /** A newline, then only white space, then a newline: the separator. */
  predicate BlankLine(x: string, k: int, l: int) {
    0 <= k < l < |x| && x[k] == '\n' && x[l] == '\n' && forall m :: k < m < l ==> IsSpace(x[m])
  }

  /** No separator lies inside `x`. */
  predicate NoBlankLine(x: string) {
    forall k, l :: 0 <= k < l < |x| ==> !BlankLine(x, k, l)
  }

  /**
   * The split from `start` on, scanning for a separator at `p`: the pieces
   * `content.split(/\n\s*\n/)` returns, the separators dropped.
   */
  function SplitParagraphs(s: string, start: nat, p: nat): (r: seq<string>)
    requires start <= p <= |s|
    ensures |r| >= 1
    decreases |s| - p
  {
    if p == |s| then [s[start..]]
    else
      match BreakAt(s, p)
      case Some(e) => [s[start..p]] + SplitParagraphs(s, e, e)
      case None => SplitParagraphs(s, start, p + 1)
  }

  function Paragraphs(s: string): (r: seq<string>)
    ensures |r| >= 1
  {
    SplitParagraphs(s, 0, 0)
  }

  /** The separators are white space only: the paragraphs keep every other character, in order. */
  lemma {:induction false} SplitSqueeze(s: string, start: nat, p: nat)
    requires start <= p <= |s|
    ensures Squeeze(Flatten(SplitParagraphs(s, start, p))) == Squeeze(s[start..])
    decreases |s| - p
  {
    if p == |s| {
      assert SplitParagraphs(s, start, p) == [] + [s[start..]];
      FlattenSnoc([], s[start..]);
      assert Flatten([] + [s[start..]]) == s[start..];
    } else {
      match BreakAt(s, p)
      case Some(e) =>
        SplitSqueeze(s, e, e);
        var rest := SplitParagraphs(s, e, e);
        FlattenCons(s[start..p], rest);
        SqueezeAppend(s[start..p], Flatten(rest));
        SqueezeCut(s, start, p, e);
      case None =>
        SplitSqueeze(s, start, p + 1);
    }
  }

  /** Cutting a white-space stretch out of the text keeps its other characters. */
  lemma SqueezeCut(s: string, start: nat, p: nat, e: nat)
    requires start <= p <= e <= |s| && forall k :: p <= k < e ==> IsSpace(s[k])
    ensures Squeeze(s[start..]) == Squeeze(s[start..p]) + Squeeze(s[e..])
  {
    var x, y, z := s[start..p], s[p..e], s[e..];
    assert s[start..] == x + (y + z);
    SqueezeAppend(y, z);
    SqueezeAppend(x, y + z);
    SqueezeSpaces(y);
  }

  lemma ParagraphsSqueeze(s: string)
    ensures Squeeze(Flatten(Paragraphs(s))) == Squeeze(s)
  {
    SplitSqueeze(s, 0, 0);
    assert s[0..] == s;
  }

  /** A separator inside the text from `q` on is found at `q`. */
  lemma BreakFound(s: string, q: nat, l: nat)
    requires q < l < |s| && s[q] == '\n' && s[l] == '\n' && forall m :: q < m < l ==> IsSpace(s[m])
    ensures BreakAt(s, q).Some?
  {
    RunEndPast(s, q + 1, l + 1);
  }

  lemma {:induction false} SplitNoBlankLine(s: string, start: nat, p: nat)
    requires start <= p <= |s|
    requires forall q :: start <= q < p ==> BreakAt(s, q).None?
    ensures forall x :: x in SplitParagraphs(s, start, p) ==> NoBlankLine(x)
    decreases |s| - p
  {
    var r := SplitParagraphs(s, start, p);
    if p == |s| {
      CutNoBlankLine(s, start, p);
      assert s[start..p] == s[start..];
      assert r == [s[start..p]];
    } else {
      match BreakAt(s, p)
      case Some(e) =>
        CutNoBlankLine(s, start, p);
        SplitNoBlankLine(s, e, e);
        assert r == [s[start..p]] + SplitParagraphs(s, e, e);
      case None =>
        SplitNoBlankLine(s, start, p + 1);
    }
  }

  /** A piece cut before any separator was found holds none. */
  lemma CutNoBlankLine(s: string, start: nat, p: nat)
    requires start <= p <= |s|
    requires forall q :: start <= q < p ==> BreakAt(s, q).None?
    ensures NoBlankLine(s[start..p])
  {
    var x := s[start..p];
    forall k, l | BlankLine(x, k, l)
      ensures false
    {
      forall m | start + k < m < start + l
        ensures IsSpace(s[m])
      {
        assert s[m] == x[m - start];
      }
      BreakFound(s, start + k, start + l);
    }
  }

  /** No paragraph holds a separator. */
  lemma ParagraphsNoBlankLine(s: string)
    ensures forall x :: x in Paragraphs(s) ==> NoBlankLine(x)
  {
    SplitNoBlankLine(s, 0, 0);
  }

  /** `replace(/\u3000/g, " ")`: the ideographic space becomes a plain space. */
  function PlainSpaces(s: string): (r: string)
    ensures |r| == |s|
  {
    seq(|s|, i requires 0 <= i < |s| => if s[i] == '\U{3000}' then ' ' else s[i])
  }

  /** The cleaning chain: collapse white space, replace ideographic spaces, trim. */
  function Clean(par: string): string {
    Trim(PlainSpaces(CollapseWs(par)))
  }

  /** The ideographic space is white space, so after collapsing nothing is left to replace. */
  lemma PlainSpacesNoop(s: string)
    ensures PlainSpaces(CollapseWs(s)) == CollapseWs(s)
  {
    CollapseSingleSpaces(s);
    var c := CollapseWs(s);
    forall i | 0 <= i < |c|
      ensures PlainSpaces(c)[i] == c[i]
    {
      if c[i] == '\U{3000}' {
        assert IsSpace(c[i]);
      }
    }
  }

  /** What one paragraph contributes: nothing when blank or short, itself when it fits, its sentence chunks when long. */
  function Keep(par: string, max: int, min: int): seq<string> {
    if IsBlank(par) then []
    else
      var c := Clean(par);
      if |c| > max then SmartChunks(c, max)
      else if |c| > min then [c]
      else []
  }

  /** The paragraph loop: each paragraph's contribution, in order. */
  function MarkdownChunks(paras: seq<string>, max: int, min: int): seq<string>
    decreases |paras|
  {
    if paras == [] then [] else MarkdownChunks(paras[..|paras| - 1], max, min) + Keep(paras[|paras| - 1], max, min)
  }

  /** `readMarkdownAndGetChunks` on the file's content; `None` is a failed read, which yields no chunks. */
  function MarkdownFile(content: Option<string>, max: int, min: int): seq<string> {
    if content.None? then [] else MarkdownChunks(Paragraphs(content.value), max, min)
  }

  /** Cleaning is collapsing and trimming, and keeps the characters that are not white space. */
  lemma CleanLaws(par: string)
    ensures Clean(par) == Trim(CollapseWs(par))
    ensures Squeeze(Clean(par)) == Squeeze(par)
  {
    PlainSpacesNoop(par);
    CollapseSqueeze(par);
  }

  /** A paragraph that is not blank does not clean to nothing. */
  lemma CleanNonEmpty(par: string)
    requires !IsBlank(par)
    ensures Clean(par) != []
  {
    CleanLaws(par);
    BlankIff(par);
    var i :| 0 <= i < |par| && !IsSpace(par[i]);
    SqueezeKeeps(par, i);
  }

  /** A paragraph is dropped, kept whole after cleaning, or chunked, by its cleaned length. */
  lemma KeepCases(par: string, max: int, min: int)
    ensures IsBlank(par) ==> Keep(par, max, min) == []
    ensures !IsBlank(par) && |Clean(par)| > max ==> Keep(par, max, min) == SmartChunks(Clean(par), max)
    ensures !IsBlank(par) && min < |Clean(par)| <= max ==> Keep(par, max, min) == [Clean(par)]
    ensures !IsBlank(par) && |Clean(par)| <= min && |Clean(par)| <= max ==> Keep(par, max, min) == []
  {
  }

  /** Whatever a paragraph contributes is trimmed and non-empty. */
  lemma KeepTrimmed(par: string, max: int, min: int)
    ensures forall c :: c in Keep(par, max, min) ==> c != [] && Trim(c) == c
  {
    if !IsBlank(par) {
      var c := Clean(par);
      if |c| > max {
        SmartChunksTrimmed(c, max);
      } else {
        CleanNonEmpty(par);
        TrimTwice(PlainSpaces(CollapseWs(par)));
      }
    }
  }

  /** A character that is not white space survives squeezing. */
  lemma {:induction false} SqueezeKeeps(s: string, i: nat)
    requires i < |s| && !IsSpace(s[i])
    ensures s[i] in Squeeze(s)
    decreases |s|
  {
    if i > 0 {
      SqueezeKeeps(s[1..], i - 1);
    }
  }

  /** A long paragraph loses only white space to chunking. */
  lemma KeepLong(par: string, max: int, min: int)
    requires !IsBlank(par) && |Clean(par)| > max
    ensures Squeeze(Flatten(Keep(par, max, min))) == Squeeze(par)
  {
    SmartChunksSqueeze(Clean(par), max);
    CleanLaws(par);
  }

  /** Every chunk is trimmed and non-empty. */
  lemma {:induction false} MarkdownChunksTrimmed(paras: seq<string>, max: int, min: int)
    ensures forall c :: c in MarkdownChunks(paras, max, min) ==> c != [] && Trim(c) == c
    decreases |paras|
  {
    if paras != [] {
      MarkdownChunksTrimmed(paras[..|paras| - 1], max, min);
      KeepTrimmed(paras[|paras| - 1], max, min);
    }
  }

  /** One pass of the paragraph loop. */
  method ChunkParagraph(paragraph: string, maxChunkSize: int, minChunkSize: int) returns (kept: seq<string>)
    ensures kept == Keep(paragraph, maxChunkSize, minChunkSize)
  {
    kept := [];
    if Trim(paragraph) == [] {
      return;
    }
    var cleanParagraph := Trim(PlainSpaces(CollapseWs(paragraph)));
    if |cleanParagraph| > maxChunkSize {
      kept := SmartChunkText(cleanParagraph, maxChunkSize);
    } else if |cleanParagraph| > minChunkSize {
      kept := [cleanParagraph];
    }
  }

  /** The paragraph loop of `readMarkdownAndGetChunks`. */
  method ReadMarkdownChunks(content: Option<string>, maxChunkSize: int, minChunkSize: int) returns (chunks: seq<string>)
    ensures chunks == MarkdownFile(content, maxChunkSize, minChunkSize)
  {
    chunks := [];
    if content.None? {
      return;
    }
    var paragraphs := Paragraphs(content.value);
    for i := 0 to |paragraphs|
      invariant chunks == MarkdownChunks(paragraphs[..i], maxChunkSize, minChunkSize)
    {
      assert paragraphs[..i + 1][..i] == paragraphs[..i];
      var kept := ChunkParagraph(paragraphs[i], maxChunkSize, minChunkSize);
      chunks := chunks + kept;
    }
    assert paragraphs[..|paragraphs|] == paragraphs;
  }

  // ---------------------------------------------------------------------------
  // formatGraphForVisualization

  /** A colour table from entity type to colour. */
  type Palette = map<string, string>

  /** The colours used when the caller gives none. */
  const DefaultPalette: Palette := map[
    "PERSON" := "#FF6B6B", "LOCATION" := "#4ECDC4", "ORGANIZATION" := "#45B7D1",
    "EVENT" := "#96CEB4", "CONCEPT" := "#FECA57", "OTHER" := "#DDA0DD"]

  /** A vis-network node: id and caption (vis-network's `label`) are the node, plus its tooltip, group and background colour. */
  datatype VisNode = VisNode(id: string, caption: string, title: string, group: string, background: Option<string>)

  /** A vis-network edge: its endpoints, the weight shown in its tooltip, its description and its width. */
  datatype VisEdge = VisEdge(from: string, to: string, weight: real, description: string, width: real)

  /** JavaScript's `x || d` on an optional string: an unset or empty value gives `d`. */
  function OrElse(x: Option<string>, d: string): (r: string)
    ensures r == d || (x.Some? && r == x.value && r != [])
    ensures x.Some? && x.value != [] ==> r == x.value
  {
    if x.Some? && x.value != [] then x.value else d
  }

  /** `attrs.entity_type || "OTHER"`: never empty. */
  function GroupOf(a: Attrs): (r: string)
    ensures r != []
    ensures a.entityType.Some? && a.entityType.value != [] ==> r == a.entityType.value
    ensures (a.entityType.None? || a.entityType.value == []) ==> r == "OTHER"
  {
    OrElse(a.entityType, "OTHER")
  }

  /**
   * `nodeColors[attrs.entity_type] || nodeColors["OTHER"]`: an unset type is
   * looked up under the key "undefined", and a missing or empty colour falls
   * back to OTHER's entry, which may itself be missing.
   */
  function ColorOf(palette: Palette, t: Option<string>): (r: Option<string>)
    ensures r.Some? ==> r.value in palette.Values
    ensures r.None? <==> "OTHER" !in palette && !(var k := if t.Some? then t.value else "undefined";
                                                  k in palette && palette[k] != [])
  {
    var key := if t.Some? then t.value else "undefined";
    if key in palette && palette[key] != [] then Some(palette[key])
    else if "OTHER" in palette then Some(palette["OTHER"])
    else None
  }

  /** The tooltip: type (default OTHER) and description (default empty). */
  function NodeTitle(a: Attrs): string {
    "<b>類型：</b> " + OrElse(a.entityType, "OTHER") + "<br><b>描述：</b> " + OrElse(a.description, "")
  }

  function VisNodeOf(n: string, a: Attrs, palette: Palette): VisNode {
    VisNode(n, n, NodeTitle(a), GroupOf(a), ColorOf(palette, a.entityType))
  }

  /** `attrs.weight || 1`: an unset or zero weight counts as 1. */
  function WeightOf(a: Attrs): (w: real)
    ensures w != 0.0
  {
    if a.weight.Some? && a.weight.value != 0.0 then a.weight.value else 1.0
  }

  /** `Math.max(1, Math.min(5, w * 2))`. */
  function WidthOf(w: real): (r: real)
    ensures 1.0 <= r <= 5.0
    ensures 0.5 <= w <= 2.5 ==> r == 2.0 * w
    ensures w < 0.5 ==> r == 1.0
    ensures w > 2.5 ==> r == 5.0
  {
    var m := if 5.0 < w * 2.0 then 5.0 else w * 2.0;
    if 1.0 < m then m else 1.0
  }

  function VisEdgeOf(e: Edge): VisEdge {
    var w := WeightOf(e.attrs);
    VisEdge(e.source, e.target, w, OrElse(e.attrs.description, ""), WidthOf(w))
  }

  /** With the built-in colours every node gets one: its type's, or OTHER's. */
  lemma DefaultColors(t: Option<string>)
    ensures ColorOf(DefaultPalette, t).Some?
    ensures t.Some? && t.value in DefaultPalette ==> ColorOf(DefaultPalette, t) == Some(DefaultPalette[t.value])
    ensures (t.None? || t.value !in DefaultPalette) ==> ColorOf(DefaultPalette, t) == Some("#DDA0DD")
  {
  }

  /** An edge without a weight is drawn with width 2. */
  lemma UnweightedWidth(e: Edge)
    requires e.attrs.weight.None?
    ensures VisEdgeOf(e).width == 2.0 && VisEdgeOf(e).weight == 1.0
  {
  }

  /**
   * `formatGraphForVisualization`: one vis node per node, in order, and one
   * vis edge per edge, in order. `nodeColors` absent means the built-in table.
   */
  method FormatGraph(g: GraphData, nodeColors: Option<Palette>) returns (nodes: seq<VisNode>, edges: seq<VisEdge>)
    requires forall n :: n in g.nodes ==> n in g.attrs
    ensures |nodes| == |g.nodes| && |edges| == |g.edges|
    ensures forall i :: 0 <= i < |nodes| ==>
      nodes[i] == VisNodeOf(g.nodes[i], g.attrs[g.nodes[i]], if nodeColors.Some? then nodeColors.value else DefaultPalette)
    ensures forall i :: 0 <= i < |edges| ==> edges[i] == VisEdgeOf(g.edges[i])
  {
    var palette := if nodeColors.Some? then nodeColors.value else DefaultPalette;
    nodes := [];
    for i := 0 to |g.nodes|
      invariant |nodes| == i
      invariant forall k :: 0 <= k < i ==> nodes[k] == VisNodeOf(g.nodes[k], g.attrs[g.nodes[k]], palette)
    {
      var n := g.nodes[i];
      var attrs := g.attrs[n];
      nodes := nodes + [VisNode(n, n, NodeTitle(attrs), OrElse(attrs.entityType, "OTHER"), ColorOf(palette, attrs.entityType))];
    }
    edges := [];
    for i := 0 to |g.edges|
      invariant |edges| == i
      invariant forall k :: 0 <= k < i ==> edges[k] == VisEdgeOf(g.edges[k])
    {
      var e := g.edges[i];
      var w := WeightOf(e.attrs);
      edges := edges + [VisEdge(e.source, e.target, w, OrElse(e.attrs.description, ""), WidthOf(w))];
    }
  }
}
