// The basic graph extractor: one extraction prompt per chunk, a bounded
// gleaning conversation with the language model, then the tail that cuts the
// collected answer into records and keeps each record's parenthesised span.

module GraphExtractorBasic {
  import opened Common
  import opened Strings
  import opened Utils
  import opened Grouping
  import opened BaseExtractor

  /** `MAX_GLEANINGS`. */
  const MaxGleanings: nat := 2
  const RecordDelimiter: string := "##"
  const CompletionDelimiter: string := "<|COMPLETE|>"

  /** The two roles of a history entry, `"user"` and `"model"`. */
  datatype Role = User | Model

  /** One history entry `{role, parts: [{text}]}`. */
  datatype Message = Message(role: Role, text: string)

  /** What `_chat` is given: a plain prompt or a conversation history. */
  datatype Prompt = Text(text: string) | History(messages: seq<Message>)

  /** The three prompt texts the extractor uses. */
  datatype Templates = Templates(extraction: string, continuation: string, ifLoop: string)

  /** The extraction prompt with its three placeholders filled in. */
  function HintPrompt(extraction: string, entityTypes: seq<string>, language: string, content: string): string {
    ReplaceFirst(ReplaceFirst(ReplaceFirst(extraction, "{entity_types}", Join(entityTypes, ",")),
                              "{language}", language), "{input_text}", content)
  }

  /** The stop test on the yes/no answer: lower-cased, trimmed, contains "no". */
  predicate SaysNo(answer: string) {
    Contains(Trim(Lower(answer)), "no")
  }

  /**
   * A whole gleaning conversation: every prompt sent, every answer received
   * (`answers[j]` answers `prompts[j]`), the concatenated result and the
   * token count.
   */
  datatype Transcript = Transcript(prompts: seq<Prompt>, answers: seq<string>, final: string, tokens: nat)

  /**
   * The conversation written out straight, as a reference for the loop:
   * extraction, first gleaning, the yes/no question, and a second gleaning
   * unless the answer passes the stop test. The laws below hold for any
   * stop test; the extractor's is `SaysNo`.
   */
  function Gleaning(hint: string, t: Templates, chat: Prompt -> string, stop: string -> bool): Transcript {
    var a0 := chat(Text(hint));
    var p1 := Asking([Message(User, hint), Message(Model, a0)], t.continuation);
    var a1 := chat(History(p1));
    var p2 := Asking(Answered(p1, a1), t.ifLoop);
    var a2 := chat(History(p2));
    var prompts := [Text(hint)] + [History(p1)] + [History(p2)];
    var answers := [a0] + [a1] + [a2];
    var tokens := |hint + a0| + |a1| + |a2|;
    if stop(a2) then
      Transcript(prompts, answers, a0 + a1, tokens)
    else
      var p3 := Asking(Answered(p2, a2), t.continuation);
      var a3 := chat(History(p3));
      Transcript(prompts + [History(p3)], answers + [a3], a0 + a1 + a3, tokens + |a3|)
  }

  /** The history with one more request of the user. */
  function Asking(history: seq<Message>, request: string): (h: seq<Message>)
    ensures |h| == |history| + 1 && h[..|history|] == history && h[|history|] == Message(User, request)
  {
    history + [Message(User, request)]
  }

  /** The history with the model's answer to the last request. */
  function Answered(history: seq<Message>, answer: string): (h: seq<Message>)
    ensures |h| == |history| + 1 && h[..|history|] == history && h[|history|] == Message(Model, answer)
  {
    history + [Message(Model, answer)]
  }

  /** The last request of a history prompt. */
  function LastAsk(p: Prompt): string {
    if p.History? && p.messages != [] then p.messages[|p.messages| - 1].text else ""
  }

  /**
   * The shape of the conversation: one extraction prompt first, every answer
   * the answer to its prompt, and three prompts exactly when the answer to
   * the yes/no prompt passes the stop test.
   */
  lemma GleaningShape(hint: string, t: Templates, chat: Prompt -> string, stop: string -> bool)
    ensures |Gleaning(hint, t, chat, stop).prompts| == 3 || |Gleaning(hint, t, chat, stop).prompts| == 4
    ensures |Gleaning(hint, t, chat, stop).answers| == |Gleaning(hint, t, chat, stop).prompts|
    ensures Gleaning(hint, t, chat, stop).prompts[0] == Text(hint)
    ensures forall j :: 0 <= j < |Gleaning(hint, t, chat, stop).prompts| ==>
              Gleaning(hint, t, chat, stop).answers[j] == chat(Gleaning(hint, t, chat, stop).prompts[j])
    ensures |Gleaning(hint, t, chat, stop).prompts| == 3 <==> stop(Gleaning(hint, t, chat, stop).answers[2])
  {
  }

  /**
   * The history prompts alternate continuation, yes/no, continuation (so at
   * most two continuation prompts and one yes/no prompt), and each extends
   * the previous one by the model's answer and the next request.
   */
  lemma GleaningHistories(hint: string, t: Templates, chat: Prompt -> string, stop: string -> bool)
    ensures var g := Gleaning(hint, t, chat, stop);
      && 3 <= |g.prompts| == |g.answers|
      && (forall j :: 1 <= j < |g.prompts| ==>
            (g.prompts[j].History? && LastAsk(g.prompts[j]) == (if j % 2 == 1 then t.continuation else t.ifLoop)))
      && g.prompts[1].messages == [Message(User, hint), Message(Model, g.answers[0]), Message(User, t.continuation)]
      && (forall j :: 2 <= j < |g.prompts| ==>
            g.prompts[j].messages == g.prompts[j - 1].messages + [Message(Model, g.answers[j - 1]),
                                                                 Message(User, LastAsk(g.prompts[j]))])
  {
    var a0 := chat(Text(hint));
    var p1 := Asking([Message(User, hint), Message(Model, a0)], t.continuation);
    var a1 := chat(History(p1));
    var p2 := Asking(Answered(p1, a1), t.ifLoop);
    AskingAfter(p1, a1, t.ifLoop);
    if !stop(chat(History(p2))) {
      AskingAfter(p2, chat(History(p2)), t.continuation);
    }
  }

  /** An answer and a request added to a history. */
  lemma AskingAfter(history: seq<Message>, answer: string, request: string)
    ensures Asking(Answered(history, answer), request) == history + [Message(Model, answer), Message(User, request)]
    ensures LastAsk(History(Asking(Answered(history, answer), request))) == request
  {
  }

  /** The sum of the lengths of some answers. */
  function LenSum(ss: seq<string>): nat
    decreases |ss|
  {
    if ss == [] then 0 else LenSum(ss[..|ss| - 1]) + |ss[|ss| - 1]|
  }

  /**
   * `final_result` is the first answer followed by the gleaning answers in
   * order (the yes/no answer is not part of it), and `token_count` is the
   * length of the extraction prompt plus the lengths of all answers.
   */
  lemma GleaningTotals(hint: string, t: Templates, chat: Prompt -> string, stop: string -> bool)
    ensures var g := Gleaning(hint, t, chat, stop);
      && |g.answers| >= 3
      && g.final == g.answers[0] + g.answers[1] + (if |g.answers| == 4 then g.answers[3] else "")
      && g.tokens == |hint| + LenSum(g.answers)
  {
    var g := Gleaning(hint, t, chat, stop);
    var a := g.answers;
    assert LenSum(a[..1]) == |a[0]| by { assert a[..1][..0] == []; }
    assert LenSum(a[..2]) == |a[0]| + |a[1]| by { assert a[..2][..1] == a[..1]; }
    assert LenSum(a[..3]) == |a[0]| + |a[1]| + |a[2]| by { assert a[..3][..2] == a[..2]; }
    if |a| == 4 {
      assert a[..3] == a[..|a| - 1];
    } else {
      assert a == a[..3];
    }
  }

  /** Every history sent has at most 7 messages, one more answer makes 8: the cut to 4 never applies. */
  lemma HistoryStaysShort(hint: string, t: Templates, chat: Prompt -> string, stop: string -> bool)
    ensures var g := Gleaning(hint, t, chat, stop);
      forall j :: 1 <= j < |g.prompts| ==> g.prompts[j].History? && |g.prompts[j].messages| + 1 <= 8
  {
  }

  /** A yes/no answer shorter than two characters (such as "N") never stops the gleaning. */
  lemma ShortAnswerContinues(answer: string)
    requires |answer| < 2
    ensures !SaysNo(answer)
  {
    ContainsIff(Trim(Lower(answer)), "no");
  }

  /**
   * The gleaning loop of `_process_single_content`. The history cut to the
   * last four messages (taken only when the history is longer than 8) is
   * not written out: the history has 6 messages at that point.
   */
  method Glean(hint: string, t: Templates, chat: Prompt -> string)
    returns (final: string, tokens: nat, ghost prompts: seq<Prompt>, ghost answers: seq<string>)
    ensures Transcript(prompts, answers, final, tokens) == Gleaning(hint, t, chat, SaysNo)
  {
    final := chat(Text(hint));
    tokens := |hint + final|;
    prompts, answers := [Text(hint)], [final];
    var history := [Message(User, hint), Message(Model, final)];
    ghost var a0, p1, a1, p2, a2 := final, [], "", [], "";
    var i := 0;
    while i < MaxGleanings
      invariant 0 <= i <= 1
      invariant i == 0 ==> (prompts == [Text(hint)] && answers == [final] && final == chat(Text(hint))
                            && tokens == |hint + final| && history == [Message(User, hint), Message(Model, final)]
                            && a0 == final)
      invariant i == 1 ==> (a0 == chat(Text(hint)) && p1 == Asking([Message(User, hint), Message(Model, a0)], t.continuation)
                            && a1 == chat(History(p1)) && p2 == Asking(Answered(p1, a1), t.ifLoop)
                            && a2 == chat(History(p2)) && !SaysNo(a2)
                            && prompts == [Text(hint)] + [History(p1)] + [History(p2)]
                            && answers == [a0] + [a1] + [a2]
                            && final == a0 + a1 && tokens == |hint + a0| + |a1| + |a2|
                            && history == Answered(p2, a2))
    {
      history := Asking(history, t.continuation);
      var glean := chat(History(history));
      prompts, answers := prompts + [History(history)], answers + [glean];
      tokens := tokens + |glean|;
      final := final + glean;
      if i == 0 {
        p1, a1 := history, glean;
      }
      history := Answered(history, glean);
      if i >= MaxGleanings - 1 {
        break;
      }
      history := Asking(history, t.ifLoop);
      var ifLoop := chat(History(history));
      prompts, answers := prompts + [History(history)], answers + [ifLoop];
      tokens := tokens + |ifLoop|;
      p2, a2 := history, ifLoop;
      history := Answered(history, ifLoop);
      if SaysNo(ifLoop) {
        break;
      }
      assert |history| == 6;
      i := i + 1;
    }
  }

  /** Trims every piece. */
  function TrimAll(pieces: seq<string>): (r: seq<string>)
    ensures |r| == |pieces|
  {
    seq(|pieces|, j requires 0 <= j < |pieces| => Trim(pieces[j]))
  }

  /** The filter on trimmed pieces: non-empty and without the completion marker. */
  predicate KeptRecord(r: string) {
    r != [] && !Contains(r, CompletionDelimiter)
  }

  /**
   * `final_result.split("##").map(trim).filter(...)`: the records are the
   * trimmed pieces that are non-empty and hold no completion marker, so a
   * piece holding a record and the marker is dropped whole.
   */
  function Records(final: string): (r: seq<string>)
    ensures forall j :: 0 <= j < |r| ==> KeptRecord(r[j]) && Trim(r[j]) == r[j]
    ensures forall x :: x in r <==> x in TrimAll(SplitMarkers(final, [RecordDelimiter])) && KeptRecord(x)
  {
    var pieces := TrimAll(SplitMarkers(final, [RecordDelimiter]));
    var r := Filter(pieces, KeptRecord);
    forall j | 0 <= j < |r|
      ensures KeptRecord(r[j]) && Trim(r[j]) == r[j]
    {
      assert r[j] in r;
      TrimOfTrimmed(r[j]);
    }
    r
  }

  /** When every trimmed piece is kept, the records are exactly the trimmed pieces. */
  lemma RecordsKeepAll(final: string)
    requires forall j :: 0 <= j < |SplitMarkers(final, [RecordDelimiter])| ==>
               KeptRecord(Trim(SplitMarkers(final, [RecordDelimiter])[j]))
    ensures Records(final) == TrimAll(SplitMarkers(final, [RecordDelimiter]))
  {
    var pieces := TrimAll(SplitMarkers(final, [RecordDelimiter]));
    FilterKeepsAll(pieces, KeptRecord);
  }

  /** `s[b..q+1]` is matched by `\(.*\)`: '(' at b, ')' at q, no line terminator between. */
  predicate ClosesOnLine(s: string, b: int, q: int) {
    0 <= b < q < |s| && s[b] == '(' && s[q] == ')' && forall k :: b < k < q ==> !LineTerminator(s[k])
  }

  /** The first index from `i` on that is the end or a line terminator. */
  function LineEnd(s: string, i: nat): (e: nat)
    requires i <= |s|
    ensures i <= e <= |s| && (e < |s| ==> LineTerminator(s[e]))
    ensures forall k :: i <= k < e ==> !LineTerminator(s[k])
    decreases |s| - i
  {
    if i == |s| || LineTerminator(s[i]) then i else LineEnd(s, i + 1)
  }

  /** The last ')' in `s[lo..hi]`. */
  function LastClose(s: string, lo: nat, hi: nat): (r: Option<nat>)
    requires lo <= hi <= |s|
    ensures r.Some? ==> lo <= r.value < hi && s[r.value] == ')' && forall k :: r.value < k < hi ==> s[k] != ')'
    ensures r.None? ==> forall k :: lo <= k < hi ==> s[k] != ')'
    decreases hi - lo
  {
    if lo == hi then None else if s[hi - 1] == ')' then Some(hi - 1) else LastClose(s, lo, hi - 1)
  }

  /** A '(' at `b` whose line has no later ')' opens no match. */
  lemma NoCloseOnLine(s: string, b: nat)
    requires b < |s|
    requires s[b] != '(' || LastClose(s, b + 1, LineEnd(s, b + 1)).None?
    ensures forall q :: !ClosesOnLine(s, b, q)
  {
    if s[b] == '(' {
      var e := LineEnd(s, b + 1);
      forall q | ClosesOnLine(s, b, q)
        ensures q < e
      {
      }
    }
  }

  /** With a last ')' on its line, the '(' at `b` matches up to that ')' and no further. */
  lemma CloseOnLine(s: string, b: nat)
    requires b < |s| && s[b] == '(' && LastClose(s, b + 1, LineEnd(s, b + 1)).Some?
    ensures ClosesOnLine(s, b, LastClose(s, b + 1, LineEnd(s, b + 1)).value)
    ensures forall q :: ClosesOnLine(s, b, q) ==> q <= LastClose(s, b + 1, LineEnd(s, b + 1)).value
  {
    var e := LineEnd(s, b + 1);
    forall q | ClosesOnLine(s, b, q)
      ensures q < e
    {
    }
  }

  /**
   * `s.match(/\((.*)\)/)` searched from `p`: the positions of the leftmost
   * '(' that has a ')' later on its line, and of the last such ')'.
   */
  function ParenMatch(s: string, p: nat): (r: Option<(nat, nat)>)
    requires p <= |s|
    ensures r.Some? ==> p <= r.value.0 && ClosesOnLine(s, r.value.0, r.value.1)
    ensures r.Some? ==> forall q :: ClosesOnLine(s, r.value.0, q) ==> q <= r.value.1
    ensures r.Some? ==> forall b, q :: p <= b < r.value.0 ==> !ClosesOnLine(s, b, q)
    ensures r.None? ==> forall b, q :: p <= b ==> !ClosesOnLine(s, b, q)
    decreases |s| - p
  {
    if p == |s| then None
    else if s[p] == '(' && LastClose(s, p + 1, LineEnd(s, p + 1)).Some? then
      CloseOnLine(s, p);
      Some((p, LastClose(s, p + 1, LineEnd(s, p + 1)).value))
    else
      NoCloseOnLine(s, p);
      ParenMatch(s, p + 1)
  }

  /** `match ? match[1] : null`. */
  function Inner(r: string): (x: Option<string>)
    ensures x.Some? ==> forall k :: 0 <= k < |x.value| ==> !LineTerminator(x.value[k])
    ensures x.None? <==> forall b, q :: !ClosesOnLine(r, b, q)
  {
    match ParenMatch(r, 0)
    case None => None
    case Some((a, q)) =>
      Some(r[a + 1..q])
  }

  /** A parenthesised line comes back out of `Inner`, parentheses inside it included. */
  lemma InnerWrapped(x: string)
    requires forall k :: 0 <= k < |x| ==> !LineTerminator(x[k])
    ensures Inner("(" + x + ")") == Some(x)
  {
    var s := "(" + x + ")";
    forall k | 0 < k < |s| - 1
      ensures !LineTerminator(s[k])
    {
      assert s[k] == x[k - 1];
    }
    assert ClosesOnLine(s, 0, |s| - 1);
    var m := ParenMatch(s, 0);
    assert m.Some? && m.value.0 == 0 && m.value.1 == |s| - 1;
    assert s[1..|s| - 1] == x;
  }

  /** `cleaned_records`: each record's span, records without one (or with an empty one) dropped. */
  function CleanedRecords(records: seq<string>): (r: seq<string>)
    ensures |r| <= |records|
    ensures forall j :: 0 <= j < |r| ==> r[j] != [] && forall k :: 0 <= k < |r[j]| ==> !LineTerminator(r[j][k])
    decreases |records|
  {
    if records == [] then []
    else
      var last := records[|records| - 1];
      CleanedRecords(records[..|records| - 1]) +
      (match Inner(last) case Some(x) => (if x != [] then [x] else []) case None => [])
  }

  /** Records that are all parenthesised lines lose only their parentheses. */
  lemma {:induction false} CleanedWrapped(xs: seq<string>, records: seq<string>)
    requires |records| == |xs|
    requires forall j :: 0 <= j < |xs| ==>
               (records[j] == "(" + xs[j] + ")" && xs[j] != [] && forall k :: 0 <= k < |xs[j]| ==> !LineTerminator(xs[j][k]))
    ensures CleanedRecords(records) == xs
    decreases |xs|
  {
    if xs != [] {
      var n := |xs| - 1;
      CleanedWrapped(xs[..n], records[..n]);
      InnerWrapped(xs[n]);
      CleanedSnoc(xs, records);
    }
  }

  lemma CleanedSnoc(xs: seq<string>, records: seq<string>)
    requires |records| == |xs| > 0
    requires CleanedRecords(records[..|records| - 1]) == xs[..|xs| - 1]
    requires Inner(records[|records| - 1]) == Some(xs[|xs| - 1]) && xs[|xs| - 1] != []
    ensures CleanedRecords(records) == xs
  {
    assert xs == xs[..|xs| - 1] + [xs[|xs| - 1]];
  }

  /** What one chunk yields: the grouped records of its conversation and its token count. */
  function ChunkOf(docId: string, content: string, t: Templates, entityTypes: seq<string>, language: string,
                   chat: Prompt -> string, parseFloat: string -> Option<real>): (r: ChunkResult)
    ensures r.nodes.Valid() && r.edges.Valid()
  {
    var g := Gleaning(HintPrompt(t.extraction, entityTypes, language, content), t, chat, SaysNo);
    var ps := ParseAll(CleanedRecords(Records(g.final)), docId, entityTypes, parseFloat);
    GroupByValid(Entities(ps), EntityName);
    GroupByValid(Relations(ps), EdgeKey);
    ChunkResult(GroupBy(Entities(ps), EntityName), GroupBy(Relations(ps), EdgeKey), g.tokens)
  }

  /** `_process_single_content({doc_id, content})`. */
  method ProcessSingleContent(docId: string, content: string, t: Templates, entityTypes: seq<string>,
                              language: string, chat: Prompt -> string, parseFloat: string -> Option<real>)
    returns (result: ChunkResult)
    ensures result == ChunkOf(docId, content, t, entityTypes, language, chat, parseFloat)
  {
    var hint := HintPrompt(t.extraction, entityTypes, language, content);
    var final, tokens, prompts, answers := Glean(hint, t, chat);
    var records := Records(final);
    var cleaned := CleanedRecords(records);
    var nodes, edges := EntitiesAndRelations(docId, cleaned, entityTypes, parseFloat);
    result := ChunkResult(nodes, edges, tokens);
  }

  /** The per-chunk results of a document. */
  function ChunksOf(docId: string, chunks: seq<string>, t: Templates, entityTypes: seq<string>, language: string,
                    chat: Prompt -> string, parseFloat: string -> Option<real>): (r: seq<ChunkResult>)
    ensures |r| == |chunks|
    ensures forall i :: 0 <= i < |r| ==> r[i].nodes.Valid() && r[i].edges.Valid()
  {
    seq(|chunks|, i requires 0 <= i < |chunks| => ChunkOf(docId, chunks[i], t, entityTypes, language, chat, parseFloat))
  }

  /** The summary prompt goes to the model as a plain prompt. */
  function Summarise(chat: Prompt -> string): string -> string {
    s => chat(Text(s))
  }

  /**
   * `extract(doc_id, chunks)`: process every chunk (sequentially here), then
   * combine and merge the groups of all chunks.
   */
  method ExtractDocument(docId: string, chunks: seq<string>, t: Templates, summary: string,
                         entityTypes: seq<string>, language: string,
                         chat: Prompt -> string, parseFloat: string -> Option<real>)
    returns (entities: seq<MergedEntity>, relationships: seq<MergedRelationship>, tokens: nat)
    ensures CombineAll(NodeMaps(ChunksOf(docId, chunks, t, entityTypes, language, chat, parseFloat))).Valid()
    ensures CombineAll(EdgeMaps(ChunksOf(docId, chunks, t, entityTypes, language, chat, parseFloat))).Valid()
    ensures entities == Somes(NodeMerges(CombineAll(NodeMaps(ChunksOf(docId, chunks, t, entityTypes, language, chat, parseFloat))),
                                         summary, language, Summarise(chat)))
    ensures relationships == Somes(EdgeMerges(CombineAll(EdgeMaps(ChunksOf(docId, chunks, t, entityTypes, language, chat, parseFloat))),
                                              summary, language, Summarise(chat)))
    ensures tokens == TokenSum(ChunksOf(docId, chunks, t, entityTypes, language, chat, parseFloat))
  {
    ghost var process := (c: string) => ChunkOf(docId, c, t, entityTypes, language, chat, parseFloat);
    var results: seq<ChunkResult> := [];
    var i := 0;
    while i < |chunks|
      invariant i <= |chunks| && |results| == i
      invariant forall j :: 0 <= j < i ==> results[j] == process(chunks[j])
    {
      var r := ProcessSingleContent(docId, chunks[i], t, entityTypes, language, chat, parseFloat);
      MapSnoc(chunks, results, process, r);
      results := results + [r];
      i := i + 1;
    }
    assert results == ChunksOf(docId, chunks, t, entityTypes, language, chat, parseFloat);
    entities, relationships, tokens := Extract(results, summary, language, Summarise(chat));
  }
}
