/**
 * The string helpers of `src/utils.js`: `clean_str`, the literal
 * multi-marker split, and the parsers that turn one delimited record
 * (`"entity"<|>NAME<|>TYPE<|>DESCRIPTION` or
 * `"relationship"<|>SRC<|>TGT<|>DESCRIPTION<|>KEYWORDS...<|>STRENGTH`) into
 * an entity or a relationship.
 */
module Utils {
  import opened Common
  import opened Strings

  /* ------------------------------ global literal replace ------------------------------ */

  /**
   * `s.replace(/pat/g, rep)` for a literal `pat`: scanning left to right,
   * every occurrence not overlapping an earlier replaced one becomes `rep`.
   */
  function ReplaceAll(s: string, pat: string, rep: string): string
    requires pat != []
    decreases |s|
  {
    if |s| < |pat| then s
    else if s[..|pat|] == pat then rep + ReplaceAll(s[|pat|..], pat, rep)
    else [s[0]] + ReplaceAll(s[1..], pat, rep)
  }

  /** No character of `w` occurs in `rep`. */
  predicate Disjoint(w: string, rep: string) {
    forall i :: 0 <= i < |w| ==> w[i] !in rep
  }

  /** A string without an occurrence of `pat` is left as it is. */
  lemma {:induction false} ReplaceAllAbsent(s: string, pat: string, rep: string)
    requires pat != [] && forall k: nat :: !MatchesAt(s, pat, k)
    ensures ReplaceAll(s, pat, rep) == s
    decreases |s|
  {
    if |s| >= |pat| {
      assert !MatchesAt(s, pat, 0);
      forall k: nat ensures !MatchesAt(s[1..], pat, k) {
        if MatchesAt(s[1..], pat, k) {
          assert s[1..] == s[1..|s|];
          ContainsSlice(s, pat, 1, |s|, k);
        }
      }
      ReplaceAllAbsent(s[1..], pat, rep);
    }
  }

  /**
   * When the replacement shares no character with the pattern, the result
   * holds no occurrence of the pattern: one pass removes them all.
   */
  lemma {:induction false} ReplaceAllRemoves(s: string, pat: string, rep: string)
    requires pat != [] && rep != [] && Disjoint(pat, rep)
    ensures forall k: nat :: !MatchesAt(ReplaceAll(s, pat, rep), pat, k)
    decreases |s|
  {
    var r := ReplaceAll(s, pat, rep);
    if |s| >= |pat| && s[..|pat|] == pat {
      var t := ReplaceAll(s[|pat|..], pat, rep);
      ReplaceAllRemoves(s[|pat|..], pat, rep);
      assert r == rep + t;
      forall k: nat
        ensures !MatchesAt(r, pat, k)
      {
        if k < |rep| {
          assert r[k] == rep[k] && pat[0] !in rep;
        } else if k + |pat| <= |r| {
          assert r[k..k + |pat|] == t[k - |rep|..k - |rep| + |pat|];
          assert !MatchesAt(t, pat, k - |rep|);
        }
      }
    } else if |s| >= |pat| {
      var t := ReplaceAll(s[1..], pat, rep);
      ReplaceAllRemoves(s[1..], pat, rep);
      assert r == [s[0]] + t;
      forall k: nat
        ensures !MatchesAt(r, pat, k)
      {
        if k == 0 {
          ReplacePrefixBack(s[1..], pat, rep, pat[1..]);
          MatchesCons(s[0], t, pat);
          MatchesCons(s[0], s[1..], pat);
          assert [s[0]] + s[1..] == s;
        } else if k + |pat| <= |r| {
          assert r[k..k + |pat|] == t[k - 1..k - 1 + |pat|];
          assert !MatchesAt(t, pat, k - 1);
        }
      }
    }
  }

  /** A prefix of the result free of replacement characters is a prefix of the input. */
  lemma {:induction false} ReplacePrefixBack(s: string, pat: string, rep: string, w: string)
    requires pat != [] && rep != [] && Disjoint(w, rep)
    ensures MatchesAt(ReplaceAll(s, pat, rep), w, 0) ==> MatchesAt(s, w, 0)
    decreases |s|
  {
    var r := ReplaceAll(s, pat, rep);
    if w != [] && |s| >= |pat| {
      if s[..|pat|] == pat {
        assert r[0] == rep[0] && w[0] !in rep;
      } else {
        var t := ReplaceAll(s[1..], pat, rep);
        assert r == [s[0]] + t;
        ReplacePrefixBack(s[1..], pat, rep, w[1..]);
        MatchesCons(s[0], t, w);
        MatchesCons(s[0], s[1..], w);
        assert [s[0]] + s[1..] == s;
      }
    }
  }

  /** A match at the front of `[c] + t` is `c` followed by a match of the rest at the front of `t`. */
  lemma MatchesCons(c: char, t: string, w: string)
    ensures MatchesAt([c] + t, w, 0) <==> w == [] || (w[0] == c && MatchesAt(t, w[1..], 0))
  {
    if w != [] && MatchesAt(t, w[1..], 0) && w[0] == c {
      assert ([c] + t)[..|w|] == [c] + t[..|w| - 1];
    }
    if w != [] && MatchesAt([c] + t, w, 0) {
      assert ([c] + t)[..|w|] == [c] + t[..|w| - 1];
    }
  }

  /* ------------------------------ clean_str ------------------------------ */

  /** A value an attribute can hold: a string, or anything else (kept opaque). */
  datatype JsValue = JsString(s: string) | JsOther(tag: nat)

  /** The HTML entities `clean_str` decodes, in the order it decodes them. */
  function Unescape(s: string): string {
    var a := ReplaceAll(s, "&amp;", "&");
    var b := ReplaceAll(a, "&lt;", "<");
    var c := ReplaceAll(b, "&gt;", ">");
    var d := ReplaceAll(c, "&quot;", "\"");
    ReplaceAll(d, "&#39;", "'")
  }

  /** The class `["\x00-\x1f\x7f-\x9f]` that `clean_str` deletes. */
  predicate Unwanted(c: char) {
    c == '"' || c <= '\U{001F}' || ('\U{007F}' <= c <= '\U{009F}')
  }

  predicate IsBracket(c: char) {
    c == '<' || c == '>'
  }

  /** What `.` does not match: the line terminators. */
  predicate LineTerminator(c: char) {
    c == '\n' || c == '\r' || c == '\U{2028}' || c == '\U{2029}'
  }

  /** `s.replace(/^<(.+)>$/, "$1")`. */
  function StripOuterBrackets(s: string): (r: string)
    ensures r == s || (|s| >= 3 && s[0] == '<' && s[|s| - 1] == '>' && r == s[1..|s| - 1])
  {
    if |s| >= 3 && s[0] == '<' && s[|s| - 1] == '>'
       && forall i :: 1 <= i < |s| - 1 ==> !LineTerminator(s[i])
    then s[1..|s| - 1]
    else s
  }

  /** `s.replace(/["\x00-\x1f\x7f-\x9f]/g, "")`. */
  function DropUnwanted(s: string): (r: string)
    ensures forall i :: 0 <= i < |r| ==> !Unwanted(r[i])
  {
    var r := Filter(s, c => !Unwanted(c));
    assert forall i :: 0 <= i < |r| ==> r[i] in r;
    r
  }

  /** `s.replace(/[<>]/g, "")`. */
  function DropBrackets(s: string): (r: string)
    ensures forall i :: 0 <= i < |r| ==> !IsBracket(r[i]) && r[i] in s
  {
    var r := Filter(s, c => !IsBracket(c));
    assert forall i :: 0 <= i < |r| ==> r[i] in r;
    r
  }

  /** `clean_str` on a string. */
  function CleanStr(input: string): (r: string)
    ensures forall i :: 0 <= i < |r| ==> !Unwanted(r[i]) && !IsBracket(r[i])
  {
    var kept := DropUnwanted(Unescape(input));
    var stripped := StripOuterBrackets(Trim(kept));
    var r := DropBrackets(stripped);
    CleanChars(kept, stripped, r);
    r
  }

  /** Neither trimming nor stripping the outer brackets brings a deleted character back. */
  lemma CleanChars(kept: string, stripped: string, r: string)
    requires forall i :: 0 <= i < |kept| ==> !Unwanted(kept[i])
    requires stripped == StripOuterBrackets(Trim(kept)) && r == DropBrackets(stripped)
    ensures forall i :: 0 <= i < |r| ==> !Unwanted(r[i])
  {
    forall i | 0 <= i < |r|
      ensures !Unwanted(r[i])
    {
      var c := r[i];
      assert c in stripped;
      assert c in Trim(kept);
      TrimIn(kept, c);
    }
  }

  /** A character of the trimmed string is a character of the string. */
  lemma TrimIn(s: string, c: char)
    requires c in Trim(s)
    ensures c in s
  {
    var t := TrimStart(s);
    assert c in TrimEnd(t);
    var i :| 0 <= i < |TrimEnd(t)| && TrimEnd(t)[i] == c;
    assert t[i] == c;
    assert s[|s| - |t| + i] == c;
  }

  /** `clean_str(input)`: a non-string is returned unchanged. */
  function CleanValue(v: JsValue): (r: JsValue)
    ensures !v.JsString? ==> r == v
    ensures v.JsString? ==> r == JsString(CleanStr(v.s))
  {
    match v
    case JsString(s) => JsString(CleanStr(s))
    case JsOther(_) => v
  }

  lemma {:induction false} FilterAppend<T(!new)>(a: seq<T>, b: seq<T>, p: T -> bool)
    ensures Filter(a + b, p) == Filter(a, p) + Filter(b, p)
    decreases |b|
  {
    if b == [] {
      assert a + b == a;
    } else {
      var b' := b[..|b| - 1];
      assert (a + b)[..|a + b| - 1] == a + b';
      FilterAppend(a, b', p);
    }
  }

  /**
   * Taking off the outer `<` and `>` changes nothing in the end, since the
   * next step removes every bracket anyway.
   */
  lemma StripThenRemove(s: string)
    ensures Filter(StripOuterBrackets(s), c => !IsBracket(c)) == Filter(s, c => !IsBracket(c))
  {
    var p := (c: char) => !IsBracket(c);
    if StripOuterBrackets(s) != s {
      var mid := s[1..|s| - 1];
      assert s == [s[0]] + mid + [s[|s| - 1]];
      FilterAppend([s[0]] + mid, [s[|s| - 1]], p);
      FilterAppend([s[0]], mid, p);
      assert Filter([s[0]], p) == [] by {
        assert [s[0]][..0] == [];
      }
      assert Filter([s[|s| - 1]], p) == [] by {
        assert [s[|s| - 1]][..0] == [];
      }
    }
  }

  /** `&amp;` is decoded first, so a doubly escaped `&amp;lt;` decodes all the way to `<`. */
  lemma UnescapeOrder()
    ensures Unescape("&amp;lt;") == "<"
  {
    assert ReplaceAll("&amp;lt;", "&amp;", "&") == "&lt;" by {
      assert "&amp;lt;"[..5] == "&amp;";
      assert "&amp;lt;"[5..] == "lt;";
    }
    assert ReplaceAll("&lt;", "&lt;", "<") == "<" by {
      assert "&lt;"[..4] == "&lt;";
    }
  }

  /**
   * `clean_str` as three steps: decode, delete the unwanted characters and
   * trim, then delete every bracket (the outer-bracket strip is subsumed).
   */
  lemma CleanStrSteps(input: string)
    ensures CleanStr(input) == DropBrackets(Trim(DropUnwanted(Unescape(input))))
  {
    StripThenRemove(Trim(DropUnwanted(Unescape(input))));
  }

  /** A pattern whose first character does not occur in `s` occurs nowhere in `s`. */
  lemma AbsentHead(s: string, pat: string)
    requires pat != [] && pat[0] !in s
    ensures forall k: nat :: !MatchesAt(s, pat, k)
  {
    forall k: nat ensures !MatchesAt(s, pat, k) {
      if k + |pat| <= |s| {
        assert s[k] in s;
        assert s[k..k + |pat|][0] == s[k];
      }
    }
  }

  /** Without an `&` there is nothing to decode. */
  lemma UnescapePlain(s: string)
    requires '&' !in s
    ensures Unescape(s) == s
  {
    AbsentHead(s, "&amp;");
    ReplaceAllAbsent(s, "&amp;", "&");
    AbsentHead(s, "&lt;");
    ReplaceAllAbsent(s, "&lt;", "<");
    AbsentHead(s, "&gt;");
    ReplaceAllAbsent(s, "&gt;", ">");
    AbsentHead(s, "&quot;");
    ReplaceAllAbsent(s, "&quot;", "\"");
    AbsentHead(s, "&#39;");
    ReplaceAllAbsent(s, "&#39;", "'");
  }

  /**
   * Trimming comes before the brackets go: a plain text wrapped in `<` and
   * `>` comes back exactly, spaces at its ends included (`<A >` gives `A `).
   */
  lemma CleanBracketed(x: string)
    requires '&' !in x
    requires forall i :: 0 <= i < |x| ==> !Unwanted(x[i]) && !IsBracket(x[i])
    ensures CleanStr("<" + x + ">") == x
  {
    var s := "<" + x + ">";
    assert Unescape(s) == s by {
      assert '&' !in s;
      UnescapePlain(s);
    }
    assert DropUnwanted(s) == s by {
      assert forall i :: 0 <= i < |s| ==> !Unwanted(s[i]);
      FilterKeepsAll(s, c => !Unwanted(c));
    }
    assert Trim(s) == s by {
      TrimOfTrimmed(s);
    }
    CleanStrSteps(s);
    DropBracketsWrapped(x);
  }

  /** Deleting the brackets of a bracket-free text wrapped in `<` and `>` gives the text back. */
  lemma DropBracketsWrapped(x: string)
    requires forall i :: 0 <= i < |x| ==> !IsBracket(x[i])
    ensures DropBrackets("<" + x + ">") == x
  {
    var p := (c: char) => !IsBracket(c);
    FilterAppend("<" + x, ">", p);
    FilterAppend("<", x, p);
    FilterKeepsAll(x, p);
    assert Filter("<", p) == [] by {
      assert "<"[..0] == [];
    }
    assert Filter(">", p) == [] by {
      assert ">"[..0] == [];
    }
  }

  /** A filter every element passes changes nothing. */
  lemma {:induction false} FilterKeepsAll<T(!new)>(s: seq<T>, p: T -> bool)
    requires forall i :: 0 <= i < |s| ==> p(s[i])
    ensures Filter(s, p) == s
    decreases |s|
  {
    if s != [] {
      var init := s[..|s| - 1];
      assert forall i :: 0 <= i < |init| ==> init[i] == s[i];
      FilterKeepsAll(init, p);
      assert p(s[|s| - 1]);
      assert init + [s[|s| - 1]] == s;
    }
  }

  /* ------------------------------ split_string_by_multi_markers ------------------------------ */

  /**
   * `split_string_by_multi_markers(content, markers)`: `[content]` without
   * markers; otherwise the pieces between literal markers, blank pieces
   * dropped.
   */
  function SplitByMultiMarkers(content: string, markers: seq<string>): (r: seq<string>)
    requires NonEmptyMarkers(markers)
    ensures markers == [] ==> r == [content]
    ensures markers != [] ==> forall j :: 0 <= j < |r| ==> FreeOf(r[j], markers) && !IsBlank(r[j])
  {
    if markers == [] then [content]
    else
      var pieces := SplitMarkers(content, markers);
      var r := Filter(pieces, (p: string) => Trim(p) != []);
      assert forall j :: 0 <= j < |r| ==> r[j] in pieces;
      r
  }

  /**
   * With one marker, a piece is kept exactly when it is a non-blank piece of
   * `content.split(marker)`; with no blank piece, joining the kept pieces by
   * the marker gives the content back.
   */
  lemma SplitByMultiMarkersOne(content: string, marker: string)
    requires marker != []
    ensures forall x :: x in SplitByMultiMarkers(content, [marker]) <==>
      x in SplitMarkers(content, [marker]) && !IsBlank(x)
    ensures (forall x :: x in SplitMarkers(content, [marker]) ==> !IsBlank(x)) ==>
      Join(SplitByMultiMarkers(content, [marker]), marker) == content
  {
    var pieces := SplitMarkers(content, [marker]);
    var keep := (p: string) => Trim(p) != [];
    if forall x :: x in pieces ==> !IsBlank(x) {
      assert forall i :: 0 <= i < |pieces| ==> pieces[i] in pieces;
      FilterKeepsAll(pieces, keep);
      JoinSplitMarker(content, marker);
    }
  }

  /* ------------------------------ record parsing ------------------------------ */

  /** One entity record. */
  datatype Entity = Entity(entityName: string, entityType: string, description: string, sourceId: string)

  /** One relationship record; `(srcId, tgtId)` is sorted. */
  datatype Relationship = Relationship(srcId: string, tgtId: string, weight: real, description: string,
                                       keywords: string, sourceId: string)

  /** `clean_str(s).toUpperCase()`: how names and types are normalised. */
  function CleanName(s: string): (r: string)
    ensures |r| == |CleanStr(s)|
  {
    Upper(CleanStr(s))
  }

  /** The first attribute, cleaned, names the record kind. */
  predicate IsKind(attr: string, kind: string)
  {
    CleanStr(attr) == kind
  }

  /** `handle_single_entity_extraction(record_attributes, chunk_key)`. */
  function EntityOf(attrs: seq<string>, chunkKey: string): (r: Option<Entity>)
    ensures r.Some? <==> |attrs| >= 4 && CleanStr(attrs[0]) == "entity" && CleanStr(attrs[1]) != []
    ensures r.Some? ==> r.value.entityName == CleanName(attrs[1]) && r.value.entityType == CleanName(attrs[2])
    ensures r.Some? ==> r.value.description == CleanStr(attrs[3]) && r.value.sourceId == chunkKey
  {
    if |attrs| < 4 || CleanStr(attrs[0]) != "entity" then None
    else
      var name := CleanName(attrs[1]);
      if name == [] then None
      else Some(Entity(name, CleanName(attrs[2]), CleanStr(attrs[3]), chunkKey))
  }

  /**
   * `handle_single_relationship_extraction(record_attributes, chunk_key)`.
   * `parseFloat` is the parameter `parseFloat`, `None` standing for `NaN`.
   */
  function RelationshipOf(attrs: seq<string>, chunkKey: string, parseFloat: string -> Option<real>): (r: Option<Relationship>)
    ensures r.Some? <==> |attrs| >= 5 && IsKind(attrs[0], "relationship")
    ensures r.Some? ==> (r.value.srcId, r.value.tgtId) == SortedPair(CleanName(attrs[1]), CleanName(attrs[2]))
    ensures r.Some? ==> r.value.weight == (if parseFloat(attrs[|attrs| - 1]).Some? then parseFloat(attrs[|attrs| - 1]).value else 1.0)
    ensures r.Some? ==> r.value.description == CleanStr(attrs[3]) && r.value.keywords == CleanStr(attrs[4])
    ensures r.Some? ==> r.value.sourceId == chunkKey
  {
    if |attrs| < 5 then None
    else RelationshipFrom(attrs[0], attrs[1], attrs[2], attrs[3], attrs[4], attrs[|attrs| - 1], chunkKey, parseFloat)
  }

  /** The record body once the attribute list is known to be long enough. */
  function RelationshipFrom(kind: string, source: string, target: string, description: string, keywords: string,
                            last: string, chunkKey: string, parseFloat: string -> Option<real>): (r: Option<Relationship>)
    ensures r.Some? <==> IsKind(kind, "relationship")
  {
    if !IsKind(kind, "relationship") then None
    else Some(MakeRelationship(CleanName(source), CleanName(target), CleanStr(description),
                               CleanStr(keywords), parseFloat(last), chunkKey))
  }

  /** The relationship between `source` and `target`, endpoints sorted, weight 1 when unparsable. */
  function MakeRelationship(source: string, target: string, description: string, keywords: string,
                            parsed: Option<real>, chunkKey: string): Relationship
  {
    var pair := SortedPair(source, target);
    Relationship(pair.0, pair.1, if parsed.Some? then parsed.value else 1.0, description, keywords, chunkKey)
  }

  /** The endpoints come out sorted: `srcId` is never after `tgtId`. */
  lemma RelationshipSorted(attrs: seq<string>, chunkKey: string, parseFloat: string -> Option<real>)
    requires RelationshipOf(attrs, chunkKey, parseFloat).Some?
    ensures var r := RelationshipOf(attrs, chunkKey, parseFloat).value;
            r.srcId == r.tgtId || LexLess(r.srcId, r.tgtId)
  {
  }

  /** Swapping the source and target attributes yields the same relationship: the endpoints enter only through their sorted pair. */
  lemma RelationshipFromSwap(kind: string, source: string, target: string, description: string, keywords: string,
                             last: string, chunkKey: string, parseFloat: string -> Option<real>)
    ensures RelationshipFrom(kind, target, source, description, keywords, last, chunkKey, parseFloat)
         == RelationshipFrom(kind, source, target, description, keywords, last, chunkKey, parseFloat)
  {
    SortedPairSymmetric(CleanName(source), CleanName(target));
  }
}
