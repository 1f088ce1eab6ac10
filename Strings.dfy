/**
 * The string operations the JavaScript sources lean on: the `\s` character
 * class, `trim`, ASCII case mapping, `replace(/\s+/g, " ")`, `split(/\s+/)`,
 * `includes`, and `split` on literal markers (a string or an escaped regex
 * alternation), each with the facts the rest of the model needs.
 */
module Strings {
  import opened Common

  /** The characters JavaScript's `\s` and `String.prototype.trim` treat as white space. */
  predicate IsSpace(c: char) {
    c == ' ' || c == '\t' || c == '\n' || c == '\r' || c == '\U{000B}' || c == '\U{000C}'
    || c == '\U{00A0}' || c == '\U{1680}' || ('\U{2000}' <= c <= '\U{200A}')
    || c == '\U{2028}' || c == '\U{2029}' || c == '\U{202F}' || c == '\U{205F}'
    || c == '\U{3000}' || c == '\U{FEFF}'
  }

  predicate NoSpace(s: string) {
    forall i :: 0 <= i < |s| ==> !IsSpace(s[i])
  }

  /** `s` with the white space removed: what survives whitespace-only edits. */
  function Squeeze(s: string): string
    decreases |s|
  {
    if s == [] then [] else if IsSpace(s[0]) then Squeeze(s[1..]) else [s[0]] + Squeeze(s[1..])
  }

  lemma {:induction false} SqueezeAppend(a: string, b: string)
    ensures Squeeze(a + b) == Squeeze(a) + Squeeze(b)
    decreases |a|
  {
    if a == [] {
      assert a + b == b;
    } else {
      assert (a + b)[1..] == a[1..] + b;
      SqueezeAppend(a[1..], b);
    }
  }

  function TrimStart(s: string): (r: string)
    ensures |r| <= |s| && r == s[|s| - |r|..]
    ensures r == [] || !IsSpace(r[0])
    ensures forall i :: 0 <= i < |s| - |r| ==> IsSpace(s[i])
    decreases |s|
  {
    if s != [] && IsSpace(s[0]) then TrimStart(s[1..]) else s
  }

  function TrimEnd(s: string): (r: string)
    ensures |r| <= |s| && r == s[..|r|]
    ensures r == [] || !IsSpace(r[|r| - 1])
    ensures forall i :: |r| <= i < |s| ==> IsSpace(s[i])
    decreases |s|
  {
    if s != [] && IsSpace(s[|s| - 1]) then TrimEnd(s[..|s| - 1]) else s
  }

  /** `s.trim()`: no white space left at either end, and only white space cut off. */
  function Trim(s: string): (r: string)
    ensures r == [] || (!IsSpace(r[0]) && !IsSpace(r[|r| - 1]))
    ensures |r| <= |s|
    ensures Squeeze(r) == Squeeze(s)
  {
    TrimStartSqueeze(s);
    TrimEndSqueeze(TrimStart(s));
    TrimEnd(TrimStart(s))
  }

  lemma {:induction false} TrimStartSqueeze(s: string)
    ensures Squeeze(TrimStart(s)) == Squeeze(s)
    decreases |s|
  {
    if s != [] && IsSpace(s[0]) {
      TrimStartSqueeze(s[1..]);
    }
  }

  lemma {:induction false} TrimEndSqueeze(s: string)
    ensures Squeeze(TrimEnd(s)) == Squeeze(s)
    decreases |s|
  {
    if s != [] && IsSpace(s[|s| - 1]) {
      var init := s[..|s| - 1];
      TrimEndSqueeze(init);
      SqueezeAppend(init, [s[|s| - 1]]);
      assert s == init + [s[|s| - 1]];
    }
  }

  lemma {:induction false} SqueezeSpaces(s: string)
    requires forall i :: 0 <= i < |s| ==> IsSpace(s[i])
    ensures Squeeze(s) == []
    decreases |s|
  {
    if s != [] {
      SqueezeSpaces(s[1..]);
    }
  }

  /** A string whose first and last characters are not white space is its own trim. */
  lemma TrimOfTrimmed(s: string)
    requires s == [] || (!IsSpace(s[0]) && !IsSpace(s[|s| - 1]))
    ensures Trim(s) == s
  {
  }

  predicate IsBlank(s: string) {
    Trim(s) == []
  }

  function LowerChar(c: char): char {
    if 'A' <= c <= 'Z' then (c as int + 32) as char else c
  }

  function UpperChar(c: char): char {
    if 'a' <= c <= 'z' then (c as int - 32) as char else c
  }

  /** `toLowerCase()` on the ASCII letters. */
  function Lower(s: string): (r: string)
    ensures |r| == |s|
  {
    seq(|s|, i requires 0 <= i < |s| => LowerChar(s[i]))
  }

  /** `toUpperCase()` on the ASCII letters. */
  function Upper(s: string): (r: string)
    ensures |r| == |s|
  {
    seq(|s|, i requires 0 <= i < |s| => UpperChar(s[i]))
  }

  lemma LowerAppend(a: string, b: string)
    ensures Lower(a + b) == Lower(a) + Lower(b)
  {
  }

  /** `s.replace(/\s+/g, " ")`: every run of white space becomes one space. */
  function CollapseWs(s: string): (r: string)
    ensures |r| <= |s|
    ensures s != [] ==> r != [] && (IsSpace(r[0]) <==> IsSpace(s[0]))
    decreases |s|
  {
    if s == [] then []
    else if IsSpace(s[0]) then " " + CollapseWs(TrimStart(s))
    else [s[0]] + CollapseWs(s[1..])
  }

  /** After collapsing, the only white space is single spaces, never two in a row. */
  lemma {:induction false} CollapseSingleSpaces(s: string)
    ensures OnlySingleSpaces(CollapseWs(s))
    decreases |s|
  {
    if s != [] {
      var c, r;
      if IsSpace(s[0]) {
        var t := TrimStart(s);
        CollapseSingleSpaces(t);
        c := CollapseWs(t);
        r := " " + c;
        assert c != [] ==> !IsSpace(c[0]);
      } else {
        CollapseSingleSpaces(s[1..]);
        c := CollapseWs(s[1..]);
        r := [s[0]] + c;
      }
      assert r == CollapseWs(s);
      assert forall i :: 1 <= i < |r| ==> r[i] == c[i - 1];
      forall i | 0 <= i < |r| && IsSpace(r[i])
        ensures r[i] == ' '
      {
        if i > 0 {
          assert IsSpace(c[i - 1]);
        }
      }
      forall i | 0 <= i < |r| - 1
        ensures !(r[i] == ' ' && r[i + 1] == ' ')
      {
        if i > 0 {
          assert r[i] == c[i - 1] && r[i + 1] == c[i];
        }
      }
    }
  }

  /** The only white space is single spaces, never two in a row. */
  predicate OnlySingleSpaces(s: string) {
    (forall i :: 0 <= i < |s| && IsSpace(s[i]) ==> s[i] == ' ')
    && (forall i :: 0 <= i < |s| - 1 ==> !(s[i] == ' ' && s[i + 1] == ' '))
  }

  /** Collapsing keeps every non-white-space character, in order. */
  lemma {:induction false} CollapseSqueeze(s: string)
    ensures Squeeze(CollapseWs(s)) == Squeeze(s)
    decreases |s|
  {
    if s != [] {
      if IsSpace(s[0]) {
        var t := TrimStart(s);
        CollapseSqueeze(t);
        TrimStartSqueeze(s);
        assert Squeeze(" " + CollapseWs(t)) == Squeeze(CollapseWs(t));
      } else {
        CollapseSqueeze(s[1..]);
        assert Squeeze([s[0]] + CollapseWs(s[1..])) == [s[0]] + Squeeze(CollapseWs(s[1..]));
      }
    }
  }

  /** The last character of the result is white space exactly when that of the input is. */
  lemma {:induction false} CollapseLast(s: string)
    requires s != []
    ensures IsSpace(CollapseWs(s)[|CollapseWs(s)| - 1]) <==> IsSpace(s[|s| - 1])
    decreases |s|
  {
    if IsSpace(s[0]) {
      var t := TrimStart(s);
      if t != [] {
        CollapseLast(t);
        assert t[|t| - 1] == s[|s| - 1];
      } else {
        assert IsSpace(s[|s| - 1]);
      }
    } else if |s| > 1 {
      CollapseLast(s[1..]);
    }
  }

  /** Collapsing twice is collapsing once. */
  lemma CollapseIdempotent(s: string)
    ensures CollapseWs(CollapseWs(s)) == CollapseWs(s)
  {
    CollapseSingleSpaces(s);
    CollapsedFixed(CollapseWs(s));
  }

  /** A string whose only white space is single spaces is collapsed already. */
  lemma {:induction false} CollapsedFixed(s: string)
    requires OnlySingleSpaces(s)
    ensures CollapseWs(s) == s
    decreases |s|
  {
    if s != [] {
      if IsSpace(s[0]) {
        assert TrimStart(s) == s[1..] by {
          if |s| > 1 {
            assert !IsSpace(s[1]);
            assert TrimStart(s) == TrimStart(s[1..]);
          }
        }
      }
      CollapsedFixed(s[1..]);
    }
  }

  /** Index of the first white-space character at or after `i`, or `|s|`. */
  function NextSpace(s: string, i: nat): (j: nat)
    requires i <= |s|
    ensures i <= j <= |s|
    ensures j < |s| ==> IsSpace(s[j])
    ensures forall k :: i <= k < j ==> !IsSpace(s[k])
    decreases |s| - i
  {
    if i == |s| || IsSpace(s[i]) then i else NextSpace(s, i + 1)
  }

  /** `s.split(/\s+/)`: maximal white-space runs separate the pieces; leading or trailing runs give "" pieces. */
  function SplitWs(s: string): (r: seq<string>)
    ensures |r| >= 1
    ensures forall k :: 0 <= k < |r| ==> NoSpace(r[k])
    decreases |s|
  {
    var j := NextSpace(s, 0);
    if j == |s| then [s]
    else
      var rest := TrimStart(s[j..]);
      [s[..j]] + SplitWs(rest)
  }

  /** `parts.join(sep)`. */
  function Join(parts: seq<string>, sep: string): string
    decreases |parts|
  {
    if parts == [] then [] else if |parts| == 1 then parts[0] else parts[0] + sep + Join(parts[1..], sep)
  }

  /** Joining a first piece onto a non-empty rest puts one separator between them. */
  lemma JoinCons(first: string, rest: seq<string>, sep: string)
    requires rest != []
    ensures Join([first] + rest, sep) == first + sep + Join(rest, sep)
  {
    assert ([first] + rest)[1..] == rest;
  }

  /** Joining a non-empty list with one more piece adds a separator and the piece at the end. */
  lemma {:induction false} JoinSnoc(parts: seq<string>, x: string, sep: string)
    requires parts != []
    ensures Join(parts + [x], sep) == Join(parts, sep) + sep + x
    decreases |parts|
  {
    var first, rest := parts[0], parts[1..];
    assert parts == [first] + rest;
    if rest == [] {
      assert parts + [x] == [first] + [x];
      JoinCons(first, [x], sep);
    } else {
      assert parts + [x] == [first] + (rest + [x]);
      JoinCons(first, rest + [x], sep);
      JoinSnoc(rest, x, sep);
      JoinCons(first, rest, sep);
      var j := Join(rest, sep);
      ConcatAssoc(first + sep, j, sep + x);
      ConcatAssoc(first + sep + j, sep, x);
      ConcatAssoc(j, sep, x);
    }
  }

  /** Splitting on white space and joining with single spaces is collapsing white space. */
  lemma {:induction false} JoinSplitWs(s: string)
    ensures Join(SplitWs(s), " ") == CollapseWs(s)
    decreases |s|
  {
    var j := NextSpace(s, 0);
    if j < |s| {
      var rest := TrimStart(s[j..]);
      JoinSplitWs(rest);
      JoinSplitWsStep(s, j, rest);
    } else {
      assert SplitWs(s) == [s];
      CollapsePrefix(s, j);
      assert s[j..] == [];
    }
  }

  /** The inductive step: the first piece, one space, then the rest collapsed. */
  lemma JoinSplitWsStep(s: string, j: nat, rest: string)
    requires j == NextSpace(s, 0) && j < |s| && rest == TrimStart(s[j..])
    requires Join(SplitWs(rest), " ") == CollapseWs(rest)
    ensures Join(SplitWs(s), " ") == CollapseWs(s)
  {
    var first, tail, t := s[..j], SplitWs(rest), s[j..];
    assert SplitWs(s) == [first] + tail;
    JoinCons(first, tail, " ");
    assert t != [] && IsSpace(t[0]) && TrimStart(t) == rest;
    assert CollapseWs(t) == " " + CollapseWs(rest);
    CollapsePrefix(s, j);
    ConcatAssoc(first, " ", CollapseWs(rest));
  }

  /** Collapsing passes a white-space-free prefix through unchanged. */
  lemma {:induction false} CollapsePrefix(s: string, j: nat)
    requires j <= |s| && forall k :: 0 <= k < j ==> !IsSpace(s[k])
    ensures CollapseWs(s) == s[..j] + CollapseWs(s[j..])
    decreases j
  {
    if j > 0 {
      var t := s[1..];
      CollapsePrefix(t, j - 1);
      assert t[j - 1..] == s[j..];
      assert s[..j] == [s[0]] + t[..j - 1];
      assert CollapseWs(s) == [s[0]] + CollapseWs(t);
      ConcatAssoc([s[0]], t[..j - 1], CollapseWs(s[j..]));
    }
  }

  /** `s.substr(i).startsWith(t)` */
  predicate MatchesAt(s: string, t: string, i: nat) {
    i + |t| <= |s| && s[i..i + |t|] == t
  }

  /** The index of the first occurrence of `t` at or after `i` (`indexOf(t, i)`). */
  function FindFrom(s: string, t: string, i: nat): (r: Option<nat>)
    ensures r.Some? ==> i <= r.value && MatchesAt(s, t, r.value)
    ensures r.Some? ==> forall k :: i <= k < r.value ==> !MatchesAt(s, t, k)
    ensures r.None? ==> forall k :: i <= k ==> !MatchesAt(s, t, k)
    decreases |s| - i
  {
    if i + |t| > |s| then None
    else if s[i..i + |t|] == t then Some(i)
    else FindFrom(s, t, i + 1)
  }

  /** `s.includes(t)` */
  predicate Contains(s: string, t: string) {
    FindFrom(s, t, 0).Some?
  }

  lemma ContainsIff(s: string, t: string)
    ensures Contains(s, t) <==> exists k :: MatchesAt(s, t, k)
  {
    var r := FindFrom(s, t, 0);
    if r.Some? {
      assert MatchesAt(s, t, r.value);
    }
  }

  /** A slice of a string containing `t` contains it too at the shifted index. */
  lemma ContainsSlice(s: string, t: string, lo: nat, hi: nat, k: nat)
    requires lo <= hi <= |s| && MatchesAt(s[lo..hi], t, k)
    ensures MatchesAt(s, t, lo + k)
  {
    forall x | 0 <= x < |t|
      ensures s[lo + k + x] == t[x]
    {
      assert s[lo..hi][k + x] == s[lo + k + x];
    }
    assert s[lo + k..lo + k + |t|] == t;
  }

  /** Index of the first marker that matches at position `p` (regex alternation order). */
  function MarkerAt(s: string, markers: seq<string>, p: nat): (r: Option<nat>)
    ensures r.Some? ==> r.value < |markers| && MatchesAt(s, markers[r.value], p)
    ensures r.None? ==> forall k :: 0 <= k < |markers| ==> !MatchesAt(s, markers[k], p)
    decreases |markers|
  {
    if markers == [] then None
    else if MatchesAt(s, markers[0], p) then Some(0)
    else
      match MarkerAt(s, markers[1..], p)
      case None => None
      case Some(k) => Some(k + 1)
  }

  /** The leftmost position at or after `i` where some marker matches, with that marker. */
  function NextMarker(s: string, markers: seq<string>, i: nat): (r: Option<(nat, nat)>)
    requires i <= |s| && NonEmptyMarkers(markers)
    ensures r.Some? ==> i <= r.value.0 && r.value.1 < |markers| && MatchesAt(s, markers[r.value.1], r.value.0)
    ensures r.Some? ==> forall p, k :: i <= p < r.value.0 && 0 <= k < |markers| ==> !MatchesAt(s, markers[k], p)
    ensures r.None? ==> forall p, k :: i <= p <= |s| && 0 <= k < |markers| ==> !MatchesAt(s, markers[k], p)
    decreases |s| - i
  {
    if i == |s| then None
    else
      match MarkerAt(s, markers, i)
      case Some(k) => Some((i, k))
      case None => NextMarker(s, markers, i + 1)
  }

  predicate NonEmptyMarkers(markers: seq<string>) {
    forall k :: 0 <= k < |markers| ==> markers[k] != []
  }

  /** No marker occurs anywhere in `s`. */
  predicate FreeOf(s: string, markers: seq<string>) {
    forall p, k :: 0 <= p <= |s| && 0 <= k < |markers| ==> !MatchesAt(s, markers[k], p)
  }

  /**
   * `s.split(re)` where `re` is the literal markers joined by `|`: the leftmost
   * match wins, and at one position the earliest marker in the list.
   */
  function SplitMarkers(s: string, markers: seq<string>): (r: seq<string>)
    requires NonEmptyMarkers(markers)
    ensures |r| >= 1
    ensures forall j :: 0 <= j < |r| ==> FreeOf(r[j], markers)
    decreases |s|
  {
    match NextMarker(s, markers, 0)
    case None => [s]
    case Some((p, k)) =>
      var piece := s[..p];
      assert FreeOf(piece, markers) by {
        forall q, k' | 0 <= q <= |piece| && 0 <= k' < |markers|
          ensures !MatchesAt(piece, markers[k'], q)
        {
          if MatchesAt(piece, markers[k'], q) {
            ContainsSlice(s, markers[k'], 0, p, q);
          }
        }
      }
      [piece] + SplitMarkers(s[p + |markers[k]|..], markers)
  }

  /** Splitting on one marker and joining with it gives back the string. */
  lemma {:induction false} JoinSplitMarker(s: string, sep: string)
    requires sep != []
    ensures Join(SplitMarkers(s, [sep]), sep) == s
    decreases |s|
  {
    match NextMarker(s, [sep], 0)
    case None =>
    case Some((p, k)) =>
      var rest := s[p + |sep|..];
      JoinSplitMarker(rest, sep);
      JoinSplitMarkerStep(s, sep, p, rest);
  }

  /** The inductive step: the piece before the first marker, the marker, then the rest. */
  lemma JoinSplitMarkerStep(s: string, sep: string, p: nat, rest: string)
    requires sep != [] && NextMarker(s, [sep], 0) == Some((p, 0))
    requires rest == s[p + |sep|..] && Join(SplitMarkers(rest, [sep]), sep) == rest
    ensures Join(SplitMarkers(s, [sep]), sep) == s
  {
    assert SplitMarkers(s, [sep]) == [s[..p]] + SplitMarkers(rest, [sep]);
    JoinCons(s[..p], SplitMarkers(rest, [sep]), sep);
    assert s == s[..p] + sep + rest;
  }

  function Repeat(c: char, n: nat): (r: string)
    ensures |r| == n && forall i :: 0 <= i < n ==> r[i] == c
  {
    seq(n, _ => c)
  }

  /**
   * The text that the replacement string `rep` stands for when
   * `s.replace(pat, rep)` finds `pat` at `pos`, `len` characters long: the
   * GetSubstitution operation of ECMAScript for a string pattern, which has
   * no capture groups. `$$` is one `$`, `$&` the matched text, `` $` `` the
   * text before the match and `$'` the text after it. Every other character
   * stands for itself, including a `$` before a digit or `<`.
   */
  function Substitution(rep: string, s: string, pos: nat, len: nat): string
    requires pos + len <= |s|
    decreases |rep|
  {
    if rep == [] then []
    else if |rep| >= 2 && rep[0] == '$' && rep[1] == '$' then "$" + Substitution(rep[2..], s, pos, len)
    else if |rep| >= 2 && rep[0] == '$' && rep[1] == '&' then s[pos..pos + len] + Substitution(rep[2..], s, pos, len)
    else if |rep| >= 2 && rep[0] == '$' && rep[1] == '`' then s[..pos] + Substitution(rep[2..], s, pos, len)
    else if |rep| >= 2 && rep[0] == '$' && rep[1] == '\'' then s[pos + len..] + Substitution(rep[2..], s, pos, len)
    else [rep[0]] + Substitution(rep[1..], s, pos, len)
  }

  /** A replacement without `$` stands for itself. */
  lemma {:induction false} SubstitutionPlain(rep: string, s: string, pos: nat, len: nat)
    requires pos + len <= |s| && '$' !in rep
    ensures Substitution(rep, s, pos, len) == rep
    decreases |rep|
  {
    if rep != [] {
      assert rep[0] != '$' && '$' !in rep[1..];
      SubstitutionPlain(rep[1..], s, pos, len);
    }
  }

  /** `"$$"`, `"$&"`, `` "$`" `` and `"$'"` stand for a dollar, the match, the text before it and the text after it. */
  lemma SubstitutionPatterns(s: string, pos: nat, len: nat)
    requires pos + len <= |s|
    ensures Substitution("$$", s, pos, len) == "$"
    ensures Substitution("$&", s, pos, len) == s[pos..pos + len]
    ensures Substitution("$`", s, pos, len) == s[..pos]
    ensures Substitution("$'", s, pos, len) == s[pos + len..]
    ensures Substitution("$1", s, pos, len) == "$1"
  {
    assert "$$"[2..] == [] && "$&"[2..] == [] && "$`"[2..] == [] && "$'"[2..] == [];
    assert "$1"[1..] == "1" && "1"[1..] == [];
  }

  /**
   * `s.replace(pat, rep)` with a string pattern: only the first occurrence
   * is replaced, by what `rep` stands for there.
   */
  function ReplaceFirst(s: string, pat: string, rep: string): string {
    match FindFrom(s, pat, 0)
    case None => s
    case Some(i) => s[..i] + Substitution(rep, s, i, |pat|) + s[i + |pat|..]
  }
}
