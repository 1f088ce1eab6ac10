/**
 * The text side of the full-text index: `normalizeText`, the bigram and
 * trigram windows and `extractKeywords`, with the facts the index and the
 * searches rely on.
 */
module SearchText {
  import opened Common
  import opened Strings

  /** A character of the CJK Unified Ideographs block, `[一-鿿]`. */
  predicate IsCjk(c: char) {
    '一' <= c <= '鿿'
  }

  /** `\w` without the `u` flag: ASCII letters, digits and `_`. */
  predicate IsWordChar(c: char) {
    ('a' <= c <= 'z') || ('A' <= c <= 'Z') || ('0' <= c <= '9') || c == '_'
  }

  /** `replace(/[^一-鿿\w\s]/g, " ")` on one character. */
  function Blank(c: char): char {
    if IsCjk(c) || IsWordChar(c) || IsSpace(c) then c else ' '
  }

  function Mask(s: string): (r: string)
    ensures |r| == |s|
  {
    seq(|s|, i requires 0 <= i < |s| => Blank(s[i]))
  }

  /** A character normalised text may hold. */
  predicate NormalChar(c: char) {
    c == ' ' || IsCjk(c) || ('a' <= c <= 'z') || ('0' <= c <= '9') || c == '_'
  }

  /**
   * Normalised text: only spaces, CJK ideographs and lower-case word
   * characters, no space at either end and never two spaces in a row.
   */
  predicate Normal(s: string) {
    && (forall i :: 0 <= i < |s| ==> NormalChar(s[i]))
    && (forall i :: 0 <= i < |s| - 1 ==> !(s[i] == ' ' && s[i + 1] == ' '))
    && (s == [] || (s[0] != ' ' && s[|s| - 1] != ' '))
  }

  /**
   * `normalizeText`: lower-case, every character other than an ideograph, a
   * word character or white space becomes a space, white-space runs become
   * one space, and the ends are trimmed.
   */
  function Normalize(text: string): string {
    Trim(CollapseWs(Mask(Lower(text))))
  }

  /**
   * Normalised text is normal and keeps, in order, every non-white-space
   * character of the masked text.
   */
  lemma NormalizeLaws(text: string)
    ensures Normal(Normalize(text))
    ensures Squeeze(Normalize(text)) == Squeeze(Mask(Lower(text)))
  {
    var m := Mask(Lower(text));
    var c := CollapseWs(m);
    CollapseSingleSpaces(m);
    CollapseSqueeze(m);
    assert forall i :: 0 <= i < |c| && !IsSpace(c[i]) ==> NormalChar(c[i]) by {
      CollapseKeeps(m);
      MaskLowerChars(text);
    }
    TrimNormal(c);
  }

  /** Every character of the masked, lower-cased text is normal or white space. */
  lemma MaskLowerChars(text: string)
    ensures forall c :: c in Mask(Lower(text)) ==> NormalChar(c) || IsSpace(c)
  {
    var m := Mask(Lower(text));
    forall c | c in m
      ensures NormalChar(c) || IsSpace(c)
    {
      var i :| 0 <= i < |m| && m[i] == c;
      assert c == Blank(LowerChar(text[i]));
    }
  }

  /** What collapsing keeps besides single spaces comes from the input. */
  lemma {:induction false} CollapseKeeps(s: string)
    ensures forall i :: 0 <= i < |CollapseWs(s)| && !IsSpace(CollapseWs(s)[i]) ==> CollapseWs(s)[i] in s
    decreases |s|
  {
    if s != [] {
      var c := CollapseWs(s);
      if IsSpace(s[0]) {
        var t := TrimStart(s);
        CollapseKeeps(t);
        assert c == " " + CollapseWs(t);
        assert forall x :: x in t ==> x in s;
      } else {
        CollapseKeeps(s[1..]);
        assert c == [s[0]] + CollapseWs(s[1..]);
        assert forall x :: x in s[1..] ==> x in s;
      }
    }
  }

  /** `Trim` cuts a prefix and a suffix: what is left is a slice. */
  lemma TrimSlice(s: string) returns (k: nat)
    ensures k + |Trim(s)| <= |s| && Trim(s) == s[k..k + |Trim(s)|]
  {
    var a := TrimStart(s);
    k := |s| - |a|;
  }

  /** Trimming the collapsed masked text leaves normal text. */
  lemma TrimNormal(c: string)
    requires OnlySingleSpaces(c)
    requires forall i :: 0 <= i < |c| && !IsSpace(c[i]) ==> NormalChar(c[i])
    ensures Normal(Trim(c))
  {
    var r := Trim(c);
    var k := TrimSlice(c);
    assert forall i :: 0 <= i < |r| ==> r[i] == c[k + i];
  }

  /** Normal text is left as it is. */
  lemma NormalFixed(s: string)
    requires Normal(s)
    ensures Normalize(s) == s
  {
    assert Lower(s) == s;
    assert Mask(s) == s;
    assert OnlySingleSpaces(s);
    CollapsedFixed(s);
    TrimOfTrimmed(s);
  }

  /** Normalising twice is normalising once. */
  lemma NormalizeIdempotent(text: string)
    ensures Normalize(Normalize(text)) == Normalize(text)
  {
    NormalizeLaws(text);
    NormalFixed(Normalize(text));
  }

  /** `w.trim().length === |w|`: `w` has no white space at either end. */
  lemma {:induction false} TrimFull(w: string)
    ensures |Trim(w)| == |w| <==> w == [] || (!IsSpace(w[0]) && !IsSpace(w[|w| - 1]))
  {
    if w != [] && !IsSpace(w[0]) && !IsSpace(w[|w| - 1]) {
      TrimOfTrimmed(w);
    }
    if |Trim(w)| == |w| && w != [] {
      var a := TrimStart(w);
      assert |a| == |w|;
      assert TrimEnd(a) == a;
    }
  }

  /**
   * The window of length `n` at `i` is kept: it has no white space at either
   * end, which is what `w.trim().length === n` tests (`TrimFull`).
   */
  predicate KeptWindow(text: string, n: nat, i: nat)
    requires 1 <= n && i + n <= |text|
  {
    !IsSpace(text[i]) && !IsSpace(text[i + n - 1])
  }

  /** The kept windows of length `n` starting before `k`, in order. */
  function Windows(text: string, n: nat, k: nat): seq<string>
    requires n >= 1 && (k == 0 || k + n <= |text| + 1)
    decreases k
  {
    if k == 0 then []
    else Windows(text, n, k - 1) + (if KeptWindow(text, n, k - 1) then [text[k - 1..k - 1 + n]] else [])
  }

  /** How many windows of length `n` the loop `i < text.length - (n - 1)` visits. */
  function WindowCount(len: nat, n: nat): (c: nat)
    requires n >= 1
    ensures c == 0 || c + n <= len + 1
  {
    if len + 1 >= n then len + 1 - n else 0
  }

  /** `w` is the substring of `text` of length `|w|` at `i`. */
  predicate At(text: string, w: string, i: nat) {
    i + |w| <= |text| && text[i..i + |w|] == w
  }

  /** `generateBigrams`. */
  function Bigrams(text: string): seq<string> {
    Windows(text, 2, WindowCount(|text|, 2))
  }

  /** `generateTrigrams`. */
  function Trigrams(text: string): seq<string> {
    Windows(text, 3, WindowCount(|text|, 3))
  }

  /** There are at most `k` windows, each of length `n` with no white space at its ends. */
  lemma {:induction false} WindowsShape(text: string, n: nat, k: nat)
    requires n >= 1 && (k == 0 || k + n <= |text| + 1)
    ensures |Windows(text, n, k)| <= k
    ensures forall w :: w in Windows(text, n, k) ==> |w| == n && !IsSpace(w[0]) && !IsSpace(w[n - 1])
    decreases k
  {
    if k > 0 {
      WindowsShape(text, n, k - 1);
      InSnoc(Windows(text, n, k - 1), KeptWindow(text, n, k - 1), text[k - 1..k - 1 + n]);
    }
  }

  /** Every window is the substring at some start position before `k`. */
  lemma {:induction false} WindowsFrom(text: string, n: nat, k: nat)
    requires n >= 1 && (k == 0 || k + n <= |text| + 1)
    ensures forall w :: w in Windows(text, n, k) ==> exists i :: 0 <= i < k && At(text, w, i)
    decreases k
  {
    if k > 0 {
      WindowsFrom(text, n, k - 1);
      var w := text[k - 1..k - 1 + n];
      assert At(text, w, k - 1);
      InSnoc(Windows(text, n, k - 1), KeptWindow(text, n, k - 1), w);
    }
  }

  /** Each kept start position before `k` contributes its window. */
  lemma {:induction false} WindowsComplete(text: string, n: nat, k: nat)
    requires n >= 1 && (k == 0 || k + n <= |text| + 1)
    ensures forall i :: 0 <= i < k && KeptWindow(text, n, i) ==> text[i..i + n] in Windows(text, n, k)
    decreases k
  {
    if k > 0 {
      WindowsComplete(text, n, k - 1);
      InSnoc(Windows(text, n, k - 1), KeptWindow(text, n, k - 1), text[k - 1..k - 1 + n]);
    }
  }

  /** Membership in a sequence extended by an optional last element. */
  lemma InSnoc(s: seq<string>, b: bool, w: string)
    ensures forall x :: x in s + (if b then [w] else []) <==> x in s || (b && x == w)
  {
  }

  /** Bigrams are the white-space-free two-character substrings, at most `|text| - 1` of them. */
  lemma BigramsLaws(text: string)
    ensures |Bigrams(text)| <= WindowCount(|text|, 2)
    ensures forall w :: w in Bigrams(text) ==> |w| == 2 && NoSpace(w)
    ensures forall i :: 0 <= i < |text| - 1 && !IsSpace(text[i]) && !IsSpace(text[i + 1]) ==> text[i..i + 2] in Bigrams(text)
  {
    var k := WindowCount(|text|, 2);
    WindowsShape(text, 2, k);
    WindowsComplete(text, 2, k);
    forall w | w in Bigrams(text)
      ensures NoSpace(w)
    {
      assert |w| == 2 && !IsSpace(w[0]) && !IsSpace(w[1]);
    }
    forall i | 0 <= i < |text| - 1 && !IsSpace(text[i]) && !IsSpace(text[i + 1])
      ensures text[i..i + 2] in Bigrams(text)
    {
      assert i < k && KeptWindow(text, 2, i);
    }
  }

  /** Trigrams need only their first and last characters to be non-space. */
  lemma TrigramsLaws(text: string)
    ensures |Trigrams(text)| <= WindowCount(|text|, 3)
    ensures forall w :: w in Trigrams(text) ==> |w| == 3 && !IsSpace(w[0]) && !IsSpace(w[2])
    ensures forall i :: 0 <= i < |text| - 2 && !IsSpace(text[i]) && !IsSpace(text[i + 2]) ==> text[i..i + 3] in Trigrams(text)
  {
    var k := WindowCount(|text|, 3);
    WindowsShape(text, 3, k);
    WindowsComplete(text, 3, k);
    forall i | 0 <= i < |text| - 2 && !IsSpace(text[i]) && !IsSpace(text[i + 2])
      ensures text[i..i + 3] in Trigrams(text)
    {
      assert i < k && KeptWindow(text, 3, i);
    }
  }

  /** Text without white space yields one bigram per position, repeats included. */
  lemma {:induction false} SolidBigrams(text: string, k: nat)
    requires NoSpace(text) && k + 2 <= |text| + 1
    ensures |Windows(text, 2, k)| == k
    ensures forall i :: 0 <= i < k ==> Windows(text, 2, k)[i] == text[i..i + 2]
    decreases k
  {
    if k > 0 {
      SolidBigrams(text, k - 1);
    }
  }

  /** The one-character strings of the ideographs of `text`, in order: `text.match(/[一-鿿]/g) || []`. */
  function CjkChars(text: string): (r: seq<string>)
    ensures forall w :: w in r <==> |w| == 1 && IsCjk(w[0]) && w[0] in text
    decreases |text|
  {
    if text == [] then []
    else
      var init := CjkChars(text[..|text| - 1]);
      var c := text[|text| - 1];
      assert forall x :: x in text <==> x in text[..|text| - 1] || x == c;
      forall w | |w| == 1 && w[0] == c
        ensures w == [c]
      {
      }
      if IsCjk(c) then init + [[c]] else init
  }

  /** A word long enough to be a keyword. */
  predicate Long(w: string) {
    |w| >= 2
  }

  /** `extractKeywords`: the long tokens, then the ideographs, without repeats. */
  function Keywords(text: string): seq<string> {
    Dedup(Filter(SplitWs(text), Long) + CjkChars(text))
  }

  /**
   * The keywords are, without repeats, exactly the white-space tokens of at
   * least two characters and the ideographs of the text.
   */
  lemma KeywordsLaws(text: string)
    ensures Distinct(Keywords(text))
    ensures forall w :: w in Keywords(text) <==> (w in SplitWs(text) && |w| >= 2) || (|w| == 1 && IsCjk(w[0]) && w[0] in text)
  {
  }

  /** A keyword has no white space. */
  lemma KeywordsSolid(text: string)
    ensures forall w :: w in Keywords(text) ==> w != [] && NoSpace(w)
  {
    KeywordsLaws(text);
    forall w | w in Keywords(text)
      ensures w != [] && NoSpace(w)
    {
      KeywordSolid(text, w);
    }
  }

  lemma KeywordSolid(text: string, w: string)
    requires (w in SplitWs(text) && |w| >= 2) || (|w| == 1 && IsCjk(w[0]))
    ensures w != [] && NoSpace(w)
  {
    var parts := SplitWs(text);
    if w in parts {
      var k :| 0 <= k < |parts| && parts[k] == w;
      assert NoSpace(parts[k]);
    } else {
      assert !IsSpace(w[0]);
    }
  }
}
