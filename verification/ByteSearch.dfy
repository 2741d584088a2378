/**
 The byte and text matchers behind "find packet" (file.c): match_binary,
 match_narrow, match_wide, match_narrow_and_wide, and the loop that
 match_subtree_text and match_summary_line share.

 The first three find the leftmost occurrence.  The last two are sound, but
 their way of resuming after a mismatch loses occurrences; for each of them the
 exact class of patterns for which nothing is lost is proved.
 */
module ByteSearch {
  import opened Basics

  datatype MatchResult = NotMatched | Matched | ReadError

  function ToUpper(c: byte): byte {
    if 'a' as int <= c <= 'z' as int then c - 32 else c
  }

  /** What the matchers compare: the buffer, upper-cased when the search ignores case. */
  function Folded(ignoreCase: bool, pd: seq<byte>): (b: seq<byte>)
    ensures |b| == |pd|
  {
    if ignoreCase then seq(|pd|, i requires 0 <= i < |pd| => ToUpper(pd[i])) else pd
  }

  /* ---------- occurrences ---------- */

  predicate NarrowAt(b: seq<byte>, text: seq<byte>, s: nat) {
    s + |text| <= |b| && b[s..s + |text|] == text
  }

  lemma NotHere(b: seq<byte>, text: seq<byte>, s: nat, k: nat)
    requires k < |text| && s + k < |b| && b[s + k] != text[k]
    ensures !NarrowAt(b, text, s)
  {
    assert s + |text| <= |b| ==> b[s..s + |text|][k] == b[s + k];
  }

  /**
   Byte p of a packet counts as character c of the text: it is c; and when case is ignored, a
   small letter counts as the capital one and never as itself, so that the text must hold capitals.
   */
  predicate CountsAs(ignoreCase: bool, p: byte, c: byte) {
    if ignoreCase && 97 <= p <= 122 then 65 <= c <= 90 && p == c + 32 else p == c
  }

  /** The text stands in the packet at s. */
  predicate TextAt(ignoreCase: bool, pd: seq<byte>, text: seq<byte>, s: nat) {
    s + |text| <= |pd| && forall k: nat | k < |text| :: CountsAs(ignoreCase, pd[s + k], text[k])
  }

  /** The characters at every second byte; the bytes between them are not looked at. */
  predicate StrideTwoAt(b: seq<byte>, text: seq<byte>, s: nat)
    requires |text| > 0
  {
    s + 2 * (|text| - 1) < |b| && forall k: nat :: k < |text| ==> b[s + 2 * k] == text[k]
  }

  /** The text stands at every second byte of the packet from s on. */
  predicate SpacedTextAt(ignoreCase: bool, pd: seq<byte>, text: seq<byte>, s: nat)
    requires |text| > 0
  {
    s + 2 * (|text| - 1) < |pd| && forall k: nat | k < |text| :: CountsAs(ignoreCase, pd[s + 2 * k], text[k])
  }

  /** The text in UTF-16: the bytes between the characters are NULs. */
  predicate WideAt(b: seq<byte>, text: seq<byte>, s: nat)
    requires |text| > 0
  {
    StrideTwoAt(b, text, s) && forall k: nat :: k < |text| - 1 ==> b[s + 2 * k + 1] == 0
  }

  predicate NulFree(t: seq<byte>) {
    forall i :: 0 <= i < |t| ==> t[i] != 0
  }

  /** Comparing folded bytes is comparing the packet's own bytes up to case. */
  lemma {:induction false} FoldingComparesLetters(ignoreCase: bool, pd: seq<byte>, text: seq<byte>, s: nat)
    ensures NarrowAt(Folded(ignoreCase, pd), text, s) <==> TextAt(ignoreCase, pd, text, s)
    ensures |text| > 0 ==> (StrideTwoAt(Folded(ignoreCase, pd), text, s) <==> SpacedTextAt(ignoreCase, pd, text, s))
    ensures !ignoreCase ==> (TextAt(ignoreCase, pd, text, s) <==> s + |text| <= |pd| && pd[s..s + |text|] == text)
  {
    var b := Folded(ignoreCase, pd);
    assert forall k: nat, c: byte | k < |pd| :: b[k] == c <==> CountsAs(ignoreCase, pd[k], c);
    if s + |text| <= |pd| {
      var stretch, folded := pd[s..s + |text|], b[s..s + |text|];
      assert forall k: nat | k < |text| :: stretch[k] == pd[s + k] && folded[k] == b[s + k];
    }
  }

  /** The search fields of a capture_file. */
  class SearchState {
    var ignoreCase: bool
    var searchPos: nat
    var searchLen: nat

    constructor (ignoreCase: bool)
      ensures this.ignoreCase == ignoreCase && searchPos == 0 && searchLen == 0
    {
      this.ignoreCase := ignoreCase;
      searchPos, searchLen := 0, 0;
    }

    method MatchBinary(readable: bool, pd: seq<byte>, data: seq<byte>) returns (result: MatchResult)
      requires |data| > 0
      modifies `searchPos, `searchLen
      ensures result == ReadError <==> !readable
      ensures result == NotMatched ==> forall s: nat :: !NarrowAt(pd, data, s)
      ensures result == Matched ==>
                && searchPos + 1 >= |data| == searchLen
                && NarrowAt(pd, data, searchPos + 1 - |data|)
                && forall s: nat :: s < searchPos + 1 - |data| ==> !NarrowAt(pd, data, s)
      ensures result != Matched ==> searchPos == old(searchPos) && searchLen == old(searchLen)
    {
      result := LeftmostNarrow(readable, pd, data);
    }

    method MatchNarrow(readable: bool, pd: seq<byte>, text: seq<byte>) returns (result: MatchResult)
      requires |text| > 0
      modifies `searchPos, `searchLen
      ensures result == ReadError <==> !readable
      ensures result == NotMatched ==> forall s: nat :: !TextAt(ignoreCase, pd, text, s)
      ensures result == Matched ==>
                && searchPos + 1 >= |text| == searchLen
                && TextAt(ignoreCase, pd, text, searchPos + 1 - |text|)
                && forall s: nat :: s < searchPos + 1 - |text| ==> !TextAt(ignoreCase, pd, text, s)
      ensures result != Matched ==> searchPos == old(searchPos) && searchLen == old(searchLen)
    {
      hide NarrowAt, TextAt, Folded;
      forall s: nat
        ensures NarrowAt(Folded(ignoreCase, pd), text, s) <==> TextAt(ignoreCase, pd, text, s)
      {
        FoldingComparesLetters(ignoreCase, pd, text, s);
      }
      result := LeftmostNarrow(readable, Folded(ignoreCase, pd), text);
    }

    /** The loop that match_binary runs on the buffer and match_narrow on the folded buffer. */
    method LeftmostNarrow(readable: bool, b: seq<byte>, text: seq<byte>) returns (result: MatchResult)
      requires |text| > 0
      modifies `searchPos, `searchLen
      ensures result == ReadError <==> !readable
      ensures result == NotMatched ==> forall s: nat :: !NarrowAt(b, text, s)
      ensures result == Matched ==>
                && searchPos + 1 >= |text| == searchLen
                && NarrowAt(b, text, searchPos + 1 - |text|)
                && forall s: nat :: s < searchPos + 1 - |text| ==> !NarrowAt(b, text, s)
      ensures result != Matched ==> searchPos == old(searchPos) && searchLen == old(searchLen)
    {
      if !readable {
        return ReadError;
      }
      result := NotMatched;
      var i, cMatch := 0, 0;
      while i < |b|
        invariant 0 <= cMatch < |text| && cMatch <= i <= |b|
        invariant b[i - cMatch..i] == text[..cMatch]
        invariant forall s: nat :: s < i - cMatch ==> !NarrowAt(b, text, s)
        invariant searchPos == old(searchPos) && searchLen == old(searchLen)
        decreases |b| - (i - cMatch), |b| - i
      {
        if b[i] == text[cMatch] {
          ExtendMatch(b, text, i - cMatch, i);
          cMatch := cMatch + 1;
          if cMatch == |text| {
            searchPos, searchLen := i, |text|;
            return Matched;
          }
        } else {
          NotHere(b, text, i - cMatch, cMatch);
          i := i - cMatch;
          cMatch := 0;
        }
        i := i + 1;
      }
    }

    method MatchWide(readable: bool, pd: seq<byte>, text: seq<byte>) returns (result: MatchResult)
      requires |text| > 0
      modifies `searchPos, `searchLen
      ensures result == ReadError <==> !readable
      ensures result == NotMatched ==> forall s: nat :: !SpacedTextAt(ignoreCase, pd, text, s)
      ensures result == Matched ==>
                && searchPos >= 2 * (|text| - 1) && searchLen == |text|
                && SpacedTextAt(ignoreCase, pd, text, searchPos - 2 * (|text| - 1))
                && forall s: nat :: s < searchPos - 2 * (|text| - 1) ==> !SpacedTextAt(ignoreCase, pd, text, s)
      ensures result != Matched ==> searchPos == old(searchPos) && searchLen == old(searchLen)
    {
      hide SpacedTextAt, Folded;
      forall s: nat
        ensures StrideTwoAt(Folded(ignoreCase, pd), text, s) <==> SpacedTextAt(ignoreCase, pd, text, s)
      {
        FoldingComparesLetters(ignoreCase, pd, text, s);
      }
      if !readable {
        return ReadError;
      }
      result := NotMatched;
      var b := Folded(ignoreCase, pd);
      var i, cMatch := 0, 0;
      while i < |b|
        invariant 0 <= cMatch < |text| && 2 * cMatch <= i <= |b| + 1
        invariant forall k: nat :: k < cMatch ==> b[i - 2 * cMatch + 2 * k] == text[k]
        invariant forall s: nat :: s < i - 2 * cMatch ==> !StrideTwoAt(b, text, s)
        invariant searchPos == old(searchPos) && searchLen == old(searchLen)
        decreases |b| - (i - 2 * cMatch), |b| - i
      {
        if b[i] == text[cMatch] {
          cMatch := cMatch + 1;
          if cMatch == |text| {
            searchPos, searchLen := i, |text|;
            return Matched;
          }
          i := i + 1;
        } else {
          i := i - 2 * cMatch;
          cMatch := 0;
        }
        i := i + 1;
      }
    }

    method MatchNarrowAndWide(readable: bool, pd: seq<byte>, text: seq<byte>) returns (result: MatchResult)
      requires |text| > 0
      modifies `searchPos, `searchLen
      ensures result == ReadError <==> !readable
      ensures readable ==>
                var found := NarrowAndWide(Folded(ignoreCase, pd), text);
                && result == (if found.Some? then Matched else NotMatched)
                && (found.Some? ==> searchPos == found.value && searchLen == |text|)
      ensures result != Matched ==> searchPos == old(searchPos) && searchLen == old(searchLen)
    {
      if !readable {
        return ReadError;
      }
      result := NotMatched;
      var b := Folded(ignoreCase, pd);
      var i, cMatch := 0, 0;
      ghost var a := 0;
      while i < |b|
        invariant 0 <= cMatch < |text| && a + cMatch <= i <= |b|
        invariant NarrowAndWideFrom(b, text, a, i, cMatch) == NarrowAndWide(b, text)
        invariant searchPos == old(searchPos) && searchLen == old(searchLen)
        decreases |b| - a, |b| - i
      {
        if b[i] != 0 {
          if b[i] == text[cMatch] {
            cMatch := cMatch + 1;
            if cMatch == |text| {
              searchPos, searchLen := i, |text|;
              return Matched;
            }
          } else {
            i := i - cMatch;
            cMatch := 0;
            a := i + 1;
          }
        }
        i := i + 1;
      }
    }
  }

  /* ---------- match_narrow_and_wide ---------- */

  /**
   The loop of match_narrow_and_wide as a function of its variables; a is where
   the current attempt began.  After a mismatch it resumes at i - cMatch + 1,
   although the attempt may have consumed NULs besides its cMatch characters.
   */
  function NarrowAndWideFrom(b: seq<byte>, text: seq<byte>, a: nat, i: nat, cMatch: nat): Option<nat>
    requires cMatch < |text| && a + cMatch <= i <= |b|
    decreases |b| - a, |b| - i
  {
    if i == |b| then None
    else if b[i] == 0 then NarrowAndWideFrom(b, text, a, i + 1, cMatch)
    else if b[i] == text[cMatch] then
      if cMatch + 1 == |text| then Some(i) else NarrowAndWideFrom(b, text, a, i + 1, cMatch + 1)
    else NarrowAndWideFrom(b, text, i - cMatch + 1, i - cMatch + 1, 0)
  }

  function NarrowAndWide(b: seq<byte>, text: seq<byte>): Option<nat>
    requires |text| > 0
  {
    NarrowAndWideFrom(b, text, 0, 0, 0)
  }

  /** The bytes of b[a..e] that are not NUL. */
  function Chars(b: seq<byte>, a: nat, e: nat): (t: seq<byte>)
    requires a <= e <= |b|
    ensures |t| <= e - a
    decreases e
  {
    if a == e then []
    else if b[e - 1] == 0 then Chars(b, a, e - 1)
    else Chars(b, a, e - 1) + [b[e - 1]]
  }

  lemma {:induction false} CharsSplit(b: seq<byte>, a: nat, q: nat, e: nat)
    requires a <= q <= e <= |b|
    ensures Chars(b, a, e) == Chars(b, a, q) + Chars(b, q, e)
    decreases e
  {
    if q < e {
      CharsSplit(b, a, q, e - 1);
    }
  }

  predicate EndsHere(b: seq<byte>, text: seq<byte>, s: nat, p: nat) {
    s <= p < |b| && Chars(b, s, p + 1) == text
  }

  /** A reported position ends a stretch whose non-NUL bytes are exactly the text. */
  lemma {:induction false} NarrowAndWideSound(b: seq<byte>, text: seq<byte>, a: nat, i: nat, cMatch: nat)
    requires cMatch < |text| && a + cMatch <= i <= |b|
    requires Chars(b, a, i) == text[..cMatch]
    requires NarrowAndWideFrom(b, text, a, i, cMatch).Some?
    ensures var p := NarrowAndWideFrom(b, text, a, i, cMatch).value;
            && p < |b| && b[p] == text[|text| - 1] != 0
            && exists s: nat :: a <= s && EndsHere(b, text, s, p)
    decreases |b| - a, |b| - i
  {
    if b[i] == 0 {
      NarrowAndWideSound(b, text, a, i + 1, cMatch);
    } else if b[i] == text[cMatch] {
      Snoc(text, cMatch);
      if cMatch + 1 < |text| {
        NarrowAndWideSound(b, text, a, i + 1, cMatch + 1);
      } else {
        assert text[..cMatch + 1] == text;
        assert EndsHere(b, text, a, i);
      }
    } else {
      NarrowAndWideSound(b, text, i - cMatch + 1, i - cMatch + 1, 0);
    }
  }

  /** The text as it stands in the buffer: every character, or every character but the last followed by a NUL. */
  predicate FoundAt(b: seq<byte>, text: seq<byte>, q: nat)
    requires |text| > 0
  {
    NarrowAt(b, text, q) || WideAt(b, text, q)
  }

  /**
   A shift j of the pattern against itself that agrees up to character c and
   differs there, with the mismatch at least as far out as the shift: the case in
   which resuming at i - cMatch + 1 jumps over the start of a wide occurrence.
   */
  predicate LossyShift(text: seq<byte>, j: nat, c: nat) {
    1 <= j && 2 * j <= c < |text| && text[j..c] == text[..c - j] && text[c - j] != text[c]
  }

  predicate Lossy(text: seq<byte>) {
    exists j: nat, c: nat | j < |text| && c < |text| :: LossyShift(text, j, c)
  }

  lemma {:induction false} CharsOfNulFree(b: seq<byte>, a: nat, e: nat)
    requires a <= e <= |b| && NulFree(b[a..e])
    ensures Chars(b, a, e) == b[a..e]
    decreases e
  {
    if a < e {
      assert b[a..e][e - 1 - a] == b[e - 1];
      assert b[a..e - 1] == b[a..e][..e - 1 - a];
      CharsOfNulFree(b, a, e - 1);
      assert b[a..e] == b[a..e - 1] + [b[e - 1]];
    }
  }

  lemma WideGap(b: seq<byte>, text: seq<byte>, q: nat, i: nat)
    requires |text| > 0 && WideAt(b, text, q) && q <= i < q + 2 * |text| - 1
    ensures (i - q) % 2 == 1 ==> b[i] == 0
  {
    if (i - q) % 2 == 1 {
      var k := (i - q) / 2;
      assert b[q + 2 * k + 1] == 0;
    }
  }

  lemma WideChar(b: seq<byte>, text: seq<byte>, q: nat, k: nat)
    requires k < |text| && NulFree(text) && WideAt(b, text, q)
    ensures q + 2 * k < |b| && b[q + 2 * k] == text[k] != 0
  {
  }

  /** Inside a wide occurrence, the non-NUL bytes before and up to its k-th character. */
  lemma {:induction false} CharsOfWide(b: seq<byte>, text: seq<byte>, q: nat, k: nat)
    requires k < |text| && NulFree(text) && WideAt(b, text, q)
    ensures q + 2 * k < |b| && Chars(b, q, q + 2 * k) == text[..k] && Chars(b, q, q + 2 * k + 1) == text[..k + 1]
  {
    hide WideAt, NulFree;
    WideChar(b, text, q, k);
    if k > 0 {
      CharsOfWide(b, text, q, k - 1);
      WideGap(b, text, q, q + 2 * k - 1);
    }
    Snoc(text, k);
  }

  lemma Snoc(text: seq<byte>, k: nat)
    requires k < |text|
    ensures text[..k + 1] == text[..k] + [text[k]]
  {
  }

  /** Agreement with the first k bytes of the text, extended by one byte. */
  lemma ExtendMatch(b: seq<byte>, text: seq<byte>, a: nat, i: nat)
    requires a <= i < |b| && i - a < |text| && b[a..i] == text[..i - a] && b[i] == text[i - a]
    ensures b[a..i + 1] == text[..i + 1 - a]
  {
    assert b[a..i + 1] == b[a..i] + [b[i]];
    Snoc(text, i - a);
  }

  lemma {:induction false} CharsOfNarrow(b: seq<byte>, text: seq<byte>, q: nat, d: nat)
    requires NulFree(text) && NarrowAt(b, text, q) && d <= |text|
    ensures Chars(b, q, q + d) == text[..d]
  {
    assert b[q..q + d] == b[q..q + |text|][..d] == text[..d];
    CharsOfNulFree(b, q, q + d);
  }

  /** How many bytes an occurrence covers up to its last character. */
  function Extent(b: seq<byte>, text: seq<byte>, q: nat): nat
    requires |text| > 0
  {
    if NarrowAt(b, text, q) then |text| else 2 * |text| - 1
  }

  lemma {:induction false} CharsOfOccurrence(b: seq<byte>, text: seq<byte>, q: nat)
    requires |text| > 0 && NulFree(text) && FoundAt(b, text, q)
    ensures q + Extent(b, text, q) <= |b| && Chars(b, q, q + Extent(b, text, q)) == text
  {
    if NarrowAt(b, text, q) {
      CharsOfNarrow(b, text, q, |text|);
      assert text[..|text|] == text;
    } else {
      CharsOfWide(b, text, q, |text| - 1);
      assert text[..|text|] == text;
    }
  }

  lemma {:induction false} BeforeTheEnd(b: seq<byte>, text: seq<byte>, q: nat, i: nat)
    requires |text| > 0 && NulFree(text) && FoundAt(b, text, q) && q <= i <= |b|
    requires |Chars(b, q, i)| < |text|
    ensures i < q + Extent(b, text, q)
  {
    hide Chars, NarrowAt, WideAt, NulFree;
    CharsOfOccurrence(b, text, q);
    if i >= q + Extent(b, text, q) {
      CharsSplit(b, q, q + Extent(b, text, q), i);
    }
  }

  lemma {:induction false} NextNarrow(b: seq<byte>, text: seq<byte>, q: nat, i: nat)
    requires |text| > 0 && NulFree(text) && NarrowAt(b, text, q) && q <= i < q + |text|
    ensures Chars(b, q, i) == text[..i - q] && b[i] == text[i - q]
  {
    hide Chars, NulFree;
    CharsOfNarrow(b, text, q, i - q);
    assert b[i] == b[q..q + |text|][i - q];
  }

  lemma {:induction false} NextWide(b: seq<byte>, text: seq<byte>, q: nat, i: nat)
    requires |text| > 0 && NulFree(text) && WideAt(b, text, q) && q <= i < q + 2 * |text| - 1 && b[i] != 0
    ensures var k := (i - q) / 2; i - q == 2 * k && Chars(b, q, i) == text[..k] && b[i] == text[k]
  {
    hide Chars, NulFree;
    WideGap(b, text, q, i);
    CharsOfWide(b, text, q, (i - q) / 2);
    assert b[q + 2 * ((i - q) / 2)] == text[(i - q) / 2];
  }

  /** A non-NUL byte reached from inside an occurrence before its end is the next character of it. */
  lemma {:induction false} NextCharacter(b: seq<byte>, text: seq<byte>, q: nat, i: nat)
    requires |text| > 0 && NulFree(text) && FoundAt(b, text, q) && q <= i < |b| && b[i] != 0
    requires |Chars(b, q, i)| < |text|
    ensures var k := |Chars(b, q, i)|;
            && Chars(b, q, i) == text[..k] && b[i] == text[k]
            && i - q == (if NarrowAt(b, text, q) then k else 2 * k)
  {
    hide Chars, NarrowAt, WideAt, NulFree;
    BeforeTheEnd(b, text, q, i);
    if NarrowAt(b, text, q) {
      NextNarrow(b, text, q, i);
    } else {
      NextWide(b, text, q, i);
    }
  }

  /**
   An occurrence starting inside the current attempt and before the place where a
   mismatch makes the loop resume exhibits a lossy shift, and is wide.
   */
  lemma {:induction false} SkippedOccurrence(b: seq<byte>, text: seq<byte>, a: nat, i: nat, cMatch: nat, q: nat)
    requires NulFree(text) && cMatch < |text| && a + cMatch <= i < |b|
    requires Chars(b, a, i) == text[..cMatch]
    requires b[i] != 0 && b[i] != text[cMatch]
    requires FoundAt(b, text, q) && a <= q <= i - cMatch
    ensures Lossy(text) && !NarrowAt(b, text, q)
  {
    CharsSplit(b, a, q, i);
    var j := |Chars(b, a, q)|;
    var k := |Chars(b, q, i)|;
    assert j + k == cMatch;
    assert Chars(b, q, i) == text[..cMatch][j..] == text[j..cMatch];
    NextCharacter(b, text, q, i);
    assert LossyShift(text, j, cMatch);
  }

  /** No narrow occurrence is ever passed over, and no wide one either unless the pattern is lossy. */
  lemma {:induction false} NothingPassedOver(b: seq<byte>, text: seq<byte>, a: nat, i: nat, cMatch: nat, q: nat)
    requires NulFree(text) && cMatch < |text| && a + cMatch <= i <= |b|
    requires Chars(b, a, i) == text[..cMatch]
    requires a <= q && FoundAt(b, text, q) && (NarrowAt(b, text, q) || !Lossy(text))
    ensures NarrowAndWideFrom(b, text, a, i, cMatch).Some?
    decreases |b| - a, |b| - i
  {
    if i == |b| {
      CharsOfOccurrence(b, text, q);
      CharsSplit(b, a, q, i);
      CharsSplit(b, q, q + Extent(b, text, q), i);
      assert false;
    } else {
      if b[i] == 0 {
        NothingPassedOver(b, text, a, i + 1, cMatch, q);
      } else if b[i] == text[cMatch] {
        Snoc(text, cMatch);
        if cMatch + 1 < |text| {
          NothingPassedOver(b, text, a, i + 1, cMatch + 1, q);
        }
      } else {
        if q <= i - cMatch {
          SkippedOccurrence(b, text, a, i, cMatch, q);
        }
        NothingPassedOver(b, text, i - cMatch + 1, i - cMatch + 1, 0, q);
      }
    }
  }

  /** While the non-NUL bytes keep agreeing with the text, the loop just advances. */
  lemma {:induction false} Advance(b: seq<byte>, text: seq<byte>, a: nat, i: nat, cMatch: nat)
    requires cMatch < |text| && a <= i <= |b| && Chars(b, a, i) == text[..cMatch]
    ensures a + cMatch <= i
    ensures NarrowAndWideFrom(b, text, a, a, 0) == NarrowAndWideFrom(b, text, a, i, cMatch)
    decreases i
  {
    if i > a {
      var c := if b[i - 1] == 0 then cMatch else cMatch - 1;
      assert Chars(b, a, i - 1) == text[..c] by {
        if b[i - 1] != 0 {
          assert text[..cMatch][..c] == text[..c];
        }
      }
      Advance(b, text, a, i - 1, c);
      assert b[i - 1] != 0 ==> b[i - 1] == text[..cMatch][c];
    }
  }

  function Widened(text: seq<byte>): (w: seq<byte>)
    ensures |w| == 2 * |text|
    ensures forall k: nat :: k < |text| ==> w[2 * k] == text[k] && w[2 * k + 1] == 0
  {
    if text == [] then [] else Widened(text[..|text| - 1]) + [text[|text| - 1], 0]
  }

  /** A shifted copy of the text, in UTF-16. */
  function Trap(text: seq<byte>, j: nat): seq<byte>
    requires j <= |text|
  {
    text[..j] + Widened(text)
  }

  lemma {:induction false} TrapHoldsText(text: seq<byte>, j: nat)
    requires NulFree(text) && 0 < |text| && j <= |text|
    ensures var b := Trap(text, j);
            WideAt(b, text, j) && |b| == j + 2 * |text| && b[|b| - 1] == 0 && Chars(b, 0, j) == text[..j]
  {
    var b := Trap(text, j);
    forall k: nat | k < |text| ensures b[j + 2 * k] == text[k] && b[j + 2 * k + 1] == 0 {
      assert b[j + 2 * k] == Widened(text)[2 * k];
      assert b[j + 2 * k + 1] == Widened(text)[2 * k + 1];
    }
    assert b[|b| - 1] == b[j + 2 * (|text| - 1) + 1];
    assert b[0..j] == text[..j];
    CharsOfNulFree(b, 0, j);
  }

  lemma {:induction false} TrapPrefix(text: seq<byte>, j: nat, c: nat)
    requires NulFree(text) && LossyShift(text, j, c)
    ensures var b, i := Trap(text, j), j + 2 * (c - j);
            i < |b| && Chars(b, 0, i) == text[..c] && b[i] == text[c - j]
  {
    hide Chars, NulFree, Trap;
    var b, i := Trap(text, j), j + 2 * (c - j);
    TrapHoldsText(text, j);
    CharsSplit(b, 0, j, i);
    CharsOfWide(b, text, j, c - j);
    assert text[..j] + text[j..c] == text[..c];
  }

  /** In the trap the first attempt agrees with c characters and then gives up past the true occurrence. */
  lemma {:induction false} TrapSprings(text: seq<byte>, j: nat, c: nat)
    requires NulFree(text) && LossyShift(text, j, c)
    ensures var b := Trap(text, j);
            var r := j + 2 * (c - j) - c + 1;
            j < r <= |b| && NarrowAndWide(b, text) == NarrowAndWideFrom(b, text, r, r, 0)
  {
    hide Chars, Trap;
    var b, i := Trap(text, j), j + 2 * (c - j);
    TrapPrefix(text, j, c);
    Advance(b, text, 0, i, c);
  }

  /** For a lossy pattern, a buffer that holds the text in UTF-16 and in which it is not found. */
  lemma {:induction false} LossyPatternIsMissed(text: seq<byte>, j: nat, c: nat)
    requires NulFree(text) && LossyShift(text, j, c)
    ensures WideAt(Trap(text, j), text, j) && NarrowAndWide(Trap(text, j), text) == None
  {
    var b := Trap(text, j);
    TrapHoldsText(text, j);
    TrapSprings(text, j, c);
    var r := j + 2 * (c - j) - c + 1;
    if NarrowAndWide(b, text).Some? {
      NarrowAndWideSound(b, text, r, r, 0);
      var p := NarrowAndWide(b, text).value;
      var s: nat :| r <= s && EndsHere(b, text, s, p);
      TooShort(b, text, j, s, p);
    }
  }

  lemma {:induction false} WideCounts(b: seq<byte>, text: seq<byte>, q: nat)
    requires |text| > 0 && NulFree(text) && WideAt(b, text, q) && |b| == q + 2 * |text| && b[|b| - 1] == 0
    ensures |Chars(b, q, |b|)| == |text| && |Chars(b, q, q + 1)| == 1
  {
    CharsOfWide(b, text, q, |text| - 1);
    CharsOfWide(b, text, q, 0);
  }

  /** Past the start of a wide occurrence that ends the buffer there are too few characters left. */
  lemma {:induction false} TooShort(b: seq<byte>, text: seq<byte>, q: nat, s: nat, p: nat)
    requires |text| > 0 && NulFree(text) && WideAt(b, text, q) && |b| == q + 2 * |text| && b[|b| - 1] == 0
    requires q < s <= p < |b|
    ensures !EndsHere(b, text, s, p)
  {
    hide Chars, NulFree, WideAt;
    WideCounts(b, text, q);
    CountSplit(b, q, s, |b|);
    CountSplit(b, s, p + 1, |b|);
    CountSplit(b, q, q + 1, s);
  }

  lemma CountSplit(b: seq<byte>, a: nat, q: nat, e: nat)
    requires a <= q <= e <= |b|
    ensures |Chars(b, a, e)| == |Chars(b, a, q)| + |Chars(b, q, e)|
  {
    CharsSplit(b, a, q, e);
  }

  /**
   match_narrow_and_wide finds the text in every buffer that holds it, narrow or
   wide, if and only if the pattern is not lossy.
   */
  lemma {:induction false} NarrowAndWideComplete(text: seq<byte>)
    requires |text| > 0 && NulFree(text)
    ensures (forall b: seq<byte>, q: nat :: FoundAt(b, text, q) ==> NarrowAndWide(b, text).Some?) <==> !Lossy(text)
  {
    if Lossy(text) {
      var j: nat, c: nat :| j < |text| && c < |text| && LossyShift(text, j, c);
      LossyPatternIsMissed(text, j, c);
      assert FoundAt(Trap(text, j), text, j);
    } else {
      forall b: seq<byte>, q: nat | FoundAt(b, text, q) ensures NarrowAndWide(b, text).Some? {
        NothingPassedOver(b, text, 0, 0, 0, q);
      }
    }
  }

  /** A pattern with a NUL in it is never found, since NULs in the buffer are not compared. */
  lemma {:induction false} NulPatternNeverFound(b: seq<byte>, text: seq<byte>)
    requires |text| > 0 && !NulFree(text)
    ensures NarrowAndWide(b, text) == None
  {
    if NarrowAndWide(b, text).Some? {
      NarrowAndWideSound(b, text, 0, 0, 0);
      var p := NarrowAndWide(b, text).value;
      var s: nat :| EndsHere(b, text, s, p);
      CharsAreNulFree(b, s, p + 1);
    }
  }

  lemma {:induction false} CharsAreNulFree(b: seq<byte>, a: nat, e: nat)
    requires a <= e <= |b|
    ensures NulFree(Chars(b, a, e))
    decreases e
  {
    if a < e {
      CharsAreNulFree(b, a, e - 1);
    }
  }

  /** The smallest loss: "aab" in UTF-16 after an "a". */
  lemma {:induction false} AabIsLossy()
    ensures Lossy([97, 97, 98]) && !Lossy([97, 98])
  {
    var t: seq<byte> := [97, 97, 98];
    assert t[1..2] == [97] == t[..1];
    assert LossyShift(t, 1, 2);
  }

  /** Narrow occurrences are never lost, whatever the pattern. */
  lemma {:induction false} NarrowNeverLost(b: seq<byte>, text: seq<byte>, q: nat)
    requires |text| > 0 && NulFree(text) && NarrowAt(b, text, q)
    ensures NarrowAndWide(b, text).Some?
  {
    NothingPassedOver(b, text, 0, 0, 0, q);
  }

  /** r is the last byte of the leftmost narrow occurrence, or None if there is none. */
  predicate LeftmostEnd(b: seq<byte>, text: seq<byte>, r: Option<nat>) {
    match r
    case None => forall q: nat | q <= |b| :: !NarrowAt(b, text, q)
    case Some(p) => && p + 1 >= |text| && NarrowAt(b, text, p + 1 - |text|)
                    && forall q: nat | q < p + 1 - |text| :: !NarrowAt(b, text, q)
  }

  lemma Byteful(b: seq<byte>, i: nat)
    requires NulFree(b)
    ensures i < |b| ==> b[i] != 0
  {
  }

  /** On NUL-free buffers the result is the one match_narrow gives. */
  lemma {:induction false} AgreesWithNarrow(b: seq<byte>, text: seq<byte>, a: nat, i: nat, cMatch: nat)
    requires NulFree(b) && NulFree(text) && cMatch < |text| && a + cMatch == i <= |b|
    requires b[a..i] == text[..cMatch]
    requires forall q: nat | q < a :: !NarrowAt(b, text, q)
    ensures LeftmostEnd(b, text, NarrowAndWideFrom(b, text, a, i, cMatch))
    decreases |b| - a, |b| - i
  {
    hide NulFree;
    assert i < |b| ==> b[i] != 0 by { Byteful(b, i); }
    if i < |b| {
      if b[i] == text[cMatch] {
        ExtendMatch(b, text, a, i);
        if cMatch + 1 < |text| {
          AgreesWithNarrow(b, text, a, i + 1, cMatch + 1);
        } else {
          assert text[..cMatch + 1] == text;
        }
      } else {
        NotHere(b, text, a, cMatch);
        assert b[a + 1..a + 1] == text[..0];
        AgreesWithNarrow(b, text, a + 1, a + 1, 0);
      }
    }
  }

  /** The text in UTF-16 stands in the packet at s. */
  predicate WideTextAt(ignoreCase: bool, pd: seq<byte>, text: seq<byte>, s: nat)
    requires |text| > 0
  {
    SpacedTextAt(ignoreCase, pd, text, s) && forall k: nat | k < |text| - 1 :: pd[s + 2 * k + 1] == 0
  }

  lemma {:induction false} CharsOfFolded(ignoreCase: bool, pd: seq<byte>, a: nat, e: nat)
    requires a <= e <= |pd|
    ensures Chars(Folded(ignoreCase, pd), a, e) == Folded(ignoreCase, Chars(pd, a, e))
    decreases e
  {
    hide Folded;
    NothingFolded(ignoreCase);
    if a < e {
      CharsOfFolded(ignoreCase, pd, a, e - 1);
      FoldedSnoc(ignoreCase, pd, Chars(pd, a, e - 1), e - 1);
    }
  }

  lemma NothingFolded(ignoreCase: bool)
    ensures Folded(ignoreCase, []) == []
  {
  }

  lemma FoldedSnoc(ignoreCase: bool, pd: seq<byte>, chars: seq<byte>, i: nat)
    requires i < |pd|
    ensures Folded(ignoreCase, chars + [pd[i]]) == Folded(ignoreCase, chars) + [Folded(ignoreCase, pd)[i]]
    ensures Folded(ignoreCase, pd)[i] == 0 <==> pd[i] == 0
  {
  }

  /** The bytes from s to p that are not NUL are the text. */
  predicate CharsAreText(ignoreCase: bool, pd: seq<byte>, text: seq<byte>, s: nat, p: nat) {
    s <= p < |pd| && |Chars(pd, s, p + 1)| == |text| && TextAt(ignoreCase, Chars(pd, s, p + 1), text, 0)
  }

  /**
   What match_narrow_and_wide decides, said of the packet's own bytes: a text that stands in it is
   found, if in UTF-16 then unless the pattern is lossy; and where a match ends, a stretch ends
   whose bytes other than NUL are the text up to case.
   */
  lemma {:induction false} NarrowAndWideOnPackets(ignoreCase: bool, pd: seq<byte>, text: seq<byte>)
    requires |text| > 0 && NulFree(text)
    ensures var found := NarrowAndWide(Folded(ignoreCase, pd), text);
            && (forall s: nat | TextAt(ignoreCase, pd, text, s) :: found.Some?)
            && (!Lossy(text) ==> forall s: nat | WideTextAt(ignoreCase, pd, text, s) :: found.Some?)
            && (found.Some? ==>
                  found.value < |pd| && exists s: nat :: CharsAreText(ignoreCase, pd, text, s, found.value))
  {
    hide Lossy, TextAt, SpacedTextAt, NarrowAt, StrideTwoAt, Folded, NarrowAndWideFrom;
    var b := Folded(ignoreCase, pd);
    forall s: nat | TextAt(ignoreCase, pd, text, s)
      ensures NarrowAndWide(b, text).Some?
    {
      FoldingComparesLetters(ignoreCase, pd, text, s);
      NarrowNeverLost(b, text, s);
    }
    forall s: nat | !Lossy(text) && WideTextAt(ignoreCase, pd, text, s)
      ensures NarrowAndWide(b, text).Some?
    {
      WideOfFolded(ignoreCase, pd, text, s);
      NothingPassedOver(b, text, 0, 0, 0, s);
    }
    if NarrowAndWide(b, text).Some? {
      NarrowAndWideSound(b, text, 0, 0, 0);
      var p := NarrowAndWide(b, text).value;
      var s: nat :| EndsHere(b, text, s, p);
      CharsOfFolded(ignoreCase, pd, s, p + 1);
      FoldedWhole(ignoreCase, Chars(pd, s, p + 1), text);
      assert CharsAreText(ignoreCase, pd, text, s, p);
    }
  }

  lemma WideOfFolded(ignoreCase: bool, pd: seq<byte>, text: seq<byte>, s: nat)
    requires |text| > 0 && WideTextAt(ignoreCase, pd, text, s)
    ensures WideAt(Folded(ignoreCase, pd), text, s)
  {
    FoldingComparesLetters(ignoreCase, pd, text, s);
    var b := Folded(ignoreCase, pd);
    forall k: nat | k < |text| - 1
      ensures b[s + 2 * k + 1] == 0
    {
      assert pd[s + 2 * k + 1] == 0;
    }
  }

  lemma FoldedWhole(ignoreCase: bool, stretch: seq<byte>, text: seq<byte>)
    requires Folded(ignoreCase, stretch) == text
    ensures |stretch| == |text| && TextAt(ignoreCase, stretch, text, 0)
  {
    FoldingComparesLetters(ignoreCase, stretch, text, 0);
    assert Folded(ignoreCase, stretch)[0..|text|] == text;
  }

  /* ---------- match_subtree_text and match_summary_line ---------- */

  /** Their loop: after a mismatch it moves on, without trying the mismatching character again. */
  function NoBackupFrom(line: seq<byte>, text: seq<byte>, i: nat, cMatch: nat): Option<nat>
    requires i <= |line| && cMatch < |text|
    decreases |line| - i
  {
    if i == |line| then None
    else if line[i] == text[cMatch] then
      if cMatch + 1 == |text| then Some(i) else NoBackupFrom(line, text, i + 1, cMatch + 1)
    else NoBackupFrom(line, text, i + 1, 0)
  }

  method MatchText(ignoreCase: bool, line: seq<byte>, text: seq<byte>) returns (matched: bool)
    requires |text| > 0
    ensures matched <==> NoBackupFrom(Folded(ignoreCase, line), text, 0, 0).Some?
  {
    var b := Folded(ignoreCase, line);
    var cMatch := 0;
    for i := 0 to |b|
      invariant cMatch < |text|
      invariant NoBackupFrom(b, text, i, cMatch) == NoBackupFrom(b, text, 0, 0)
    {
      if b[i] == text[cMatch] {
        cMatch := cMatch + 1;
        if cMatch == |text| {
          return true;
        }
      } else {
        cMatch := 0;
      }
    }
    return false;
  }

  lemma {:induction false} NoBackupSound(line: seq<byte>, text: seq<byte>, i: nat, cMatch: nat)
    requires cMatch <= i <= |line| && cMatch < |text| && line[i - cMatch..i] == text[..cMatch]
    requires NoBackupFrom(line, text, i, cMatch).Some?
    ensures var p := NoBackupFrom(line, text, i, cMatch).value;
            i <= p && p + 1 >= |text| + (i - cMatch) && NarrowAt(line, text, p + 1 - |text|)
    decreases |line| - i
  {
    if line[i] == text[cMatch] {
      ExtendMatch(line, text, i - cMatch, i);
      if cMatch + 1 < |text| {
        NoBackupSound(line, text, i + 1, cMatch + 1);
      } else {
        assert text[..cMatch + 1] == text;
      }
    } else {
      NoBackupSound(line, text, i + 1, 0);
    }
  }

  predicate OneCharacter(text: seq<byte>) {
    forall k :: 0 <= k < |text| ==> text[k] == text[0]
  }

  lemma {:induction false} RunsAreNotMissed(line: seq<byte>, text: seq<byte>, i: nat, cMatch: nat, q: nat)
    requires OneCharacter(text) && cMatch <= i <= |line| && cMatch < |text|
    requires i - cMatch <= q && NarrowAt(line, text, q)
    ensures NoBackupFrom(line, text, i, cMatch).Some?
    decreases |line| - i
  {
    if i == |line| {
      assert false;
    } else if line[i] == text[cMatch] {
      if cMatch + 1 < |text| {
        RunsAreNotMissed(line, text, i + 1, cMatch + 1, q);
      }
    } else {
      if q <= i {
        NotHere(line, text, q, i - q);
      }
      RunsAreNotMissed(line, text, i + 1, 0, q);
    }
  }

  lemma {:induction false} AdvanceNoBackup(line: seq<byte>, text: seq<byte>, c: nat)
    requires c < |text| && c <= |line| && line[..c] == text[..c]
    ensures NoBackupFrom(line, text, 0, 0) == NoBackupFrom(line, text, c, c)
  {
    if c > 0 {
      assert line[..c - 1] == line[..c][..c - 1] && text[..c - 1] == text[..c][..c - 1];
      AdvanceNoBackup(line, text, c - 1);
      assert line[c - 1] == line[..c][c - 1] == text[..c][c - 1];
    }
  }

  /** c is the first character unlike the first: the line that repeats the first character once more is missed. */
  lemma {:induction false} MixedTextIsMissed(text: seq<byte>, c: nat)
    requires 0 < c < |text| && text[c] != text[0] && OneCharacter(text[..c])
    ensures NarrowAt([text[0]] + text, text, 1)
    ensures NoBackupFrom([text[0]] + text, text, 0, 0) == None
  {
    var line := [text[0]] + text;
    assert line[1..1 + |text|] == text;
    forall k | 0 <= k < c ensures line[k] == text[k] {
      assert text[k] == text[..c][k];
      assert k > 0 ==> line[k] == text[k - 1] == text[..c][k - 1];
    }
    assert line[..c] == text[..c];
    AdvanceNoBackup(line, text, c);
    assert line[c] == text[c - 1] == text[..c][c - 1];
    if NoBackupFrom(line, text, c + 1, 0).Some? {
      NoBackupSound(line, text, c + 1, 0);
    }
  }

  /** Searching labels without backing up finds every occurrence if and only if the text repeats one character. */
  lemma {:induction false} NoBackupComplete(text: seq<byte>)
    requires |text| > 0
    ensures (forall line: seq<byte>, q: nat :: NarrowAt(line, text, q) ==> NoBackupFrom(line, text, 0, 0).Some?)
            <==> OneCharacter(text)
  {
    if OneCharacter(text) {
      forall line: seq<byte>, q: nat | NarrowAt(line, text, q) ensures NoBackupFrom(line, text, 0, 0).Some? {
        RunsAreNotMissed(line, text, 0, 0, q);
      }
    } else {
      var c := FirstOther(text);
      MixedTextIsMissed(text, c);
    }
  }

  /** The same said of a label's own characters: a match is an occurrence up to case, and one is always found if the text repeats one character. */
  lemma {:induction false} NoBackupOnLabels(ignoreCase: bool, line: seq<byte>, text: seq<byte>)
    requires |text| > 0
    ensures var found := NoBackupFrom(Folded(ignoreCase, line), text, 0, 0);
            && (found.Some? ==> found.value + 1 >= |text| && TextAt(ignoreCase, line, text, found.value + 1 - |text|))
            && (OneCharacter(text) ==> forall s: nat | TextAt(ignoreCase, line, text, s) :: found.Some?)
  {
    hide TextAt, NarrowAt, Folded, NoBackupFrom;
    var b := Folded(ignoreCase, line);
    if NoBackupFrom(b, text, 0, 0).Some? {
      NoBackupSound(b, text, 0, 0);
      FoldingComparesLetters(ignoreCase, line, text, NoBackupFrom(b, text, 0, 0).value + 1 - |text|);
    }
    forall s: nat | OneCharacter(text) && TextAt(ignoreCase, line, text, s)
      ensures NoBackupFrom(b, text, 0, 0).Some?
    {
      FoldingComparesLetters(ignoreCase, line, text, s);
      RunsAreNotMissed(b, text, 0, 0, s);
    }
  }

  lemma {:induction false} FirstOther(text: seq<byte>) returns (c: nat)
    requires |text| > 0 && !OneCharacter(text)
    ensures 0 < c < |text| && text[c] != text[0] && OneCharacter(text[..c])
  {
    c := 1;
    while text[c] == text[0]
      invariant 0 < c < |text| && forall k :: 0 <= k < c ==> text[k] == text[0]
      decreases |text| - c
    {
      c := c + 1;
    }
  }
}
