/**
 * The three string operations the scraper applies to page text: lower-casing,
 * stripping surrounding whitespace, and the substring test of Python's `in`.
 * Only the ASCII range is modelled: `Lower` folds 'A'..'Z' and leaves every
 * other character alone, and `IsSpace` is Python's `str.isspace` below 0x80.
 */
module Text {

  /** Python's `str.isspace` on ASCII: space, \t \n \v \f \r and the separators 0x1C..0x1F. */
  predicate IsSpace(c: char) {
    c == ' ' || ('\t' <= c <= '\r') || ('\U{1C}' <= c <= '\U{1F}')
  }

  predicate IsUpper(c: char) {
    'A' <= c <= 'Z'
  }

  function LowerChar(c: char): char {
    if IsUpper(c) then (c as int + 32) as char else c
  }

  /** `str.lower()`: every character folded on its own, the length kept. */
  function Lower(s: string): (r: string)
    ensures |r| == |s|
    ensures forall i :: 0 <= i < |s| ==> r[i] == LowerChar(s[i])
  {
    if s == [] then [] else [LowerChar(s[0])] + Lower(s[1..])
  }

  /** Lowering twice is lowering once, so the target street, lowered when the
      monitor is built and again in every parser, is compared in its once-lowered form. */
  lemma LowerIdempotent(s: string)
    ensures Lower(Lower(s)) == Lower(s)
  {
    var once := Lower(s);
    assert forall i :: 0 <= i < |once| ==> Lower(once)[i] == once[i];
  }

  /** `r` is the slice of `s` starting at `start`, and everything of `s` around it is whitespace. */
  ghost predicate TrimmedSlice(s: string, r: string, start: int) {
    && 0 <= start <= start + |r| <= |s|
    && r == s[start..start + |r|]
    && (forall k :: 0 <= k < start ==> IsSpace(s[k]))
    && (forall k :: start + |r| <= k < |s| ==> IsSpace(s[k]))
  }

  /** `str.strip()`: whitespace removed at both ends. */
  function Strip(s: string): (r: string)
    ensures |r| <= |s|
    ensures r != [] ==> !IsSpace(r[0]) && !IsSpace(r[|r| - 1])
    decreases |s|
  {
    if s != [] && IsSpace(s[0]) then Strip(s[1..])
    else if s != [] && IsSpace(s[|s| - 1]) then Strip(s[..|s| - 1])
    else s
  }

  /** A whitespace character in front of a trimmed slice leaves it a trimmed slice. */
  lemma TrimmedSliceFront(s: string, r: string, start: int)
    requires s != [] && IsSpace(s[0]) && TrimmedSlice(s[1..], r, start)
    ensures TrimmedSlice(s, r, start + 1)
  {
    assert s[1..][start..start + |r|] == s[start + 1..start + 1 + |r|];
    forall k | 0 <= k < start + 1
      ensures IsSpace(s[k])
    {
      if k > 0 {
        assert s[k] == s[1..][k - 1];
      }
    }
    forall k | start + 1 + |r| <= k < |s|
      ensures IsSpace(s[k])
    {
      assert s[k] == s[1..][k - 1];
    }
  }

  /** A whitespace character behind a trimmed slice leaves it a trimmed slice. */
  lemma TrimmedSliceBack(s: string, r: string, start: int)
    requires s != [] && IsSpace(s[|s| - 1]) && TrimmedSlice(s[..|s| - 1], r, start)
    ensures TrimmedSlice(s, r, start)
  {
    var t := s[..|s| - 1];
    assert t[start..start + |r|] == s[start..start + |r|];
    forall k | 0 <= k < start
      ensures IsSpace(s[k])
    {
      assert s[k] == t[k];
    }
    forall k | start + |r| <= k < |s|
      ensures IsSpace(s[k])
    {
      if k < |s| - 1 {
        assert s[k] == t[k];
      }
    }
  }

  /** What `Strip` removes is whitespace only: the result is a slice of `s` with nothing
      but whitespace on either side of it. */
  lemma {:induction false} StripIsTrimmedSlice(s: string)
    ensures exists start :: TrimmedSlice(s, Strip(s), start)
    decreases |s|
  {
    var r := Strip(s);
    if s != [] && IsSpace(s[0]) {
      StripIsTrimmedSlice(s[1..]);
      var start :| TrimmedSlice(s[1..], r, start);
      TrimmedSliceFront(s, r, start);
    } else if s != [] && IsSpace(s[|s| - 1]) {
      StripIsTrimmedSlice(s[..|s| - 1]);
      var start :| TrimmedSlice(s[..|s| - 1], r, start);
      TrimmedSliceBack(s, r, start);
    } else {
      assert TrimmedSlice(s, s, 0);
    }
  }

  /** Stripping an already stripped string changes nothing. */
  lemma StripIdempotent(s: string)
    ensures Strip(Strip(s)) == Strip(s)
  {
  }

  /** Python's `sub in s`. */
  function Contains(s: string, sub: string): bool
  {
    sub <= s || (s != [] && Contains(s[1..], sub))
  }

  ghost predicate OccursAt(sub: string, s: string, i: int) {
    0 <= i && i + |sub| <= |s| && s[i..i + |sub|] == sub
  }

  /** An occurrence in the tail is an occurrence one position further on in the whole string. */
  lemma OccursShift(sub: string, s: string, i: int)
    requires s != [] && 0 <= i
    ensures OccursAt(sub, s[1..], i) <==> OccursAt(sub, s, i + 1)
  {
    if i + |sub| <= |s| - 1 {
      assert s[1..][i..i + |sub|] == s[i + 1..i + 1 + |sub|];
    }
  }

  /** `Contains` holds exactly when `sub` occurs at some position of `s`. */
  lemma {:induction false} ContainsIff(s: string, sub: string)
    ensures Contains(s, sub) <==> exists i :: OccursAt(sub, s, i)
    decreases |s|
  {
    if sub <= s {
      assert OccursAt(sub, s, 0);
    } else if s == [] {
      assert forall i :: !OccursAt(sub, s, i);
    } else {
      ContainsIff(s[1..], sub);
      if Contains(s[1..], sub) {
        var i :| OccursAt(sub, s[1..], i);
        OccursShift(sub, s, i);
      }
      if i :| OccursAt(sub, s, i) {
        assert i != 0;
        OccursShift(sub, s, i - 1);
      }
    }
  }

  /** The empty string is in every string. */
  lemma EmptyIsContained(s: string)
    ensures Contains(s, [])
  {
  }
}
