/** The rule `MainActivity.onResume` uses to fold the text saved by the last
    `onPause` back into the buffer, and Kotlin's `trim()` that it compares
    with. `isWhitespace` stands for Kotlin's `Char.isWhitespace`. */
module BufferMerge {

  /** What `onResume` appends between the buffer and the restored text. */
  const Separator: string := "\n\n"

  /** The number of characters of `s` that are not whitespace. */
  function Visible(s: string, isWhitespace: char -> bool): nat {
    if s == [] then 0
    else (if isWhitespace(s[0]) then 0 else 1) + Visible(s[1..], isWhitespace)
  }

  lemma {:induction false} VisibleAppend(s: string, t: string, isWhitespace: char -> bool)
    ensures Visible(s + t, isWhitespace) == Visible(s, isWhitespace) + Visible(t, isWhitespace)
  {
    if s == [] {
      assert s + t == t;
    } else {
      assert (s + t)[0] == s[0];
      assert (s + t)[1..] == s[1..] + t;
      VisibleAppend(s[1..], t, isWhitespace);
    }
  }

  /** A string of whitespace only has no visible character, and one that has
      a non-whitespace character has at least one. */
  lemma {:induction false} VisibleZero(s: string, isWhitespace: char -> bool)
    ensures Visible(s, isWhitespace) == 0 <==> forall k :: 0 <= k < |s| ==> isWhitespace(s[k])
  {
    if s != [] {
      VisibleZero(s[1..], isWhitespace);
      assert forall k :: 1 <= k < |s| ==> s[k] == s[1..][k - 1];
    }
  }

  /** `trimStart()`: the longest suffix of `s` that does not start with
      whitespace; only whitespace is dropped. */
  function TrimStart(s: string, isWhitespace: char -> bool): (r: string)
    ensures |r| <= |s| && r == s[|s| - |r|..]
    ensures forall k :: 0 <= k < |s| - |r| ==> isWhitespace(s[k])
    ensures r != [] ==> !isWhitespace(r[0])
  {
    if s != [] && isWhitespace(s[0]) then TrimStart(s[1..], isWhitespace) else s
  }

  /** `trimEnd()`: the longest prefix of `s` that does not end with
      whitespace; only whitespace is dropped. */
  function TrimEnd(s: string, isWhitespace: char -> bool): (r: string)
    ensures |r| <= |s| && r == s[..|r|]
    ensures forall k :: |r| <= k < |s| ==> isWhitespace(s[k])
    ensures r != [] ==> !isWhitespace(r[|r| - 1])
  {
    if s != [] && isWhitespace(s[|s| - 1]) then TrimEnd(s[..|s| - 1], isWhitespace) else s
  }

  /** Kotlin's `trim()`: `s` without its leading and trailing whitespace. It
      neither starts nor ends with whitespace and keeps every visible
      character of `s`. */
  function Trim(s: string, isWhitespace: char -> bool): (r: string)
    ensures var i := |s| - |TrimStart(s, isWhitespace)|;
            i + |r| <= |s| && (forall k :: 0 <= k < |r| ==> r[k] == s[i + k])
            && (forall k :: 0 <= k < i ==> isWhitespace(s[k]))
            && (forall k :: i + |r| <= k < |s| ==> isWhitespace(s[k]))
    ensures r != [] ==> !isWhitespace(r[0]) && !isWhitespace(r[|r| - 1])
    ensures Visible(r, isWhitespace) == Visible(s, isWhitespace)
  {
    var front := TrimStart(s, isWhitespace);
    var r := TrimEnd(front, isWhitespace);
    TrimmedSlice(s, front, r, isWhitespace);
    r
  }

  /** What trimming keeps, stated of any `front` and `r` that satisfy the
      contracts of `TrimStart` and `TrimEnd`. */
  lemma TrimmedSlice(s: string, front: string, r: string, isWhitespace: char -> bool)
    requires |front| <= |s| && front == s[|s| - |front|..]
    requires forall k :: 0 <= k < |s| - |front| ==> isWhitespace(s[k])
    requires front != [] ==> !isWhitespace(front[0])
    requires |r| <= |front| && r == front[..|r|]
    requires forall k :: |r| <= k < |front| ==> isWhitespace(front[k])
    requires r != [] ==> !isWhitespace(r[|r| - 1])
    ensures var i := |s| - |front|;
            && i + |r| <= |s| && (forall k :: 0 <= k < |r| ==> r[k] == s[i + k])
            && (forall k :: 0 <= k < i ==> isWhitespace(s[k]))
            && (forall k :: i + |r| <= k < |s| ==> isWhitespace(s[k]))
    ensures r != [] ==> !isWhitespace(r[0]) && !isWhitespace(r[|r| - 1])
    ensures Visible(r, isWhitespace) == Visible(s, isWhitespace)
  {
    DroppedWhitespace(s, |s| - |front|, isWhitespace);
    DroppedWhitespace(front, |r|, isWhitespace);
    PrefixOfSuffix(s, front, r, isWhitespace);
    assert r != [] ==> r[0] == front[0];
  }

  /** A prefix of a suffix is a slice; what the prefix leaves of the suffix
      is what the slice leaves of the whole. */
  lemma PrefixOfSuffix(s: string, front: string, r: string, isWhitespace: char -> bool)
    requires |front| <= |s| && front == s[|s| - |front|..]
    requires |r| <= |front| && r == front[..|r|]
    requires forall k :: |r| <= k < |front| ==> isWhitespace(front[k])
    ensures var i := |s| - |front|;
            i + |r| <= |s| && (forall k :: 0 <= k < |r| ==> r[k] == s[i + k])
            && (forall k :: i + |r| <= k < |s| ==> isWhitespace(s[k]))
  {
    var i := |s| - |front|;
    forall k | i + |r| <= k < |s|
      ensures isWhitespace(s[k])
    {
      assert s[k] == front[k - i];
    }
  }

  /** Cutting `s` at `i` loses no visible character when one side is all
      whitespace. */
  lemma DroppedWhitespace(s: string, i: nat, isWhitespace: char -> bool)
    requires i <= |s|
    requires (forall k :: 0 <= k < i ==> isWhitespace(s[k])) || (forall k :: i <= k < |s| ==> isWhitespace(s[k]))
    ensures (forall k :: 0 <= k < i ==> isWhitespace(s[k])) ==> Visible(s[i..], isWhitespace) == Visible(s, isWhitespace)
    ensures (forall k :: i <= k < |s| ==> isWhitespace(s[k])) ==> Visible(s[..i], isWhitespace) == Visible(s, isWhitespace)
  {
    assert s == s[..i] + s[i..];
    VisibleAppend(s[..i], s[i..], isWhitespace);
    VisibleZero(s[..i], isWhitespace);
    VisibleZero(s[i..], isWhitespace);
    assert forall k :: 0 <= k < i ==> s[..i][k] == s[k];
    assert forall k :: i <= k < |s| ==> s[i..][k - i] == s[k];
  }

  /** Lines 94-105 of MainActivity.kt: an empty restored text changes
      nothing; an empty buffer takes the restored text; otherwise the restored
      text is appended after a blank line unless, trimmed, it equals the
      trimmed buffer. The buffer is only ever appended to, and the restored
      text is dropped only when it matches the buffer up to surrounding
      whitespace. */
  function Merge(buffer: string, restored: string, isWhitespace: char -> bool): (r: string)
    ensures buffer <= r
    ensures restored == [] ==> r == buffer
    ensures r == buffer || r == buffer + Separator + restored || (buffer == [] && r == restored)
    ensures buffer == [] && restored != [] ==> r == restored
    ensures buffer != [] && restored != [] && Trim(restored, isWhitespace) == Trim(buffer, isWhitespace) ==> r == buffer
    ensures buffer != [] && restored != [] && Trim(restored, isWhitespace) != Trim(buffer, isWhitespace) ==>
              r == buffer + Separator + restored
    ensures restored != [] ==>
              (|restored| <= |r| && r[|r| - |restored|..] == restored)
              || (buffer != [] && r == buffer && Trim(restored, isWhitespace) == Trim(buffer, isWhitespace))
  {
    if restored == [] then buffer
    else if buffer == [] then restored
    else if Trim(restored, isWhitespace) != Trim(buffer, isWhitespace) then buffer + Separator + restored
    else buffer
  }

  /** Restoring the very text the buffer holds changes nothing: a pause
      followed by a resume that brings no new text keeps the buffer. */
  lemma MergeSame(buffer: string, isWhitespace: char -> bool)
    ensures Merge(buffer, buffer, isWhitespace) == buffer
  {
  }

  /** When the restored text has a visible character, appending it after the
      separator changes the trimmed form of the buffer. */
  lemma TrimGrows(buffer: string, restored: string, isWhitespace: char -> bool)
    requires Visible(restored, isWhitespace) > 0
    ensures Trim(buffer + Separator + restored, isWhitespace) != Trim(buffer, isWhitespace)
  {
    VisibleAppend(buffer, Separator, isWhitespace);
    VisibleAppend(buffer + Separator, restored, isWhitespace);
  }

  /** Merging into a text the buffer already holds the restored text from
      a previous merge appends that whole previous result again: with `text`
      as the buffer and `restored` saved, merging twice gives two copies of
      `text`. */
  lemma ReapplyDuplicates(text: string, restored: string, isWhitespace: char -> bool)
    requires text != [] && Visible(restored, isWhitespace) > 0
    requires Trim(restored, isWhitespace) != Trim(text, isWhitespace)
    ensures Merge(text, Merge(text, restored, isWhitespace), isWhitespace)
            == text + Separator + text + Separator + restored
  {
    var once := text + Separator + restored;
    VisibleZero(restored, isWhitespace);
    TrimGrows(text, restored, isWhitespace);
    SeparatedTwice(text, restored);
  }

  lemma SeparatedTwice(text: string, restored: string)
    ensures text + Separator + (text + Separator + restored) == text + Separator + text + Separator + restored
  {
  }
}
