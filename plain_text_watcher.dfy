/** `PlainTextWatcher`: after every edit of the text field it removes every
    character-level style span, so that pasted text keeps no formatting. An
    `Editable` is its text and its spans. */
module PlainTextWatcher {

  /** The class of a span object: a `CharacterStyle` (bold, colour, ...) or
      any other span (a paragraph style, a selection marker, ...). */
  datatype SpanKind = CharacterStyle(name: string) | OtherSpan(name: string)

  /** A span attached to the text over `[start, end)`. `id` stands for the
      span object's identity: one object is attached at most once. */
  datatype Span = Span(id: nat, kind: SpanKind, start: nat, end: nat)

  predicate Distinct(spans: seq<Span>) {
    forall i, j :: 0 <= i < j < |spans| ==> spans[i] != spans[j]
  }

  /** `spans` without the elements of `gone`, in their order. */
  function Drop(spans: seq<Span>, gone: seq<Span>): (r: seq<Span>)
    ensures |r| <= |spans|
    ensures forall s :: s in r <==> s in spans && s !in gone
    ensures Distinct(spans) ==> Distinct(r)
  {
    if spans == [] then []
    else if spans[0] in gone then Drop(spans[1..], gone)
    else [spans[0]] + Drop(spans[1..], gone)
  }

  /** Dropping one more span after some have been dropped is dropping them
      all at once. */
  lemma {:induction false} DropOneMore(spans: seq<Span>, gone: seq<Span>, s: Span)
    ensures Drop(Drop(spans, gone), [s]) == Drop(spans, gone + [s])
  {
    if spans != [] {
      DropOneMore(spans[1..], gone, s);
      if spans[0] !in gone {
        var rest := Drop(spans[1..], gone);
        assert ([spans[0]] + rest)[0] == spans[0];
        assert ([spans[0]] + rest)[1..] == rest;
      }
    }
  }

  /** Removing the span at index `i` of a list without repeats is dropping
      that span. */
  lemma {:induction false} RemoveAtIsDrop(spans: seq<Span>, i: nat)
    requires i < |spans| && Distinct(spans)
    ensures spans[..i] + spans[i + 1..] == Drop(spans, [spans[i]])
  {
    if i == 0 {
      NotInDrop(spans[1..], [spans[0]]);
    } else {
      RemoveAtIsDrop(spans[1..], i - 1);
      assert spans[1..][..i - 1] == spans[1..i];
      assert spans[1..][i..] == spans[i + 1..];
      assert spans[..i] + spans[i + 1..] == [spans[0]] + (spans[1..i] + spans[i + 1..]);
    }
  }

  /** Dropping spans that are not there changes nothing. */
  lemma {:induction false} NotInDrop(spans: seq<Span>, gone: seq<Span>)
    requires forall s :: s in gone ==> s !in spans
    ensures Drop(spans, gone) == spans
  {
    if spans != [] {
      assert spans[0] !in gone;
      NotInDrop(spans[1..], gone);
      assert spans == [spans[0]] + spans[1..];
    }
  }

  /** What `getSpans(0, length, CharacterStyle::class.java)` returns: the
      character-style spans, in their order. */
  function CharacterStyleSpans(spans: seq<Span>): (r: seq<Span>)
    ensures forall s :: s in r <==> s in spans && s.kind.CharacterStyle?
  {
    if spans == [] then []
    else if spans[0].kind.CharacterStyle? then [spans[0]] + CharacterStyleSpans(spans[1..])
    else CharacterStyleSpans(spans[1..])
  }

  /** The spans an editable keeps once its character styles are removed:
      none of them is a character style, every other span is still there,
      in the same order. */
  function PlainSpans(spans: seq<Span>): (r: seq<Span>)
    ensures forall s :: s in r <==> s in spans && !s.kind.CharacterStyle?
    ensures |r| <= |spans|
  {
    if spans == [] then []
    else if spans[0].kind.CharacterStyle? then PlainSpans(spans[1..])
    else [spans[0]] + PlainSpans(spans[1..])
  }

  /** Removing the character styles a second time removes nothing. */
  lemma {:induction false} PlainSpansIdempotent(spans: seq<Span>)
    ensures PlainSpans(PlainSpans(spans)) == PlainSpans(spans)
  {
    if spans != [] {
      PlainSpansIdempotent(spans[1..]);
      if !spans[0].kind.CharacterStyle? {
        var rest := PlainSpans(spans[1..]);
        assert ([spans[0]] + rest)[0] == spans[0];
        assert ([spans[0]] + rest)[1..] == rest;
      }
    }
  }

  /** Dropping exactly the character-style spans leaves the plain spans. */
  lemma {:induction false} DropCharacterStyles(spans: seq<Span>, gone: seq<Span>)
    requires forall s :: s in spans ==> (s in gone <==> s.kind.CharacterStyle?)
    ensures Drop(spans, gone) == PlainSpans(spans)
  {
    if spans != [] {
      DropCharacterStyles(spans[1..], gone);
    }
  }

  /** The part of `android.text.Editable` that `afterTextChanged` touches. */
  class Editable {
    var text: string
    var spans: seq<Span>

    ghost predicate Valid()
      reads this
    {
      && Distinct(spans)
      && forall s :: s in spans ==> s.start <= s.end <= |text|
    }

    constructor (text: string, spans: seq<Span>)
      requires Distinct(spans) && forall s :: s in spans ==> s.start <= s.end <= |text|
      ensures Valid() && this.text == text && this.spans == spans
    {
      this.text := text;
      this.spans := spans;
    }

    /** `removeSpan(what)`: detaches that span, if attached; the text is
        untouched. */
    method RemoveSpan(what: Span)
      requires Valid()
      modifies this`spans
      ensures Valid()
      ensures spans == Drop(old(spans), [what])
    {
      var i := 0;
      while i < |spans| && spans[i] != what
        invariant 0 <= i <= |spans|
        invariant forall k :: 0 <= k < i ==> spans[k] != what
      {
        i := i + 1;
      }
      if i < |spans| {
        RemoveAtIsDrop(spans, i);
        spans := spans[..i] + spans[i + 1..];
      } else {
        NotInDrop(spans, [what]);
      }
    }
  }

  /** `afterTextChanged` (lines 8-17): collect the character-style spans of
      the whole text and remove them one by one. A null editable is left
      alone. Only span metadata changes: the text stays as it was, and every
      span that is not a character style is kept. */
  method AfterTextChanged(editable: Editable?)
    requires editable != null ==> editable.Valid()
    modifies editable
    ensures editable != null ==> editable.Valid()
    ensures editable != null ==> editable.text == old(editable.text)
    ensures editable != null ==> editable.spans == PlainSpans(old(editable.spans))
  {
    if editable == null {
      return;
    }
    var found := CharacterStyleSpans(editable.spans);
    var i := 0;
    NotInDrop(editable.spans, found[..0]);
    while i < |found|
      invariant 0 <= i <= |found|
      invariant editable.Valid() && editable.text == old(editable.text)
      invariant editable.spans == Drop(old(editable.spans), found[..i])
    {
      DropOneMore(old(editable.spans), found[..i], found[i]);
      assert found[..i + 1] == found[..i] + [found[i]];
      editable.RemoveSpan(found[i]);
      i := i + 1;
    }
    assert found[..i] == found;
    DropCharacterStyles(old(editable.spans), found);
  }

  /** `beforeTextChanged` (lines 19-20): does nothing. */
  method BeforeTextChanged(s: string, start: int, count: int, after: int) {
  }

  /** `onTextChanged` (lines 22-23): does nothing. */
  method OnTextChanged(s: string, start: int, before: int, count: int) {
  }
}
