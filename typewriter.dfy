/** The typing effect of the page's `load` handler: the hero title's text is
    taken out, then put back one character per timer tick behind a caret
    (a right border), and the caret is removed on the tick after the last
    character. Timer delays are not modelled; a tick is one run of
    `typeWriter`. */
module Typewriter {

  /** What the title shows: the text typed so far, the counter `i` and
      whether the caret border is still drawn. */
  datatype TitleView = TitleView(shown: string, i: nat, cursor: bool)

  /** Right after set-up: empty title, counter at zero, caret on. */
  const Initial := TitleView("", 0, true)

  /** One run of `typeWriter` on the original `text`. */
  function Tick(text: string, v: TitleView): TitleView
  {
    if v.i < |text| then TitleView(v.shown + [text[v.i]], v.i + 1, v.cursor)
    else TitleView(v.shown, v.i, false)
  }

  /** The title after `k` ticks. */
  function Typed(text: string, k: nat): TitleView
  {
    if k == 0 then Initial else Tick(text, Typed(text, k - 1))
  }

  /** While characters remain, `k` ticks show the first `k` characters with
      the caret still on. */
  lemma {:induction false} TypedPrefix(text: string, k: nat)
    requires k <= |text|
    ensures Typed(text, k) == TitleView(text[..k], k, true)
  {
    if k > 0 {
      TypedPrefix(text, k - 1);
      assert text[..k] == text[..k - 1] + [text[k - 1]];
    }
  }

  /** From the tick after the last character on, the whole text is shown and
      the caret is gone. That tick is the last run of `typeWriter`, which does
      not re-arm its timer afterwards; later ticks are idle in the model. */
  lemma {:induction false} TypedDone(text: string, k: nat)
    requires k > |text|
    ensures Typed(text, k) == TitleView(text, |text|, false)
  {
    if k == |text| + 1 {
      TypedPrefix(text, |text|);
      assert text[..|text|] == text;
    } else {
      TypedDone(text, k - 1);
    }
  }

  /** After any number of ticks the counter never passes the text's length,
      the title is the prefix of that length, and the caret is off exactly
      when the text has been typed in full and one more tick has run. */
  lemma TypedInvariant(text: string, k: nat)
    ensures Typed(text, k).i <= |text|
    ensures Typed(text, k).shown == text[..Typed(text, k).i]
    ensures !Typed(text, k).cursor <==> k > |text|
    ensures !Typed(text, k).cursor ==> Typed(text, k).i == |text|
  {
    if k <= |text| {
      TypedPrefix(text, k);
    } else {
      TypedDone(text, k);
      assert text[..|text|] == text;
    }
  }

  /** The hero title element, with the variables the `typeWriter` closure
      captures. */
  class HeroTitle {
    /** The title's original text, read once when the page loads. */
    const text: string
    /** `heroTitle.textContent`. */
    var shown: string
    var i: nat
    /** The `border-right` caret is drawn. */
    var cursor: bool
    /** How many times `typeWriter` has run. */
    ghost var ticks: nat

    function View(): TitleView
      reads this
    {
      TitleView(shown, i, cursor)
    }

    ghost predicate Valid()
      reads this
    {
      View() == Typed(text, ticks)
    }

    /** The set-up in the `load` handler: keep the text, empty the title,
        draw the caret, start the counter at zero. */
    constructor(content: string)
      ensures Valid() && ticks == 0
      ensures text == content && View() == Initial
    {
      text := content;
      shown := "";
      i := 0;
      cursor := true;
      ticks := 0;
    }

    /** One run of `typeWriter`: append the next character, or, once all are
        shown, remove the caret. The title is always a prefix of the text of
        length `i`, and the caret goes only once `i` has reached the end. */
    method TypeNext()
      requires Valid()
      modifies this
      ensures Valid() && ticks == old(ticks) + 1
      ensures View() == Tick(text, old(View()))
      ensures i <= |text| && shown == text[..i]
      ensures !cursor ==> i == |text|
    {
      if i < |text| {
        shown := shown + [text[i]];
        i := i + 1;
      } else {
        cursor := false;
      }
      ticks := ticks + 1;
      TypedInvariant(text, ticks);
    }
  }
}
