/** The image fade-in of `initImageLoading`: every image starts dimmed and
    slightly shrunk, then is shown in full when it loads and also when it
    fails to load (fail-open), a failure adding a note to its alt text. An
    image that has already finished loading is settled at once from its
    natural width. */
module ImageReveal {

  /** The note a failed image gets on its alt text. */
  const FailSuffix := " (failed to load)"

  /** Which way the set-up goes for one image. */
  datatype Path = RevealNow | FailNow | AwaitEvents

  /** The `img.complete` check made before any listener is attached: a
      finished image with a positive natural width is revealed, a finished
      one without is failed, and an unfinished one waits for its events. */
  function ReadyPath(complete: bool, naturalWidth: nat): (p: Path)
    ensures p == RevealNow <==> complete && naturalWidth > 0
    ensures p == FailNow <==> complete && naturalWidth == 0
    ensures p == AwaitEvents <==> !complete
  {
    if complete then (if naturalWidth > 0 then RevealNow else FailNow)
    else AwaitEvents
  }

  /** `(img.alt || 'image') + ' (failed to load)'`: the note ends the new alt
      text, and what precedes it is the old alt text, or "image" when that
      was empty. */
  function FailedAlt(alt: string): (r: string)
    ensures |r| > |FailSuffix|
    ensures r[|r| - |FailSuffix|..] == FailSuffix
    ensures r[..|r| - |FailSuffix|] == if alt == "" then "image" else alt
  {
    (if alt == "" then "image" else alt) + FailSuffix
  }

  /** An `<img>` element with the properties the set-up reads and writes. */
  class Img {
    var complete: bool
    var naturalWidth: nat
    var alt: string
    /** `style.opacity`. */
    var opacity: real
    /** The factor of the `scale(...)` in `style.transform`. */
    var scale: real
    /** The once-only `load` listener is attached. */
    var onLoad: bool
    /** The once-only `error` listener is attached. */
    var onError: bool

    /** An image as the document holds it before the set-up runs. */
    constructor(complete: bool, naturalWidth: nat, alt: string)
      ensures this.complete == complete && this.naturalWidth == naturalWidth && this.alt == alt
      ensures opacity == 1.0 && scale == 1.0 && !onLoad && !onError
    {
      this.complete, this.naturalWidth, this.alt := complete, naturalWidth, alt;
      opacity, scale := 1.0, 1.0;
      onLoad, onError := false, false;
    }

    /** `reveal`: full opacity and scale; the alt text is kept. */
    method Reveal()
      modifies this`opacity, this`scale
      ensures opacity == 1.0 && scale == 1.0
    {
      opacity := 1.0;
      scale := 1.0;
    }

    /** `fail`: full opacity and scale as well, and the failure note on the
        alt text. */
    method Fail()
      modifies this`opacity, this`scale, this`alt
      ensures opacity == 1.0 && scale == 1.0
      ensures alt == FailedAlt(old(alt))
    {
      opacity := 1.0;
      scale := 1.0;
      alt := FailedAlt(alt);
    }

    /** The body of the `forEach` in `initImageLoading` for this image. */
    method Prepare()
      modifies this
      ensures complete == old(complete) && naturalWidth == old(naturalWidth)
      ensures Prepared(this, old(alt))
    {
      opacity := 0.0;
      scale := 0.98;
      onLoad, onError := false, false;
      if complete {
        if naturalWidth > 0 {
          Reveal();
        } else {
          Fail();
        }
      } else {
        onLoad, onError := true, true;
      }
    }

    /** The browser fires `load`: the once-only listener, if still attached,
        runs `reveal` and is detached. */
    method LoadEvent()
      modifies this
      ensures complete == old(complete) && naturalWidth == old(naturalWidth)
      ensures alt == old(alt) && onError == old(onError) && !onLoad
      ensures if old(onLoad) then opacity == 1.0 && scale == 1.0
              else opacity == old(opacity) && scale == old(scale)
    {
      if onLoad {
        onLoad := false;
        Reveal();
      }
    }

    /** The browser fires `error`: the once-only listener, if still attached,
        runs `fail` and is detached. */
    method ErrorEvent()
      modifies this
      ensures complete == old(complete) && naturalWidth == old(naturalWidth)
      ensures onLoad == old(onLoad) && !onError
      ensures if old(onError) then opacity == 1.0 && scale == 1.0 && alt == FailedAlt(old(alt))
              else opacity == old(opacity) && scale == old(scale) && alt == old(alt)
    {
      if onError {
        onError := false;
        Fail();
      }
    }
  }

  /** The state the set-up leaves `im` in, given its alt text before. */
  ghost predicate Prepared(im: Img, alt0: string)
    reads im
  {
    match ReadyPath(im.complete, im.naturalWidth)
    case RevealNow =>
      im.opacity == 1.0 && im.scale == 1.0 && im.alt == alt0 && !im.onLoad && !im.onError
    case FailNow =>
      im.opacity == 1.0 && im.scale == 1.0 && im.alt == FailedAlt(alt0) && !im.onLoad && !im.onError
    case AwaitEvents =>
      im.opacity == 0.0 && im.scale == 0.98 && im.alt == alt0 && im.onLoad && im.onError
  }

  /** `initImageLoading`: the set-up for every image of the document, each
      on its own. */
  method PrepareAll(images: seq<Img>)
    requires forall p, q :: 0 <= p < q < |images| ==> images[p] != images[q]
    modifies set im | im in images
    ensures forall k :: 0 <= k < |images| ==>
              && images[k].complete == old(images[k].complete)
              && images[k].naturalWidth == old(images[k].naturalWidth)
              && Prepared(images[k], old(images[k].alt))
  {
    for n := 0 to |images|
      invariant forall k :: 0 <= k < n ==>
                  && images[k].complete == old(images[k].complete)
                  && images[k].naturalWidth == old(images[k].naturalWidth)
                  && Prepared(images[k], old(images[k].alt))
      invariant forall k :: n <= k < |images| ==>
                  && images[k].complete == old(images[k].complete)
                  && images[k].naturalWidth == old(images[k].naturalWidth)
                  && images[k].alt == old(images[k].alt)
    {
      images[n].Prepare();
    }
  }

  /** Fail-open: after the set-up and, for an image still loading, whichever
      of `load` or `error` the browser fires first, the image is fully shown;
      its alt text has changed exactly when it took the failure path, and
      then it carries the failure note. */
  method PrepareAndSettle(im: Img, loads: bool)
    modifies im
    ensures im.opacity == 1.0 && im.scale == 1.0
    ensures im.alt == old(im.alt) <==>
              ReadyPath(old(im.complete), old(im.naturalWidth)) == RevealNow
              || (!old(im.complete) && loads)
    ensures im.alt != old(im.alt) ==> im.alt == FailedAlt(old(im.alt))
  {
    im.Prepare();
    if !im.complete {
      if loads {
        im.LoadEvent();
      } else {
        im.ErrorEvent();
      }
    }
    assert FailedAlt(old(im.alt)) != old(im.alt);
  }
}
