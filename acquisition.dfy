/**
  Acquiring the images.  For each candidate in order: read its `src`; when
  it is present and non-empty, turn a protocol-relative URL (`//host/...`)
  into an `https:` one, fetch it through the page and decode the body.  A
  failed fetch or decode is caught and that candidate is skipped; every
  success is appended.
 */
module Acquisition {
  import opened Wrappers
  import opened Browser

  /** Python's `s.startswith("//")`. */
  predicate IsProtocolRelative(s: string)
  {
    |s| >= 2 && s[..2] == "//"
  }

  /** The URL actually requested for a `src` value. */
  function NormalizeSrc(src: string): (url: string)
    ensures !IsProtocolRelative(url)
    ensures IsProtocolRelative(src) ==> url == "https:" + src
    ensures !IsProtocolRelative(src) ==> url == src
  {
    if IsProtocolRelative(src) then
      var url := "https:" + src;
      assert url[1] == 't';
      url
    else src
  }

  /** Normalizing an already normalized URL changes nothing. */
  lemma NormalizeSrcIsIdempotent(src: string)
    ensures NormalizeSrc(NormalizeSrc(src)) == NormalizeSrc(src)
  {
  }

  /** The candidate has a truthy `src`: present and not empty. */
  predicate HasSource(c: Element)
  {
    c.src.Some? && c.src.value != ""
  }

  /** The outcome of one candidate's acquisition: the decoded image, or
      None when it has no source or its fetch or decode failed. */
  function Attempt<Img>(c: Element, fetch: string -> Option<Img>): (image: Option<Img>)
    ensures image.Some? ==> HasSource(c)
  {
    if HasSource(c) then fetch(NormalizeSrc(c.src.value)) else None
  }

  /** What one candidate contributes to the result list. */
  function Contribution<Img>(c: Element, fetch: string -> Option<Img>): seq<Img>
  {
    match Attempt(c, fetch)
    case Some(image) => [image]
    case None => []
  }

  /** The images acquired from `candidates`, in order. */
  function Acquired<Img>(candidates: seq<Element>, fetch: string -> Option<Img>): (images: seq<Img>)
    ensures |images| <= |candidates|
  {
    if candidates == [] then []
    else
      Acquired(candidates[..|candidates| - 1], fetch) + Contribution(candidates[|candidates| - 1], fetch)
  }

  lemma AcquiredSnoc<Img>(candidates: seq<Element>, c: Element, fetch: string -> Option<Img>)
    ensures Acquired(candidates + [c], fetch) == Acquired(candidates, fetch) + Contribution(c, fetch)
  {
  }

  lemma {:induction false} AcquiredAppend<Img>(front: seq<Element>, back: seq<Element>, fetch: string -> Option<Img>)
    ensures Acquired(front + back, fetch) == Acquired(front, fetch) + Acquired(back, fetch)
    decreases |back|
  {
    if back == [] {
      assert front + back == front;
    } else {
      var rest, last := back[..|back| - 1], back[|back| - 1];
      var head, middle, tail := Acquired(front, fetch), Acquired(rest, fetch), Contribution(last, fetch);
      calc {
        Acquired(front + back, fetch);
        { assert front + back == (front + rest) + [last]; }
        Acquired((front + rest) + [last], fetch);
        { AcquiredSnoc(front + rest, last, fetch); }
        Acquired(front + rest, fetch) + tail;
        { AcquiredAppend(front, rest, fetch); }
        (head + middle) + tail;
        { assert (head + middle) + tail == head + (middle + tail); }
        head + (middle + tail);
        { assert back == rest + [last]; AcquiredSnoc(rest, last, fetch); }
        head + Acquired(back, fetch);
      }
    }
  }

  /** Failures are isolated: the candidates before and after one candidate
      contribute the same images whatever happens to it, and when its
      acquisition fails it contributes nothing. */
  lemma FailureIsIsolated<Img>(front: seq<Element>, c: Element, back: seq<Element>, fetch: string -> Option<Img>)
    ensures Acquired(front + [c] + back, fetch) ==
      Acquired(front, fetch) + Contribution(c, fetch) + Acquired(back, fetch)
    ensures Attempt(c, fetch).None? ==>
      Acquired(front + [c] + back, fetch) == Acquired(front, fetch) + Acquired(back, fetch)
  {
    AcquiredSnoc(front, c, fetch);
    AcquiredAppend(front + [c], back, fetch);
    if Attempt(c, fetch).None? {
      assert Contribution(c, fetch) == [];
      assert Acquired(front, fetch) + Contribution(c, fetch) == Acquired(front, fetch);
    }
  }

  /** The indices of the candidates whose acquisition succeeds, ascending. */
  function Successes<Img>(candidates: seq<Element>, fetch: string -> Option<Img>): (idx: seq<nat>)
    ensures forall k :: 0 <= k < |idx| ==> idx[k] < |candidates| && Attempt(candidates[idx[k]], fetch).Some?
    ensures forall k, l :: 0 <= k < l < |idx| ==> idx[k] < idx[l]
  {
    if candidates == [] then []
    else
      var last := |candidates| - 1;
      var front := Successes(candidates[..last], fetch);
      assert forall k :: 0 <= k < |front| ==> candidates[front[k]] == candidates[..last][front[k]];
      front + (if Attempt(candidates[last], fetch).Some? then [last] else [])
  }

  /** Every candidate whose acquisition succeeds is among the successes. */
  lemma {:induction false} SuccessesAreComplete<Img>(candidates: seq<Element>, fetch: string -> Option<Img>)
    ensures forall i :: 0 <= i < |candidates| && Attempt(candidates[i], fetch).Some? ==>
      i in Successes(candidates, fetch)
  {
    if candidates != [] {
      var last := |candidates| - 1;
      var front := candidates[..last];
      SuccessesAreComplete(front, fetch);
      forall i | 0 <= i < last && Attempt(candidates[i], fetch).Some?
        ensures i in Successes(candidates, fetch)
      {
        assert candidates[i] == front[i];
      }
    }
  }

  /** The acquired list is exactly the successful candidates' images, in
      the candidates' order: its k-th image is the image of the k-th
      successful candidate (the successes ascend and miss no candidate). */
  lemma {:induction false} AcquiredIsSuccessesInOrder<Img>(candidates: seq<Element>, fetch: string -> Option<Img>)
    ensures var images, idx := Acquired(candidates, fetch), Successes(candidates, fetch);
      |idx| == |images| &&
      forall k :: 0 <= k < |idx| ==> Attempt(candidates[idx[k]], fetch) == Some(images[k])
  {
    if candidates != [] {
      var last := |candidates| - 1;
      var front := candidates[..last];
      AcquiredIsSuccessesInOrder(front, fetch);
      var images, idx := Acquired(front, fetch), Successes(front, fetch);
      var allImages, allIdx := Acquired(candidates, fetch), Successes(candidates, fetch);
      assert allImages == images + Contribution(candidates[last], fetch);
      assert allIdx == idx + (if Attempt(candidates[last], fetch).Some? then [last] else []);
      forall k | 0 <= k < |allIdx|
        ensures Attempt(candidates[allIdx[k]], fetch) == Some(allImages[k])
      {
        if k < |idx| {
          assert allIdx[k] == idx[k] && allImages[k] == images[k];
          assert candidates[idx[k]] == front[idx[k]];
        }
      }
    }
  }

  /** Each acquired image comes from a candidate with a non-empty `src`:
      the one fetching and decoding whose normalized source gave it. */
  lemma AcquiredImageOrigin<Img>(candidates: seq<Element>, fetch: string -> Option<Img>, k: nat) returns (i: nat)
    requires k < |Acquired(candidates, fetch)|
    ensures i < |candidates| && HasSource(candidates[i])
    ensures fetch(NormalizeSrc(candidates[i].src.value)) == Some(Acquired(candidates, fetch)[k])
  {
    AcquiredIsSuccessesInOrder(candidates, fetch);
    i := Successes(candidates, fetch)[k];
  }

  /** The acquisition loop. */
  method AcquireImages<Img>(candidates: seq<Element>, fetch: string -> Option<Img>) returns (images: seq<Img>)
    ensures images == Acquired(candidates, fetch)
  {
    images := [];
    for i := 0 to |candidates|
      invariant images == Acquired(candidates[..i], fetch)
    {
      assert candidates[..i + 1] == candidates[..i] + [candidates[i]];
      AcquiredSnoc(candidates[..i], candidates[i], fetch);
      var src := candidates[i].src;
      if src.Some? && src.value != "" {
        var url := src.value;
        if IsProtocolRelative(url) {
          url := "https:" + url;
        }
        var outcome := fetch(url);
        match outcome {
          case Some(image) => images := images + [image];
          case None =>  // the request or the decode raised: skip this candidate
        }
      }
    }
    assert candidates[..|candidates|] == candidates;
  }
}
