/**
  Picking the candidate images.  The selectors are tried in a fixed order;
  every element a selector matches whose bounding box is wider than 400 and
  taller than 100 is appended to the candidates (elements with no box, or
  whose box read fails, are passed over); once a selector has been scanned
  completely the search stops if there are at least three candidates.  The
  candidates are then cut to the first fifteen.
 */
module Selection {
  import opened Wrappers
  import opened Browser

  /** The structural queries, most specific first. */
  const Selectors: seq<string> :=
    ["#productDetail img", ".product-detail-content img", ".detail-item img", "img"]

  /** Bounding boxes must be strictly wider and strictly taller than these. */
  const MinWidth: real := 400.0
  const MinHeight: real := 100.0

  /** Candidates after a whole selector at which the search stops. */
  const EnoughCandidates: nat := 3

  /** How many candidates are kept for acquisition. */
  const MaxCandidates: nat := 15

  /** The element has a box and the box passes the size test. */
  predicate IsDetailImage(e: Element)
  {
    e.boxRead.HasBox? && e.boxRead.box.width > MinWidth && e.boxRead.box.height > MinHeight
  }

  /** The elements of one selector's result that are appended, in order. */
  function Keep(elements: seq<Element>): (kept: seq<Element>)
    ensures |kept| <= |elements|
    ensures forall k :: 0 <= k < |kept| ==> IsDetailImage(kept[k])
  {
    if elements == [] then []
    else
      var last := elements[|elements| - 1];
      Keep(elements[..|elements| - 1]) + (if IsDetailImage(last) then [last] else [])
  }

  lemma KeepSnoc(elements: seq<Element>, e: Element)
    ensures Keep(elements + [e]) == Keep(elements) + (if IsDetailImage(e) then [e] else [])
  {
  }

  lemma {:induction false} KeepAppend(front: seq<Element>, back: seq<Element>)
    ensures Keep(front + back) == Keep(front) + Keep(back)
    decreases |back|
  {
    if back == [] {
      assert front + back == front;
    } else {
      var rest, last := back[..|back| - 1], back[|back| - 1];
      var head, middle, tail := Keep(front), Keep(rest), (if IsDetailImage(last) then [last] else []);
      calc {
        Keep(front + back);
        { assert front + back == (front + rest) + [last]; }
        Keep((front + rest) + [last]);
        { KeepSnoc(front + rest, last); }
        Keep(front + rest) + tail;
        { KeepAppend(front, rest); }
        (head + middle) + tail;
        { assert (head + middle) + tail == head + (middle + tail); }
        head + (middle + tail);
        { assert back == rest + [last]; KeepSnoc(rest, last); }
        head + Keep(back);
      }
    }
  }

  /** Keep is the size filter: each element occurs in the result as often
      as in the input when it passes the size test, and never otherwise. */
  lemma {:induction false} KeepCounts(elements: seq<Element>)
    ensures forall e :: multiset(Keep(elements))[e] ==
                        (if IsDetailImage(e) then multiset(elements)[e] else 0)
  {
    if elements != [] {
      var front := elements[..|elements| - 1];
      assert elements == front + [elements[|elements| - 1]];
      KeepCounts(front);
    }
  }

  lemma KeepStep(elements: seq<Element>, j: nat)
    requires j < |elements|
    ensures Keep(elements[..j + 1]) ==
      Keep(elements[..j]) + (if IsDetailImage(elements[j]) then [elements[j]] else [])
  {
    assert elements[..j + 1] == elements[..j] + [elements[j]];
    KeepSnoc(elements[..j], elements[j]);
  }

  /** An element without a box, whose box read failed, or whose box is too
      small is passed over without ending the scan: the elements after it
      are judged exactly as if it were not there. */
  lemma SkippedElementDoesNotStopScan(front: seq<Element>, e: Element, back: seq<Element>)
    requires !IsDetailImage(e)
    ensures Keep(front + [e] + back) == Keep(front) + Keep(back)
  {
    KeepSnoc(front, e);
    assert Keep(front + [e]) == Keep(front);
    KeepAppend(front + [e], back);
  }

  /** The candidates after the first `n` selectors have been scanned. */
  function Gathered(dom: string -> seq<Element>, selectors: seq<string>, n: nat): (found: seq<Element>)
    requires n <= |selectors|
    ensures forall k :: 0 <= k < |found| ==> IsDetailImage(found[k])
  {
    if n == 0 then [] else Gathered(dom, selectors, n - 1) + Keep(dom(selectors[n - 1]))
  }

  lemma {:induction false} GatheredGrows(dom: string -> seq<Element>, selectors: seq<string>, m: nat, n: nat)
    requires m <= n <= |selectors|
    ensures Gathered(dom, selectors, m) <= Gathered(dom, selectors, n)
    decreases n
  {
    if m < n {
      GatheredGrows(dom, selectors, m, n - 1);
    }
  }

  /** How many selectors are scanned when the search resumes before
      selector `n`. */
  function ScannedFrom(dom: string -> seq<Element>, selectors: seq<string>, n: nat): (scanned: nat)
    requires n <= |selectors|
    ensures n <= scanned <= |selectors|
    decreases |selectors| - n
  {
    if n == |selectors| then n
    else if |Gathered(dom, selectors, n + 1)| >= EnoughCandidates then n + 1
    else ScannedFrom(dom, selectors, n + 1)
  }

  /** How many selectors the search scans. */
  function Scanned(dom: string -> seq<Element>, selectors: seq<string>): (scanned: nat)
    ensures scanned <= |selectors|
  {
    ScannedFrom(dom, selectors, 0)
  }

  /** The candidate list the search ends with (`found_images`). */
  function SelectCandidates(dom: string -> seq<Element>, selectors: seq<string>): seq<Element>
  {
    Gathered(dom, selectors, Scanned(dom, selectors))
  }

  lemma {:induction false} ScannedFromIsGreedy(dom: string -> seq<Element>, selectors: seq<string>, n: nat)
    requires n <= |selectors|
    requires |Gathered(dom, selectors, n)| < EnoughCandidates
    ensures forall j :: n <= j < |selectors| ==>
      (j < ScannedFrom(dom, selectors, n) <==> |Gathered(dom, selectors, j)| < EnoughCandidates)
    decreases |selectors| - n
  {
    if n < |selectors| {
      var scanned := ScannedFrom(dom, selectors, n);
      if |Gathered(dom, selectors, n + 1)| >= EnoughCandidates {
        assert scanned == n + 1;
        forall j | n + 1 <= j < |selectors|
          ensures |Gathered(dom, selectors, j)| >= EnoughCandidates
        {
          GatheredGrows(dom, selectors, n + 1, j);
        }
      } else {
        assert scanned == ScannedFrom(dom, selectors, n + 1);
        ScannedFromIsGreedy(dom, selectors, n + 1);
      }
    }
  }

  /** Selectors are scanned in order, and selector `j` is scanned exactly
      when the candidates gathered from the selectors before it number fewer
      than three; the result is everything those selectors gathered, and if
      the search stopped early it holds at least three candidates (possibly
      more: the count is only checked after a whole selector). */
  lemma SelectionIsGreedy(dom: string -> seq<Element>, selectors: seq<string>)
    ensures forall j :: 0 <= j < |selectors| ==>
      (j < Scanned(dom, selectors) <==> |Gathered(dom, selectors, j)| < EnoughCandidates)
    ensures SelectCandidates(dom, selectors) == Gathered(dom, selectors, Scanned(dom, selectors))
    ensures Scanned(dom, selectors) < |selectors| ==>
      |SelectCandidates(dom, selectors)| >= EnoughCandidates
    ensures forall e :: e in SelectCandidates(dom, selectors) ==> IsDetailImage(e)
  {
    var found := SelectCandidates(dom, selectors);
    assert forall e :: e in found ==> exists k :: 0 <= k < |found| && found[k] == e;
    ScannedFromIsGreedy(dom, selectors, 0);
  }

  /** Every selector matching the same two large images: two candidates
      from the first selector and two from the second make four, so the
      search stops there with more than three candidates and the other
      selectors are never tried. */
  lemma SelectionCanOvershoot(big: Box)
    requires big.width > MinWidth && big.height > MinHeight
    ensures var e := Element(HasBox(big), None);
      var dom := (s: string) => [e, e];
      Scanned(dom, Selectors) == 2 && |SelectCandidates(dom, Selectors)| == 4
  {
    var e := Element(HasBox(big), None);
    var dom := (s: string) => [e, e];
    assert Keep([e, e]) == [e, e] by {
      assert [e, e][..1] == [e];
      assert Keep([e]) == [e] by { assert [e][..0] == []; }
    }
    assert |Gathered(dom, Selectors, 1)| == 2;
    assert |Gathered(dom, Selectors, 2)| == 4;
    assert ScannedFrom(dom, Selectors, 1) == 2;
  }

  /** The first `MaxCandidates` candidates, in order (`unique_images`):
      nothing is removed except from the end, duplicates included. */
  function Cap<T>(found: seq<T>): (kept: seq<T>)
    ensures kept <= found
    ensures |found| <= MaxCandidates ==> kept == found
    ensures |found| > MaxCandidates ==> |kept| == MaxCandidates
  {
    if |found| <= MaxCandidates then found else found[..MaxCandidates]
  }

  /** Every candidate handed to acquisition passed the size test, and there
      are at most fifteen. */
  lemma CappedCandidatesAreDetailImages(dom: string -> seq<Element>)
    ensures var candidates := Cap(SelectCandidates(dom, Selectors));
      |candidates| <= MaxCandidates &&
      forall i :: 0 <= i < |candidates| ==> IsDetailImage(candidates[i])
  {
  }

  /** Capping twice is capping once. */
  lemma CapIsIdempotent<T>(found: seq<T>)
    ensures Cap(Cap(found)) == Cap(found)
  {
  }

  lemma AppendIsAssociative<T>(a: seq<T>, b: seq<T>, c: seq<T>)
    ensures (a + b) + c == a + (b + c)
  {
  }

  /** The selection loop: the selectors in order, each one's elements in
      order, an element kept when its box passes the size test. */
  method FindCandidates(dom: string -> seq<Element>) returns (found: seq<Element>)
    ensures found == SelectCandidates(dom, Selectors)
  {
    found := [];
    var i := 0;
    while i < |Selectors|
      invariant i <= |Selectors|
      invariant found == Gathered(dom, Selectors, i)
      invariant |found| < EnoughCandidates
      invariant ScannedFrom(dom, Selectors, i) == Scanned(dom, Selectors)
    {
      var elements := dom(Selectors[i]);
      ghost var before := found;
      var j := 0;
      while j < |elements|
        invariant j <= |elements|
        invariant found == before + Keep(elements[..j])
      {
        KeepStep(elements, j);
        var img := elements[j];
        var passes := false;
        match img.boxRead {
          case ReadError =>  // the box read raised: skip this element
          case NoBox =>
          case HasBox(box) => passes := box.width > MinWidth && box.height > MinHeight;
        }
        if passes {
          AppendIsAssociative(before, Keep(elements[..j]), [img]);
          found := found + [img];
        }
        j := j + 1;
      }
      assert elements[..j] == elements;
      assert found == Gathered(dom, Selectors, i + 1);
      i := i + 1;
      if |found| >= EnoughCandidates {
        assert ScannedFrom(dom, Selectors, i - 1) == i;
        break;
      }
      assert ScannedFrom(dom, Selectors, i - 1) == ScannedFrom(dom, Selectors, i);
    }
  }
}
