/**
  The whole harvest: attach, choose a tab, scroll it to the bottom, select
  candidates, keep the first fifteen and acquire their images.  With no
  open tab the result is empty; a refused connection or a browser without a
  context is caught by the outer handler and also gives the (still empty)
  list.
 */
module Harvest {
  import opened Wrappers
  import opened Browser
  import opened TabChoice
  import opened Scroll
  import opened Selection
  import opened Acquisition

  /** The harvest's result; `StillScrolling` stands for a run whose scroll
      loop has not stopped by the last modelled height reading. */
  datatype Outcome<Img> = Collected(images: seq<Img>) | StillScrolling

  function Titles<Img>(tabs: seq<Tab<Img>>): (titles: seq<string>)
    ensures |titles| == |tabs|
    ensures forall i :: 0 <= i < |tabs| ==> titles[i] == tabs[i].title
  {
    seq(|tabs|, i requires 0 <= i < |tabs| => tabs[i].title)
  }

  /** What is acquired from a fully scrolled tab. */
  function TabImages<Img>(tab: Tab<Img>): seq<Img>
  {
    Acquired(Cap(SelectCandidates(tab.dom, Selectors)), tab.fetch)
  }

  /** The harvest as a function of the browser. */
  function HarvestSpec<Img>(connection: Connection<Img>): Outcome<Img>
  {
    match connection
    case Refused => Collected([])
    case Connected(contexts) =>
      if contexts == [] then Collected([])
      else
        var tabs := contexts[0];
        match ChosenTab(Titles(tabs))
        case None => Collected([])
        case Some(i) =>
          if ScrollPasses(tabs[i].probes).None? then StillScrolling
          else Collected(TabImages(tabs[i]))
  }

  /** At most fifteen images, each the decoded body of the normalized
      source of a kept candidate that passed the size test. */
  lemma TabImagesAreBoundedAndSized<Img>(tab: Tab<Img>)
    ensures |TabImages(tab)| <= MaxCandidates
    ensures var candidates := Cap(SelectCandidates(tab.dom, Selectors));
      forall k :: 0 <= k < |TabImages(tab)| ==>
        exists i :: 0 <= i < |candidates| && IsDetailImage(candidates[i]) && HasSource(candidates[i]) &&
                    tab.fetch(NormalizeSrc(candidates[i].src.value)) == Some(TabImages(tab)[k])
  {
    var candidates := Cap(SelectCandidates(tab.dom, Selectors));
    var images := Acquired(candidates, tab.fetch);
    assert images == TabImages(tab);
    CappedCandidatesAreDetailImages(tab.dom);
    forall k | 0 <= k < |images|
      ensures exists i :: 0 <= i < |candidates| && IsDetailImage(candidates[i]) && HasSource(candidates[i]) &&
                          tab.fetch(NormalizeSrc(candidates[i].src.value)) == Some(images[k])
    {
      var i := AcquiredImageOrigin(candidates, tab.fetch, k);
      assert IsDetailImage(candidates[i]);
    }
  }

  /** Every collected list has at most fifteen images, and with no tab to
      choose the list is empty. */
  lemma HarvestIsBounded<Img>(connection: Connection<Img>)
    ensures HarvestSpec(connection).Collected? ==>
      |HarvestSpec(connection).images| <= MaxCandidates
    ensures connection.Connected? && connection.contexts != [] && connection.contexts[0] == [] ==>
      HarvestSpec(connection) == Collected([])
  {
  }

  /** `get_images_from_current_chrome`, step by step. */
  method HarvestImages<Img>(connection: Connection<Img>) returns (outcome: Outcome<Img>)
    ensures outcome == HarvestSpec(connection)
  {
    var imageDataList := [];
    if connection.Refused? || connection.contexts == [] {
      return Collected(imageDataList);
    }
    var tabs := connection.contexts[0];
    var choice := ChooseTab(Titles(tabs));
    if choice.None? {
      return Collected([]);
    }
    var target := tabs[choice.value];
    var passes := ScrollUntilStable(target.probes);
    if passes.None? {
      return StillScrolling;
    }
    var foundImages := FindCandidates(target.dom);
    var uniqueImages := Cap(foundImages);
    imageDataList := AcquireImages(uniqueImages, target.fetch);
    return Collected(imageDataList);
  }
}
