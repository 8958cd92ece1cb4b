# Harvesting product-detail images from a live browser tab

A Dafny model of the decision logic inside `get_images_from_current_chrome`
(`hongsam_project.py`), which attaches to a Chrome instance already running
with remote debugging, picks the shop's tab, scrolls it until its height
stops growing, picks the large product-detail images, keeps the first
fifteen and fetches and decodes each one, skipping failures.

The browser is plain input data (`Browser.Tab`): a tab's title, the heights
the scroll loop would read on it, what each CSS selector returns on the
scrolled page (elements with a bounding-box read and a `src` attribute), and
what fetching a URL through the tab and decoding the body yields. Each rule
of the source is a specification function plus the loop that implements it,
proved equal to that function, and lemmas state what the source promises
about it.

| file | module | rule |
|---|---|---|
| `wrappers.dfy` | `Wrappers` | `Option` |
| `browser.dfy` | `Browser` | the browser as data |
| `tab_choice.dfy` | `TabChoice` | first tab whose title contains "쿠팡" or "Coupang", else the first tab, else none |
| `scroll.dfy` | `Scroll` | scroll until the after-scroll height equals the stored one (stored height starts at 0) |
| `selection.dfy` | `Selection` | selectors in order, boxes strictly over 400 x 100, stop after a whole selector once there are 3, keep the first 15 |
| `acquisition.dfy` | `Acquisition` | `//` URLs get `https:`, each fetch-and-decode may fail and is skipped |
| `harvest.dfy` | `Harvest` | the whole function |

Where the design description of the system and the code differ, the model
follows the code:
- the cap of 15 applies to the candidates before acquisition, not to the acquired images;
- a browser with no open tab gives an empty list, not an error;
- the only acquisition strategy is fetching the `src`; there is no screenshot strategy;
- nothing is deduplicated, although the comment at `hongsam_project.py:98` and the name `unique_images` say so (`Selection.Cap` keeps duplicates);
- no monotonicity of page heights is assumed; the loop only compares for equality.

The design's scenario "heights 1000, 2500, 2500 give two scroll steps" holds
when 1000 is the height read before the first scroll (a reading the loop never
compares) and 2500, 2500 are the after-scroll readings
(`Scroll.TwoPassesWhenHeightSettles`).

## Model

| member | source | states |
|---|---|---|
| `TabChoice.ContainsIffOccurs` | hongsam_project.py:42 | the recursive substring test is true exactly when the needle occurs at some index (Python's `in` on strings) |
| `TabChoice.FirstShopTabFrom` | hongsam_project.py:41-46 | a found index lies in range, at or after the start, and its title names the shop |
| `TabChoice.FirstShopTabFromIsFirst` | hongsam_project.py:41-46 | nothing found iff no title from the start on names the shop; no title before the found one does |
| `TabChoice.ChosenTab` | hongsam_project.py:41-53 | a chosen index is a valid tab index |
| `TabChoice.ChosenTabIsFirstShopTab` | hongsam_project.py:41-53 | no tab is chosen iff there are no tabs; if some title contains "쿠팡" or "Coupang" the first such tab is chosen; otherwise tab 0 |
| `TabChoice.ChooseTab` | hongsam_project.py:41-53 | the search loop with its early break returns exactly the tab choice |
| `Scroll.SettleFromStopsAtFirstRepeat` | hongsam_project.py:60-76 | from any pass on, the loop stops after pass n iff pass n-1 repeats the stored height and no pass before it does; it never stops iff no pass repeats |
| `Scroll.ScrollStopsAtFirstRepeat` | hongsam_project.py:60-76 | the loop stops after exactly k+1 passes where k is the first pass whose after-scroll height equals the stored one (0 before the first pass); every earlier pass saw a change |
| `Scroll.SettleFromIgnoresBefore` | hongsam_project.py:63-75 | from any pass on, runs with equal after-scroll readings stop together |
| `Scroll.BeforeReadingIsIgnored` | hongsam_project.py:63-71 | the height read before scrolling (`current_height`) never affects when the loop stops |
| `Scroll.TwoPassesWhenHeightSettles` | hongsam_project.py:60-76 | readings 1000 before, then 2500 and 2500 after: two scroll passes |
| `Scroll.ScrollUntilStable` | hongsam_project.py:60-76 | the `while True` loop makes exactly the number of passes the stop rule gives |
| `Selection.Keep` | hongsam_project.py:87-93 | no more elements than scanned, and every kept element has a box wider than 400 and taller than 100 |
| `Selection.KeepCounts` | hongsam_project.py:87-93 | each element is kept as many times as it occurs when its box passes, never otherwise |
| `Selection.KeepAppend` | hongsam_project.py:87-93 | scanning two runs of elements keeps, in order, what each run keeps |
| `Selection.SkippedElementDoesNotStopScan` | hongsam_project.py:88-93 | an element with no box, a failing box read or a small box is passed over and the scan goes on as if it were absent |
| `Selection.Gathered` | hongsam_project.py:85-93 | every candidate gathered from the first n selectors passes the size test |
| `Selection.GatheredGrows` | hongsam_project.py:85-93 | the candidates after m selectors are a prefix of those after n >= m |
| `Selection.ScannedFrom` | hongsam_project.py:85-96 | resuming at selector n scans at least n and at most all selectors |
| `Selection.ScannedFromIsGreedy` | hongsam_project.py:85-96 | resuming with fewer than 3 candidates, selector j is scanned iff fewer than 3 were gathered before it |
| `Selection.SelectionIsGreedy` | hongsam_project.py:82-96 | selectors are scanned in order; selector j is scanned iff the selectors before it gathered fewer than 3; the result is all they gathered, at least 3 if the search stopped early, every one passing the size test |
| `Selection.SelectionCanOvershoot` | hongsam_project.py:85-96 | 2 candidates from the first selector and 2 from the second give 4 and stop after the second selector |
| `Selection.FindCandidates` | hongsam_project.py:82-96 | the nested loops with the break after a whole selector compute exactly the greedy selection |
| `Selection.Cap` | hongsam_project.py:100 | the kept candidates are a prefix of the found ones, all of them when at most 15, exactly 15 otherwise |
| `Selection.CapIsIdempotent` | hongsam_project.py:100 | capping twice is capping once |
| `Selection.CappedCandidatesAreDetailImages` | hongsam_project.py:82-100 | the candidates handed to acquisition number at most 15 and all passed the size test |
| `Acquisition.NormalizeSrc` | hongsam_project.py:106 | a `//` source gets `https:` prepended, any other is unchanged, and the result is never protocol-relative |
| `Acquisition.NormalizeSrcIsIdempotent` | hongsam_project.py:106 | applying the rewrite twice gives the same URL as once |
| `Acquisition.Attempt` | hongsam_project.py:104-113 | a candidate yields an image only if its `src` is present and non-empty |
| `Acquisition.Acquired` | hongsam_project.py:103-113 | never more images than candidates |
| `Acquisition.AcquiredAppend` | hongsam_project.py:103-113 | acquiring two runs of candidates gives, in order, what each run gives |
| `Acquisition.FailureIsIsolated` | hongsam_project.py:107-113 | the candidates before and after one candidate contribute the same images whatever happens to it; a failed candidate contributes nothing |
| `Acquisition.Successes` | hongsam_project.py:103-113 | the success indices are valid candidate indices, ascending, and each names a candidate whose fetch and decode succeeded |
| `Acquisition.SuccessesAreComplete` | hongsam_project.py:103-113 | every candidate whose fetch and decode succeeded is among the success indices |
| `Acquisition.AcquiredIsSuccessesInOrder` | hongsam_project.py:103-113 | there are as many images as successes, and the k-th image is the image of the k-th successful candidate, so candidate order is kept |
| `Acquisition.AcquiredImageOrigin` | hongsam_project.py:104-110 | each acquired image is what fetching and decoding the normalized source of some candidate with a non-empty `src` gave |
| `Acquisition.AcquireImages` | hongsam_project.py:103-113 | the acquisition loop with its caught failures returns exactly the acquired list |
| `Harvest.TabImagesAreBoundedAndSized` | hongsam_project.py:82-113 | at most 15 images, each the fetched and decoded normalized source of a kept candidate with a large enough box |
| `Harvest.HarvestIsBounded` | hongsam_project.py:38-120 | a collected result never exceeds 15 images; a browser whose first context has no tab gives an empty list |
| `Harvest.HarvestImages` | hongsam_project.py:27-120 | attach, choose, scroll, select, cap and acquire in sequence give exactly the harvest function of the browser |

## Left out

- Playwright itself (`connect_over_cdp`, `bring_to_front`, `mouse.wheel`, `wait_for_timeout`, `evaluate`, `locator().all()`, `request.get`, `disconnect`): foreign browser I/O, replaced by the tab's data.
- PIL decoding (`Image.open`): images are an opaque type parameter and a fetch either yields one or fails.
- The outcome of a fetch is a fixed function of the URL: two candidates with the same URL get the same outcome; network nondeterminism is not modelled.
- Exceptions from `page.title()`, `evaluate`, `locator().all()` or `get_attribute`: the model assumes they do not happen. In the source the outer handler (`hongsam_project.py:117-120`) catches them and returns the images collected so far. Only the refused connection and the missing context reach that handler in the model, both with an empty list.
- Termination of the scroll loop: the source has no bound. The model reads a finite sequence of heights, and `StillScrolling` stands for a run still in the loop after the last reading; nothing here claims the source terminates.
- Bounding-box sizes are exact reals; floating-point rounding is not modelled (only comparisons are made).
- The Gemini configuration and `analyze_nutrition_with_gemini`, the `.env` key loading and `exit()`, all console output, the `__main__` block, and `check_modules.py`: configuration and network I/O outside the harvesting logic.
