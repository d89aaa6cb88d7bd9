# Image-search harvesting, modelled in Dafny

This project models the logic of `scripts/google_search.py` that does not need a browser, the network or the file system. That script searches Google Images for painting styles. It collects a quota of distinct image URLs, saves the images under numbered file names, and later labels each saved file by its name. Four modules:

- `Wrappers` (wrappers.dfy): `Option`, for an HTML attribute that may be absent.
- `SearchUrl` (search_url.dfy): `generate_url`. It builds `https://www.google.com/search?` followed by `name=value` pairs joined by `&`. The parameter dict's insertion order is a sequence of pairs. `GenerateUrl` is the appending loop followed by the trailing-`&` strip, and it is proved equal to a plain `Join`. `ParseQuery` is an inverse written for the proof. It gives back the parameters as long as no name holds `&` or `=` and no value holds `&`; conversely, every query text whose `&`-pieces each hold a `=` is the join of the parameters read out of it.
- `ImageHarvest` (image_harvest.dfy): the collection loop of `get_image_urls`. The page is a script: one list of thumbnails per pass of the outer loop. A thumbnail's click either fails or reveals enlarged-image elements. Reading an element gives its `src` (present or absent), or raises. The functions `Scan`, `Visit`, `VisitAll`, `Round` and `Run` follow the three nested loops. The imperative `GetImageUrls` keeps the set, `skips` and the self-raising `max_images` as local variables, and it is proved equal to `Run`. Lemmas about `Run` then give its guarantees. `max_images - skips` stays the caller's quota. The set never exceeds that quota and holds only URLs that are non-empty and contain `http`. The loop stops on the quota exactly when the set reaches it. Every URL comes from the page. Once the quota is met, nothing changes.
- `DatasetLabels` (dataset_labels.dfy): the file names `q.replace(" ", "_") + str(count) + ".jpg"` of `get_images`, and the label loop of `get_pixel_arrays`, which cuts a name at its first digit. Together they give a round trip: for a query without digits, the label of every file saved for it is the query with underscores for spaces.

A duplicate `src` raises both counters and then breaks out of the scan of the current element list. It does not continue with the next element. The model follows the code here, so dropping duplicates from the page can change the result. `ScenarioDuplicateStopsScan` shows an element that is never read because of a duplicate. `ScenarioWithoutDuplicate` compares two runs that both stop on their quota: with the duplicate the result is {A, C}, without it {A, B}.

## Model

| member | source | states |
|---|---|---|
| `SearchUrl.GenerateUrl` | scripts/google_search.py:19-26 | the address is the base followed by the `name=value` pairs in insertion order, joined by `&`, with nothing escaped |
| `SearchUrl.OnlyFinalSeparator` | scripts/google_search.py:23-25 | for a non-empty parameter list, the appended text is the `&`-join plus exactly one trailing `&`, so the strip removes only that separator |
| `SearchUrl.EmptyParamsUrl` | scripts/google_search.py:22-25 | with no parameters the address is the base unchanged, whose last character is `?`, so nothing is stripped |
| `SearchUrl.DogSearchExample` | scripts/test_google_search.py:12-16 | calling `GenerateUrl` on `{"q": "dog", "tbm": "isch"}` returns exactly `https://www.google.com/search?q=dog&tbm=isch` |
| `SearchUrl.EmptyParamsExample` | scripts/google_search.py:22-25 | calling `GenerateUrl` with no parameters returns `https://www.google.com/search?` |
| `SearchUrl.DogSearchUrl` | scripts/test_google_search.py:12-16 | `{"q": "dog", "tbm": "isch"}` gives exactly `https://www.google.com/search?q=dog&tbm=isch` |
| `SearchUrl.NoEscaping` | scripts/google_search.py:24 | values are copied verbatim: a value holding `&b=c` gives the same address as a separate parameter `b=c` |
| `SearchUrl.QueryRoundTrip` | scripts/google_search.py:19-26 | reading the query back recovers the parameters when no name holds `&` or `=` and no value holds `&` |
| `SearchUrl.QueryTextRoundTrip` | scripts/google_search.py:22-25 | every query text whose `&`-pieces each hold a `=` is exactly the join written for the parameters read out of it |
| `SearchUrl.SplitJoin` | scripts/google_search.py:24-25 | cutting a `&`-join at `&` gives back the parts, when no part holds `&` |
| `ImageHarvest.Slice` | scripts/google_search.py:47 | Python slicing with clamped bounds: the length is `min(hi, len) - lo` or 0, and element `k` is `xs[lo + k]` |
| `ImageHarvest.FailedClicksChangeNothing` | scripts/google_search.py:47-53 | within a pass, thumbnails whose click fails change nothing: the pass ends as if only the opened thumbnails had been listed |
| `ImageHarvest.DuplicateEndsScan` | scripts/google_search.py:58-66 | nothing after a duplicate is ever read: once a scan has met a duplicate, appending further elements to its list does not change its outcome |
| `ImageHarvest.InitInv` | scripts/google_search.py:38-39 | the empty set with `skips = 0` satisfies the loop invariant |
| `ImageHarvest.ScanInv` | scripts/google_search.py:58-70 | the element scan keeps `max_images - skips` equal to the quota, keeps the set within the quota and holding only accepted URLs, and only grows the state |
| `ImageHarvest.VisitAllInv` | scripts/google_search.py:47-74 | a pass over a thumbnail list keeps the same invariant and only grows the state |
| `ImageHarvest.RunInv` | scripts/google_search.py:41-74 | the outer loop keeps the invariant; `len(image_urls) + skips` and `max_images` never decrease |
| `ImageHarvest.HarvestBounded` | scripts/google_search.py:41-70 | at the end, `max_images - skips` is the caller's quota, at most that many URLs are held, all non-empty and containing `http`, and for a non-negative quota the loop stopped on its guard exactly when the set holds the quota |
| `ImageHarvest.DoneIsFinal` | scripts/google_search.py:41-60 | once `len(image_urls) + skips >= max_images`, a scan, a pass and the outer loop change nothing |
| `ImageHarvest.HarvestOffered` | scripts/google_search.py:57-70 | every collected URL is the `src` of an element that some thumbnail of some pass reveals |
| `ImageHarvest.ScenarioWithDuplicate` | scripts/google_search.py:41-70 | quota 3 over thumbnails A, B, A, C, D: the repeated A raises the bound to 4, the second pass visits only C, and the result is {A, B, C} with D never reached |
| `ImageHarvest.ScenarioDuplicateStopsScan` | scripts/google_search.py:58-66 | quota 3 and one thumbnail revealing A, A, B: the scan stops at the second A, so B is never read |
| `ImageHarvest.ScanImages` | scripts/google_search.py:57-70 | the element loop after one click ends in exactly the state `Scan` gives: stop on the quota, on a duplicate after raising both counters, or when a read raises; otherwise add accepted URLs |
| `ImageHarvest.ScenarioWithoutDuplicate` | scripts/google_search.py:41-70 | with quota 2 and the thumbnails [A, A, B] and [C], the loop stops on its quota with {A, C}, the bound raised to 3; without the repeated A it stops on its quota with {A, B}: removing a duplicate changes the returned result |
| `ImageHarvest.SpinsOnBarrenWindow` | scripts/google_search.py:41-53 | with quota 1 and every pass listing a thumbnail without `src` before one with a fresh URL, each window is `thumbnails[0:1]` and no number of passes gets past the initial state, although the page offers a new URL |
| `ImageHarvest.ScenarioFailedClickShiftsWindow` | scripts/google_search.py:41-70 | a failed click still occupies a place in the window: with quota 3 over `[fails, A, B, C]` on every pass, the second pass restarts at index 2 and meets B again as a duplicate, and the result is {A, B, C} with the bound raised to 4 |
| `ImageHarvest.ToList` | scripts/google_search.py:76 | `list(image_urls)` has each element of the set exactly once |
| `ImageHarvest.GetImageUrls` | scripts/google_search.py:28-76 | the loop's result is the final set of `Harvest`: distinct URLs, all accepted, all offered by the page, at most the quota, and exactly the quota when the loop stopped on its guard |
| `DatasetLabels.Label` | scripts/google_search.py:100-103 | the label is the longest digit-free prefix of the name: a prefix with no digit, followed by a digit unless it is the whole name |
| `DatasetLabels.LabelUnique` | scripts/google_search.py:100-103 | any digit-free prefix followed by a digit, or equal to the whole name, is the label |
| `DatasetLabels.ExtractLabel` | scripts/google_search.py:100-103 | the loop that cuts the name at its first digit returns the label |
| `DatasetLabels.DecimalString` | scripts/google_search.py:129 | `str(count)` is a non-empty run of digits with no leading zero |
| `DatasetLabels.ParseDecimalString` | scripts/google_search.py:129 | reading `str(count)` back gives `count` |
| `DatasetLabels.ImageFileNames` | scripts/google_search.py:126-129 | the `count`-th URL is saved as `q_with_underscores + str(count) + ".jpg"`; the names are pairwise distinct; for a digit-free query every name's label is the underscored query |
| `DatasetLabels.FileNamesDistinct` | scripts/google_search.py:127-129 | two images of one query never share a file name |
| `DatasetLabels.LabelOfFileName` | scripts/google_search.py:126-129 | for a query without digits, the label of each file saved for it is the query with spaces turned into underscores |
| `DatasetLabels.LabelOfQueryWithDigit` | scripts/google_search.py:126-129 | a digit in the query cuts the label short: "Top 10 Painting" is labelled "Top_" |

## Left out

- Browser interaction is replaced by the scripted `rounds`. This covers Selenium's `get`, `execute_script`, `find_elements`, `click` and `get_attribute`, and `time.sleep` (the `delay` parameter). An element's `src` is read once; the model does not let it change between the up to four reads of one element.
- `GetImageUrls`: the real loop keeps scrolling until the quota is met. It ends only if its windows keep yielding a new accepted URL or a duplicate. A window `thumbnails[len(image_urls) + skips : max_images]` that yields neither repeats on every pass, even when the page offers new URLs past it. That happens when the window holds only failed clicks, absent or non-`http` `src` values, or raising reads; `SpinsOnBarrenWindow` shows one case. The model stops when the script has no further pass and reports `satisfied = false`. The endless run itself is therefore not modelled.
- `ImageHarvest.Candidate.Stale` stands for any exception raised inside the second `try` (lines 55-74). All of them end the scan of that thumbnail without a change, whichever read raised.
- `print` calls in `get_image_urls` are left out: they are console output only.
- The order of `list(image_urls)` is Python's set iteration order. The model fixes no order and states only set equality and distinctness.
- `IsDigit` is ASCII `0`-`9`. Python's `str.isdigit` also accepts other Unicode digits, such as superscripts; those are not modelled.
- `url_to_img` and `img_to_array` (lines 78-91) are left out: they are an HTTP fetch, image decoding and numpy conversion.
- `download_img` (lines 113-120) and `pickle_df` (lines 131-139) are left out: they are file writes and gzip/pickle serialisation.
- In `get_pixel_arrays`, only the label loop is modelled. The directory listing, the `isfile` filter, `Image.open`, the per-file exception handler and the DataFrame append are file I/O and pandas. The directory prefix `path` of `get_images` is dropped too, because the listing returns bare names. A query holding a path separator would save files elsewhere; that case is not modelled.
- `get_images`: running the harvest once per query is not modelled. Each query is one `GetImageUrls` call followed by `ImageFileNames`.
- The `__main__` block (lines 141-173) is left out: it is configuration and driver setup.
- `scripts/artstyle_count.py` is left out: it is an HTTP fetch, HTML parsing and a plot around Python's built-in sort.
