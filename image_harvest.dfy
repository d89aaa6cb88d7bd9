/**
 * The quota-bounded, deduplicating collection loop of `get_image_urls`
 * in scripts/google_search.py.
 *
 * The browser is replaced by data. Every pass of the outer loop scrolls and
 * then lists the thumbnails on the page; a script of such lists, one per
 * pass, stands for what the page shows. Clicking a thumbnail either fails or
 * reveals a list of enlarged-image elements, each read for its `src`
 * attribute.
 *
 * The loop's state is the set `image_urls`, the counter `skips` and the
 * parameter `max_images`, which the loop raises by one for every duplicate.
 */
module ImageHarvest {
  import opened Wrappers

  /** Reading one enlarged-image element. */
  datatype Candidate =
    | Src(src: Option<string>)  // the `src` attribute, None when it is absent
    | Stale                     // reading the element raised: the scan of this list is abandoned

  /** What clicking one thumbnail gives. */
  datatype Thumbnail =
    | ClickFails                // the click raised: the thumbnail is skipped
    | Opens(images: seq<Candidate>)

  /** The loop's variables: `image_urls`, `skips` and `max_images`. */
  datatype State = State(found: set<string>, skips: nat, maxImages: int)

  /** The state before the first pass, for the caller's `max_images`. */
  function Init(quota: int): State {
    State({}, 0, quota)
  }

  /** The guard of both loops: `len(image_urls) + skips >= max_images`. */
  predicate Done(st: State) {
    |st.found| + st.skips >= st.maxImages
  }

  /** `sub` occurs somewhere in `s` (Python's `sub in s`). */
  predicate Contains(s: string, sub: string)
    decreases |s|
  {
    sub <= s || (s != [] && Contains(s[1..], sub))
  }

  /** A `src` value the loop accepts: non-empty and containing `http`. */
  predicate WellFormed(src: string) {
    src != "" && Contains(src, "http")
  }

  function Min(a: int, b: int): int {
    if a <= b then a else b
  }

  /** Python's `xs[lo:hi]` for non-negative bounds: both bounds are clamped
      to the length, and a slice whose start is not below its end is empty. */
  function Slice<T>(xs: seq<T>, lo: nat, hi: nat): (r: seq<T>)
    ensures |r| == if lo < hi && lo < |xs| then Min(hi, |xs|) - lo else 0
    ensures forall k :: 0 <= k < |r| ==> r[k] == xs[lo + k]
  {
    if lo < hi && lo < |xs| then xs[lo..Min(hi, |xs|)] else []
  }

  /** The scan of the enlarged images after one successful click. It stops
      when the quota is met, at the first duplicate (after raising both
      counters), and when reading an element raises. */
  function Scan(st: State, images: seq<Candidate>): State
    decreases |images|
  {
    if images == [] || Done(st) then st
    else match images[0]
      case Stale => st
      case Src(src) =>
        if src.Some? && src.value in st.found then
          st.(skips := st.skips + 1, maxImages := st.maxImages + 1)
        else if src.Some? && WellFormed(src.value) then
          Scan(st.(found := st.found + {src.value}), images[1..])
        else
          Scan(st, images[1..])
  }

  /** Clicking one thumbnail: a failed click changes nothing. */
  function Visit(st: State, t: Thumbnail): State {
    match t
    case ClickFails => st
    case Opens(images) => Scan(st, images)
  }

  /** Visiting a list of thumbnails in order. */
  function VisitAll(st: State, ts: seq<Thumbnail>): State
    decreases |ts|
  {
    if ts == [] then st else VisitAll(Visit(st, ts[0]), ts[1..])
  }

  /** The thumbnails one pass visits: from `len(image_urls) + skips` up to
      `max_images`, both taken when the pass starts. */
  function Window(st: State, thumbnails: seq<Thumbnail>): seq<Thumbnail>
    requires !Done(st)
  {
    Slice(thumbnails, |st.found| + st.skips, st.maxImages)
  }

  /** One pass of the outer loop, over the thumbnails the page lists. */
  function Round(st: State, thumbnails: seq<Thumbnail>): State
    requires !Done(st)
  {
    VisitAll(st, Window(st, thumbnails))
  }

  /** The outer loop, one scripted thumbnail list per pass. It stops when
      the quota is met or when the script has no further pass. */
  function Run(st: State, rounds: seq<seq<Thumbnail>>): State
    decreases |rounds|
  {
    if Done(st) || rounds == [] then st
    else Run(Round(st, rounds[0]), rounds[1..])
  }

  /** The final state of `get_image_urls` for `max_images == quota`. */
  function Harvest(quota: int, rounds: seq<seq<Thumbnail>>): State {
    Run(Init(quota), rounds)
  }

  // ---------------------------------------------------------------------
  // The invariant the loops keep.

  function Max0(n: int): nat {
    if n < 0 then 0 else n
  }

  /** Every duplicate raises `max_images` and `skips` together, so
      `max_images - skips` stays the caller's quota; the set never outgrows
      that quota and holds only accepted URLs. */
  ghost predicate Inv(st: State, quota: int) {
    && st.maxImages == quota + st.skips
    && |st.found| <= Max0(quota)
    && forall u :: u in st.found ==> WellFormed(u)
  }

  /** Nothing is ever taken back: the set only grows and the counters only rise. */
  ghost predicate Grows(st: State, st': State) {
    && st.found <= st'.found
    && st.skips <= st'.skips
    && st.maxImages <= st'.maxImages
  }

  lemma InitInv(quota: int)
    ensures Inv(Init(quota), quota)
  {
  }

  lemma {:induction false} ScanInv(st: State, images: seq<Candidate>, quota: int)
    requires Inv(st, quota)
    ensures Inv(Scan(st, images), quota) && Grows(st, Scan(st, images))
    decreases |images|
  {
    if images != [] && !Done(st) && images[0].Src? {
      var src := images[0].src;
      if src.Some? && src.value in st.found {
      } else if src.Some? && WellFormed(src.value) {
        var st' := st.(found := st.found + {src.value});
        assert |st'.found| == |st.found| + 1;
        ScanInv(st', images[1..], quota);
      } else {
        ScanInv(st, images[1..], quota);
      }
    }
  }

  lemma {:induction false} VisitAllInv(st: State, ts: seq<Thumbnail>, quota: int)
    requires Inv(st, quota)
    ensures Inv(VisitAll(st, ts), quota) && Grows(st, VisitAll(st, ts))
    decreases |ts|
  {
    if ts != [] {
      var st' := Visit(st, ts[0]);
      if ts[0].Opens? {
        ScanInv(st, ts[0].images, quota);
      }
      VisitAllInv(st', ts[1..], quota);
    }
  }

  lemma {:induction false} RunInv(st: State, rounds: seq<seq<Thumbnail>>, quota: int)
    requires Inv(st, quota)
    ensures Inv(Run(st, rounds), quota) && Grows(st, Run(st, rounds))
    decreases |rounds|
  {
    if !Done(st) && rounds != [] {
      VisitAllInv(st, Window(st, rounds[0]), quota);
      RunInv(Round(st, rounds[0]), rounds[1..], quota);
    }
  }

  /** What `get_image_urls` promises about its final state: at most the
      quota of URLs, all accepted ones; and the outer loop stops on the quota
      exactly when the set has reached the caller's `max_images`. */
  lemma HarvestBounded(quota: int, rounds: seq<seq<Thumbnail>>)
    ensures var f := Harvest(quota, rounds);
      && f.maxImages - f.skips == quota
      && |f.found| <= Max0(quota)
      && (forall u :: u in f.found ==> WellFormed(u))
      && (quota >= 0 ==> (Done(f) <==> |f.found| == quota))
  {
    InitInv(quota);
    RunInv(Init(quota), rounds, quota);
  }

  /** Once the quota is met, a further pass changes nothing. */
  lemma {:induction false} DoneIsFinal(st: State, images: seq<Candidate>, ts: seq<Thumbnail>, rounds: seq<seq<Thumbnail>>)
    requires Done(st)
    ensures Scan(st, images) == st
    ensures VisitAll(st, ts) == st
    ensures Run(st, rounds) == st
    decreases |ts|
  {
    if ts != [] {
      DoneIsFinal(Visit(st, ts[0]), images, ts[1..], rounds);
    }
  }

  // ---------------------------------------------------------------------
  // Every collected URL was offered by the page.

  /** Some thumbnail in `ts` reveals an element whose `src` is `u`. */
  ghost predicate Offers(ts: seq<Thumbnail>, u: string) {
    exists i :: 0 <= i < |ts| && ts[i].Opens? && Src(Some(u)) in ts[i].images
  }

  /** Some pass of the script offers `u`. */
  ghost predicate Offered(rounds: seq<seq<Thumbnail>>, u: string) {
    exists r :: 0 <= r < |rounds| && Offers(rounds[r], u)
  }

  lemma {:induction false} ScanFrom(st: State, images: seq<Candidate>, u: string)
    requires u in Scan(st, images).found
    ensures u in st.found || Src(Some(u)) in images
    decreases |images|
  {
    if images != [] && !Done(st) && images[0].Src? {
      var src := images[0].src;
      if src.Some? && src.value in st.found {
      } else if src.Some? && WellFormed(src.value) {
        ScanFrom(st.(found := st.found + {src.value}), images[1..], u);
      } else {
        ScanFrom(st, images[1..], u);
      }
    }
  }

  lemma {:induction false} VisitAllFrom(st: State, ts: seq<Thumbnail>, u: string)
    requires u in VisitAll(st, ts).found
    ensures u in st.found || Offers(ts, u)
    decreases |ts|
  {
    if ts != [] {
      VisitAllFrom(Visit(st, ts[0]), ts[1..], u);
      if u in Visit(st, ts[0]).found && u !in st.found {
        ScanFrom(st, ts[0].images, u);
        assert ts[0].Opens? && Src(Some(u)) in ts[0].images;
      } else if u !in st.found {
        var i :| 0 <= i < |ts[1..]| && ts[1..][i].Opens? && Src(Some(u)) in ts[1..][i].images;
        assert ts[i + 1] == ts[1..][i];
      }
    }
  }

  lemma {:induction false} WindowFrom(st: State, thumbnails: seq<Thumbnail>, u: string)
    requires !Done(st)
    requires Offers(Window(st, thumbnails), u)
    ensures Offers(thumbnails, u)
  {
    var w := Window(st, thumbnails);
    var i :| 0 <= i < |w| && w[i].Opens? && Src(Some(u)) in w[i].images;
    assert w[i] == thumbnails[|st.found| + st.skips + i];
  }

  lemma {:induction false} RunFrom(st: State, rounds: seq<seq<Thumbnail>>, u: string)
    requires u in Run(st, rounds).found
    ensures u in st.found || Offered(rounds, u)
    decreases |rounds|
  {
    if !Done(st) && rounds != [] {
      var st' := Round(st, rounds[0]);
      RunFrom(st', rounds[1..], u);
      if u in st'.found && u !in st.found {
        VisitAllFrom(st, Window(st, rounds[0]), u);
        WindowFrom(st, rounds[0], u);
        assert Offers(rounds[0], u);
      } else if u !in st.found {
        var r :| 0 <= r < |rounds[1..]| && Offers(rounds[1..][r], u);
        assert rounds[r + 1] == rounds[1..][r];
      }
    }
  }

  /** The loop invents nothing: every collected URL is the `src` of an
      element that some scripted thumbnail reveals. */
  lemma HarvestOffered(quota: int, rounds: seq<seq<Thumbnail>>, u: string)
    requires u in Harvest(quota, rounds).found
    ensures Offered(rounds, u)
  {
    RunFrom(Init(quota), rounds, u);
  }

  // ---------------------------------------------------------------------
  // Single steps: what a duplicate, a failed click and a pass do.

  /** Nothing after a duplicate is ever read: once a scan has met a
      duplicate (its `skips` went up), further elements make no difference. */
  lemma {:induction false} DuplicateEndsScan(st: State, xs: seq<Candidate>, ys: seq<Candidate>)
    requires Scan(st, xs).skips > st.skips
    ensures Scan(st, xs + ys) == Scan(st, xs)
    decreases |xs|
  {
    assert xs != [] && !Done(st);
    assert (xs + ys)[0] == xs[0];
    assert (xs + ys)[1..] == xs[1..] + ys;
    var src := xs[0].src;
    if src.Some? && src.value in st.found {
    } else if src.Some? && WellFormed(src.value) {
      DuplicateEndsScan(st.(found := st.found + {src.value}), xs[1..], ys);
    } else {
      DuplicateEndsScan(st, xs[1..], ys);
    }
  }

  /** The thumbnails of `ts` whose click succeeds, in order. */
  function Opened(ts: seq<Thumbnail>): seq<Thumbnail>
    decreases |ts|
  {
    if ts == [] then []
    else if ts[0].ClickFails? then Opened(ts[1..])
    else [ts[0]] + Opened(ts[1..])
  }

  /** Within a pass, thumbnails whose click fails change nothing: the pass
      ends as if only the opened thumbnails had been listed. */
  lemma {:induction false} FailedClicksChangeNothing(st: State, ts: seq<Thumbnail>)
    ensures VisitAll(st, ts) == VisitAll(st, Opened(ts))
    decreases |ts|
  {
    if ts != [] {
      if ts[0].ClickFails? {
        FailedClicksChangeNothing(st, ts[1..]);
      } else {
        FailedClicksChangeNothing(Visit(st, ts[0]), ts[1..]);
        VisitAllSteps(st, ts[0], Opened(ts[1..]));
      }
    }
  }

  // ---------------------------------------------------------------------
  // Scenarios.

  /** A thumbnail revealing one image with the given `src`. */
  function Shows(u: string): Thumbnail {
    Opens([Src(Some(u))])
  }

  lemma ShowsNew(st: State, u: string)
    requires !Done(st) && WellFormed(u) && u !in st.found
    ensures Visit(st, Shows(u)) == st.(found := st.found + {u})
  {
    var st' := st.(found := st.found + {u});
    assert Scan(st', []) == st';
    assert [Src(Some(u))][1..] == [];
    assert Scan(st, [Src(Some(u))]) == Scan(st', []);
  }

  lemma ShowsAgain(st: State, u: string)
    requires !Done(st) && u in st.found
    ensures Visit(st, Shows(u)) == st.(skips := st.skips + 1, maxImages := st.maxImages + 1)
  {
  }

  lemma {:induction false} VisitAllSteps(st: State, t: Thumbnail, ts: seq<Thumbnail>)
    ensures VisitAll(st, [t] + ts) == VisitAll(Visit(st, t), ts)
  {
    assert ([t] + ts)[1..] == ts;
  }

  /** Quota 3 over the thumbnails A, B, A, C, D, listed again on the second
      pass: the repeated A pushes the bound to 4, the second pass visits only
      C, and the loop stops before D. */
  lemma ScenarioWithDuplicate()
    ensures var a, b, c, d := "http://a", "http://b", "http://c", "http://d";
      var page := [Shows(a), Shows(b), Shows(a), Shows(c), Shows(d)];
      Harvest(3, [page, page]) == State({a, b, c}, 1, 4)
  {
    var a, b, c, d := "http://a", "http://b", "http://c", "http://d";
    var page := [Shows(a), Shows(b), Shows(a), Shows(c), Shows(d)];
    assert "http" <= a && "http" <= b && "http" <= c;
    var s0 := Init(3);
    var s1 := State({a}, 0, 3);
    var s2 := State({a, b}, 0, 3);
    var s3 := State({a, b}, 1, 4);
    var s4 := State({a, b, c}, 1, 4);
    ShowsNew(s0, a);
    assert b !in s1.found;
    ShowsNew(s1, b);
    assert s1.found + {b} == {a, b};
    assert |s2.found| == 2;
    ShowsAgain(s2, a);
    assert Window(s0, page) == [Shows(a)] + ([Shows(b)] + ([Shows(a)] + []));
    VisitAllSteps(s0, Shows(a), [Shows(b)] + ([Shows(a)] + []));
    VisitAllSteps(s1, Shows(b), [Shows(a)] + []);
    VisitAllSteps(s2, Shows(a), []);
    assert Round(s0, page) == s3;
    assert |s3.found| + s3.skips == 3;
    assert Window(s3, page) == [Shows(c)] + [];
    assert c !in s3.found;
    ShowsNew(s3, c);
    VisitAllSteps(s3, Shows(c), []);
    assert s3.found + {c} == {a, b, c};
    assert Round(s3, page) == s4;
    assert |s4.found| == 3;
    assert [page, page][1..] == [page];
    assert [page][1..] == [];
    assert Run(s4, []) == s4;
    assert Run(s3, [page]) == s4;
    assert Run(s0, [page, page]) == s4;
  }

  /** A duplicate ends the scan although the quota has room: with quota 3 and
      one thumbnail revealing A, A, B, the B is never read. */
  lemma ScenarioDuplicateStopsScan()
    ensures var a, b := "http://a", "http://b";
      Harvest(3, [[Opens([Src(Some(a)), Src(Some(a)), Src(Some(b))])]]) == State({a}, 1, 4)
  {
    var a, b := "http://a", "http://b";
    assert "http" <= a;
    var images := [Src(Some(a)), Src(Some(a)), Src(Some(b))];
    var s1 := State({a}, 0, 3);
    var s2 := State({a}, 1, 4);
    assert Scan(s1, images[1..]) == s2;
    assert Scan(Init(3), images) == s2;
    var page := [Opens(images)];
    assert Window(Init(3), page) == [Opens(images)] + [];
    VisitAllSteps(Init(3), Opens(images), []);
    assert Round(Init(3), page) == s2;
    assert [page][1..] == [];
    assert Run(s2, []) == s2;
    assert Run(Init(3), [page]) == s2;
  }

  /** Removing a duplicate changes what the loop returns, on a page where
      both runs finish. With quota 2 and the thumbnails [A, A, B] and [C], the
      repeated A ends the first scan, raises the bound to 3, and the second
      thumbnail supplies C: the result is {A, C}. Without the repeated A the
      first thumbnail supplies A and B and the result is {A, B}. */
  lemma ScenarioWithoutDuplicate()
    ensures var a, b, c := "http://a", "http://b", "http://c";
      var with := Harvest(2, [[Opens([Src(Some(a)), Src(Some(a)), Src(Some(b))]), Shows(c)]]);
      var without := Harvest(2, [[Opens([Src(Some(a)), Src(Some(b))]), Shows(c)]]);
      && with == State({a, c}, 1, 3) && Done(with)
      && without == State({a, b}, 0, 2) && Done(without)
  {
    var a, b, c := "http://a", "http://b", "http://c";
    assert "http" <= a && "http" <= b && "http" <= c;
    var s0 := Init(2);
    // With the duplicate.
    var dup := [Src(Some(a)), Src(Some(a)), Src(Some(b))];
    var s1 := State({a}, 0, 2);
    var s2 := State({a}, 1, 3);
    var s3 := State({a, c}, 1, 3);
    assert Scan(s1, dup[1..]) == s2;
    assert Scan(s0, dup) == s2;
    var page := [Opens(dup), Shows(c)];
    assert Window(s0, page) == [Opens(dup)] + ([Shows(c)] + []);
    VisitAllSteps(s0, Opens(dup), [Shows(c)] + []);
    assert c !in s2.found;
    ShowsNew(s2, c);
    assert s2.found + {c} == {a, c};
    VisitAllSteps(s2, Shows(c), []);
    assert Round(s0, page) == s3;
    assert |s3.found| == 2 && Done(s3);
    assert [page][1..] == [];
    assert Run(s3, []) == s3;
    assert Run(s0, [page]) == s3;
    // Without it.
    var images := [Src(Some(a)), Src(Some(b))];
    var t2 := State({a, b}, 0, 2);
    assert b !in s1.found;
    assert s1.found + {b} == {a, b};
    assert |t2.found| == 2 && Done(t2);
    assert Scan(t2, []) == t2;
    assert images[1..][1..] == [];
    assert Scan(s1, images[1..]) == t2;
    assert Scan(s0, images) == t2;
    var page' := [Opens(images), Shows(c)];
    assert Window(s0, page') == [Opens(images)] + ([Shows(c)] + []);
    VisitAllSteps(s0, Opens(images), [Shows(c)] + []);
    DoneIsFinal(t2, [], [Shows(c)] + [], []);
    assert Round(s0, page') == t2;
    assert [page'][1..] == [];
    assert Run(t2, []) == t2;
    assert Run(s0, [page']) == t2;
  }

  /** The loop can spin with new URLs on the page: when every pass lists a
      thumbnail without a usable `src` first and a fresh URL second, a quota
      of 1 makes each window `thumbnails[0:1]`, which never yields anything,
      so no number of passes gets further than the initial state. */
  lemma {:induction false} SpinsOnBarrenWindow(rounds: seq<seq<Thumbnail>>)
    requires forall r :: 0 <= r < |rounds| ==> rounds[r] == [Opens([Src(None)]), Shows("http://a")]
    ensures Harvest(1, rounds) == Init(1)
    decreases |rounds|
  {
    if rounds != [] {
      var page := rounds[0];
      var s0 := Init(1);
      assert Window(s0, page) == [Opens([Src(None)])] + [];
      assert [Src(None)][1..] == [];
      assert Scan(s0, []) == s0;
      assert Scan(s0, [Src(None)]) == s0;
      VisitAllSteps(s0, Opens([Src(None)]), []);
      assert Round(s0, page) == s0;
      SpinsOnBarrenWindow(rounds[1..]);
    }
  }

  /** A failed click still takes up a place in the window: with quota 3 and
      the page `[fails, A, B, C]` listed on every pass, the first pass visits
      the failing thumbnail, A and B; the second starts again at index 2 and
      meets B as a duplicate; only the third reaches C. */
  lemma ScenarioFailedClickShiftsWindow()
    ensures var a, b, c := "http://a", "http://b", "http://c";
      var page := [ClickFails, Shows(a), Shows(b), Shows(c)];
      Harvest(3, [page, page, page]) == State({a, b, c}, 1, 4)
  {
    var a, b, c := "http://a", "http://b", "http://c";
    var page := [ClickFails, Shows(a), Shows(b), Shows(c)];
    assert "http" <= a && "http" <= b && "http" <= c;
    var s0 := Init(3);
    var s1 := State({a}, 0, 3);
    var s2 := State({a, b}, 0, 3);
    var s3 := State({a, b}, 1, 4);
    var s4 := State({a, b, c}, 1, 4);
    ShowsNew(s0, a);
    assert b !in s1.found;
    ShowsNew(s1, b);
    assert s1.found + {b} == {a, b};
    assert |s2.found| == 2;
    assert Window(s0, page) == [ClickFails] + ([Shows(a)] + ([Shows(b)] + []));
    VisitAllSteps(s0, ClickFails, [Shows(a)] + ([Shows(b)] + []));
    VisitAllSteps(s0, Shows(a), [Shows(b)] + []);
    VisitAllSteps(s1, Shows(b), []);
    assert Round(s0, page) == s2;
    assert Window(s2, page) == [Shows(b)] + [];
    ShowsAgain(s2, b);
    VisitAllSteps(s2, Shows(b), []);
    assert Round(s2, page) == s3;
    assert |s3.found| + s3.skips == 3;
    assert Window(s3, page) == [Shows(c)] + [];
    assert c !in s3.found;
    ShowsNew(s3, c);
    VisitAllSteps(s3, Shows(c), []);
    assert s3.found + {c} == {a, b, c};
    assert Round(s3, page) == s4;
    assert |s4.found| == 3;
    assert [page, page, page][1..] == [page, page];
    assert [page, page][1..] == [page];
    assert [page][1..] == [];
    assert Run(s4, []) == s4;
    assert Run(s3, [page]) == s4;
    assert Run(s2, [page, page]) == s4;
    assert Run(s0, [page, page, page]) == s4;
  }

  // ---------------------------------------------------------------------
  // The method.

  /** `list(image_urls)`: the set's elements, each once, in some order. */
  method ToList(s: set<string>) returns (xs: seq<string>)
    ensures |xs| == |s|
    ensures forall u :: u in xs <==> u in s
    ensures forall i, j :: 0 <= i < j < |xs| ==> xs[i] != xs[j]
  {
    xs := [];
    var rest := s;
    while rest != {}
      invariant rest <= s
      invariant forall u :: u in xs <==> u in s && u !in rest
      invariant forall i, j :: 0 <= i < j < |xs| ==> xs[i] != xs[j]
      invariant |xs| + |rest| == |s|
      decreases |rest|
    {
      var u :| u in rest;
      xs := xs + [u];
      rest := rest - {u};
    }
  }

  /** The innermost loop of `get_image_urls`: reading the enlarged images
      after one successful click, from the loop's current variables. */
  method ScanImages(imageUrls0: set<string>, skips0: nat, maxImages0: int, images: seq<Candidate>)
    returns (imageUrls: set<string>, skips: nat, maxImages: int)
    ensures State(imageUrls, skips, maxImages) == Scan(State(imageUrls0, skips0, maxImages0), images)
  {
    imageUrls, skips, maxImages := imageUrls0, skips0, maxImages0;
    var j := 0;
    while j < |images|
      invariant 0 <= j <= |images|
      invariant Scan(State(imageUrls, skips, maxImages), images[j..]) == Scan(State(imageUrls0, skips0, maxImages0), images)
    {
      assert images[j..][1..] == images[j + 1..];
      if |imageUrls| + skips >= maxImages {
        break;
      }
      if images[j].Stale? {
        break;
      }
      var src := images[j].src;
      if src.Some? && src.value in imageUrls {
        maxImages := maxImages + 1;
        skips := skips + 1;
        break;
      }
      if src.Some? && src.value != "" && Contains(src.value, "http") {
        imageUrls := imageUrls + {src.value};
      }
      j := j + 1;
    }
  }

  /** `get_image_urls` with the page replaced by `rounds`, one thumbnail list
      per pass of the outer loop. `satisfied` tells whether the loop stopped
      on its quota; it is false only when the script ran out first, where the
      real loop would keep scrolling. */
  method GetImageUrls(quota: int, rounds: seq<seq<Thumbnail>>) returns (urls: seq<string>, satisfied: bool)
    ensures var f := Harvest(quota, rounds);
      && |urls| == |f.found|
      && (forall u :: u in urls <==> u in f.found)
      && satisfied == Done(f)
    ensures forall i, j :: 0 <= i < j < |urls| ==> urls[i] != urls[j]
    ensures forall u :: u in urls ==> WellFormed(u) && Offered(rounds, u)
    ensures |urls| <= Max0(quota)
    ensures satisfied && quota >= 0 ==> |urls| == quota
  {
    var imageUrls: set<string> := {};
    var skips: nat := 0;
    var maxImages := quota;
    var r := 0;
    while |imageUrls| + skips < maxImages && r < |rounds|
      invariant 0 <= r <= |rounds|
      invariant Run(State(imageUrls, skips, maxImages), rounds[r..]) == Harvest(quota, rounds)
      decreases |rounds| - r
    {
      assert rounds[r..][1..] == rounds[r + 1..];
      ghost var start := State(imageUrls, skips, maxImages);
      var thumbnails := Slice(rounds[r], |imageUrls| + skips, maxImages);
      var i := 0;
      while i < |thumbnails|
        invariant 0 <= i <= |thumbnails|
        invariant VisitAll(State(imageUrls, skips, maxImages), thumbnails[i..]) == VisitAll(start, thumbnails)
      {
        assert thumbnails[i..][1..] == thumbnails[i + 1..];
        match thumbnails[i] {
          case ClickFails =>
          case Opens(images) =>
            imageUrls, skips, maxImages := ScanImages(imageUrls, skips, maxImages, images);
        }
        i := i + 1;
      }
      r := r + 1;
    }
    satisfied := |imageUrls| + skips >= maxImages;
    urls := ToList(imageUrls);
    HarvestBounded(quota, rounds);
    forall u | u in urls
      ensures Offered(rounds, u)
    {
      HarvestOffered(quota, rounds, u);
    }
  }
}
