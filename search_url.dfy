/**
 * Building the image-search address from an ordered list of query
 * parameters (`generate_url` in scripts/google_search.py).
 *
 * The parameters are a Python dict; its insertion order is modelled by a
 * sequence of (name, value) pairs. Names and values are copied verbatim:
 * there is no percent-encoding.
 */
module SearchUrl {

  /** Every generated address starts with this prefix. */
  const Base: string := "https://www.google.com/search?"

  /** One query parameter: its name and its value. */
  type Param = (string, string)

  /** The text `name=value` for one parameter. */
  function Pair(p: Param): string {
    p.0 + "=" + p.1
  }

  /** The `name=value` texts of all parameters, in insertion order. */
  function Pairs(params: seq<Param>): seq<string> {
    seq(|params|, i requires 0 <= i < |params| => Pair(params[i]))
  }

  /** `parts` separated by `sep`, with no separator before the first or after the last. */
  function Join(sep: string, parts: seq<string>): string {
    if |parts| == 0 then ""
    else if |parts| == 1 then parts[0]
    else parts[0] + sep + Join(sep, parts[1..])
  }

  /** What the loop of `generate_url` has appended after visiting `params`:
      every `name=value` followed by `&`, including the last one. */
  function Terminated(params: seq<Param>): string {
    if params == [] then ""
    else Terminated(params[..|params| - 1]) + Pair(params[|params| - 1]) + "&"
  }

  /** `generate_url`: start from the base, append `name=value&` per
      parameter, then drop the last character if it is `&`. */
  method GenerateUrl(params: seq<Param>) returns (url: string)
    ensures url == Base + Join("&", Pairs(params))
  {
    url := Base;
    for i := 0 to |params|
      invariant url == Base + Terminated(params[..i])
    {
      assert params[..i + 1][..i] == params[..i];
      var (param, val) := params[i];
      url := url + (param + "=" + val + "&");
    }
    assert params[..|params|] == params;
    if params != [] {
      OnlyFinalSeparator(params);
    }
    if url[|url| - 1] == '&' {
      url := url[..|url| - 1];
    }
  }

  lemma {:induction false} JoinSnoc(sep: string, parts: seq<string>, last: string)
    requires parts != []
    ensures Join(sep, parts + [last]) == Join(sep, parts) + sep + last
  {
    if |parts| > 1 {
      assert (parts + [last])[1..] == parts[1..] + [last];
      JoinSnoc(sep, parts[1..], last);
    }
  }

  /** Only the separator after the last pair is redundant: the loop's text is
      the `&`-join of the pairs followed by exactly one `&`. */
  lemma {:induction false} OnlyFinalSeparator(params: seq<Param>)
    requires params != []
    ensures Terminated(params) == Join("&", Pairs(params)) + "&"
  {
    var init := params[..|params| - 1];
    var last := params[|params| - 1];
    if init == [] {
      assert Pairs(params) == [Pair(last)];
    } else {
      OnlyFinalSeparator(init);
      assert Pairs(params) == Pairs(init) + [Pair(last)];
      JoinSnoc("&", Pairs(init), Pair(last));
    }
  }

  /** The unit test's example: `{"q": "dog", "tbm": "isch"}`. */
  lemma DogSearchUrl()
    ensures Base + Join("&", Pairs([("q", "dog"), ("tbm", "isch")]))
         == "https://www.google.com/search?q=dog&tbm=isch"
  {
    assert Pair(("q", "dog")) == "q=dog";
    assert Pair(("tbm", "isch")) == "tbm=isch";
    assert Pairs([("q", "dog"), ("tbm", "isch")]) == ["q=dog", "tbm=isch"];
  }

  /** With no parameters the address is the base itself, ending in `?`. */
  lemma EmptyParamsUrl()
    ensures Base + Join("&", Pairs([])) == Base
    ensures Base[|Base| - 1] == '?'
  {
  }

  /** Values are not escaped: a value holding `&` and `=` yields the same
      address as two separate parameters. */
  lemma NoEscaping()
    ensures Base + Join("&", Pairs([("q", "a&b=c")]))
         == Base + Join("&", Pairs([("q", "a"), ("b", "c")]))
  {
    assert Pair(("q", "a&b=c")) == "q=a&b=c";
    assert Pair(("q", "a")) == "q=a";
    assert Pair(("b", "c")) == "b=c";
    assert Pairs([("q", "a&b=c")]) == ["q=a&b=c"];
    assert Pairs([("q", "a"), ("b", "c")]) == ["q=a", "b=c"];
  }

  /** The unit test of `generate_url`, run against the method itself. */
  method DogSearchExample() returns (url: string)
    ensures url == "https://www.google.com/search?q=dog&tbm=isch"
  {
    url := GenerateUrl([("q", "dog"), ("tbm", "isch")]);
    DogSearchUrl();
  }

  /** `generate_url({})` against the method itself: the bare base. */
  method EmptyParamsExample() returns (url: string)
    ensures url == "https://www.google.com/search?"
  {
    url := GenerateUrl([]);
    EmptyParamsUrl();
  }

  // ---------------------------------------------------------------------
  // The inverse: reading the parameters back out of the query text.

  /** `s` cut at every occurrence of `c`. */
  function SplitOn(s: string, c: char): (parts: seq<string>)
    ensures |parts| >= 1
    ensures forall i :: 0 <= i < |parts| ==> c !in parts[i]
  {
    if s == [] then [""]
    else if s[0] == c then [""] + SplitOn(s[1..], c)
    else
      var rest := SplitOn(s[1..], c);
      [[s[0]] + rest[0]] + rest[1..]
  }

  /** A `name=value` text cut at its first `=` (a text without `=` is a name with an empty value). */
  function SplitPair(s: string): (p: Param)
    ensures '=' !in p.0
  {
    if s == [] then ("", "")
    else if s[0] == '=' then ("", s[1..])
    else
      var (k, v) := SplitPair(s[1..]);
      ([s[0]] + k, v)
  }

  /** The parameters written in a query text (the part after `?`). */
  function ParseQuery(query: string): seq<Param> {
    if query == [] then []
    else
      var parts := SplitOn(query, '&');
      seq(|parts|, i requires 0 <= i < |parts| => SplitPair(parts[i]))
  }

  lemma {:induction false} SplitOnWithout(s: string, c: char)
    requires c !in s
    ensures SplitOn(s, c) == [s]
  {
    if s != [] {
      assert c !in s[1..];
      SplitOnWithout(s[1..], c);
      assert [s[0]] + s[1..] == s;
    }
  }

  lemma {:induction false} SplitOnFirst(a: string, c: char, b: string)
    requires c !in a
    ensures SplitOn(a + [c] + b, c) == [a] + SplitOn(b, c)
  {
    if a == [] {
      assert (a + [c] + b)[1..] == b;
    } else {
      assert (a + [c] + b)[1..] == a[1..] + [c] + b;
      SplitOnFirst(a[1..], c, b);
      assert [a[0]] + a[1..] == a;
    }
  }

  /** Splitting undoes joining, for parts that do not contain the separator. */
  lemma {:induction false} SplitJoin(parts: seq<string>, c: char)
    requires parts != []
    requires forall i :: 0 <= i < |parts| ==> c !in parts[i]
    ensures SplitOn(Join([c], parts), c) == parts
  {
    if |parts| == 1 {
      SplitOnWithout(parts[0], c);
    } else {
      SplitJoin(parts[1..], c);
      SplitOnFirst(parts[0], c, Join([c], parts[1..]));
      assert parts[0] + [c] + Join([c], parts[1..]) == Join([c], parts);
    }
  }

  /** Joining undoes splitting: no text is lost by the cut. */
  lemma {:induction false} JoinSplit(s: string, c: char)
    ensures Join([c], SplitOn(s, c)) == s
  {
    if s != [] {
      JoinSplit(s[1..], c);
      var rest := SplitOn(s[1..], c);
      if s[0] == c {
        assert SplitOn(s, c)[1..] == rest;
      } else {
        var parts := SplitOn(s, c);
        assert parts[1..] == rest[1..];
        if |rest| > 1 {
          assert rest == [rest[0]] + rest[1..];
        }
      }
    }
  }

  lemma {:induction false} SplitPairOf(k: string, v: string)
    requires '=' !in k
    ensures SplitPair(k + "=" + v) == (k, v)
  {
    if k == [] {
      assert (k + "=" + v)[1..] == v;
    } else {
      assert (k + "=" + v)[1..] == k[1..] + "=" + v;
      SplitPairOf(k[1..], v);
      assert [k[0]] + k[1..] == k;
    }
  }

  /** The address determines the parameters as long as no name holds `&` or
      `=` and no value holds `&`: reading the query back gives them again. */
  lemma {:induction false} QueryRoundTrip(params: seq<Param>)
    requires forall i :: 0 <= i < |params| ==> '&' !in params[i].0 && '=' !in params[i].0 && '&' !in params[i].1
    ensures ParseQuery(Join("&", Pairs(params))) == params
  {
    if params != [] {
      var pairs := Pairs(params);
      assert Join("&", pairs)[..|pairs[0]|] == pairs[0] != [];
      SplitJoin(pairs, '&');
      forall i | 0 <= i < |params|
        ensures SplitPair(pairs[i]) == params[i]
      {
        SplitPairOf(params[i].0, params[i].1);
      }
    }
  }

  lemma {:induction false} SplitPairJoin(s: string)
    requires '=' in s
    ensures Pair(SplitPair(s)) == s
  {
    if s[0] != '=' {
      SplitPairJoin(s[1..]);
      assert [s[0]] + s[1..] == s;
    } else {
      assert "=" + s[1..] == s;
    }
  }

  /** The other direction: every query text whose `&`-pieces each hold a
      `=` is exactly what `generate_url` writes for the parameters read out
      of it. */
  lemma QueryTextRoundTrip(query: string)
    requires query != [] ==> forall i :: 0 <= i < |SplitOn(query, '&')| ==> '=' in SplitOn(query, '&')[i]
    ensures Join("&", Pairs(ParseQuery(query))) == query
  {
    if query != [] {
      var parts := SplitOn(query, '&');
      forall i | 0 <= i < |parts|
        ensures Pairs(ParseQuery(query))[i] == parts[i]
      {
        SplitPairJoin(parts[i]);
      }
      assert Pairs(ParseQuery(query)) == parts;
      JoinSplit(query, '&');
    }
  }
}
