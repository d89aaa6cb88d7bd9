/**
 * The file-name scheme of `get_images` and the label extraction of
 * `get_pixel_arrays` in scripts/google_search.py.
 *
 * `get_images` saves the image for the `count`-th URL of query `q` as
 * `q.replace(" ", "_") + str(count) + ".jpg"` in the data directory;
 * `get_pixel_arrays` later lists that directory and labels each file by the
 * part of its name before the first digit.
 */
module DatasetLabels {

  /** A decimal digit (Python's `str.isdigit`, restricted to ASCII). */
  predicate IsDigit(c: char) {
    '0' <= c <= '9'
  }

  predicate DigitFree(s: string) {
    forall i :: 0 <= i < |s| ==> !IsDigit(s[i])
  }

  /** The label of a file name: its longest prefix without a digit, or the
      whole name when it holds none. */
  function Label(filename: string): (lbl: string)
    ensures lbl <= filename
    ensures DigitFree(lbl)
    ensures |lbl| < |filename| ==> IsDigit(filename[|lbl|])
  {
    if filename == [] || IsDigit(filename[0]) then ""
    else [filename[0]] + Label(filename[1..])
  }

  /** The three properties above pin the label down: a digit-free prefix
      that is followed by a digit or is the whole name is the label. */
  lemma LabelUnique(filename: string, p: string)
    requires p <= filename && DigitFree(p)
    requires |p| < |filename| ==> IsDigit(filename[|p|])
    ensures p == Label(filename)
  {
  }

  /** The label loop of `get_pixel_arrays`: walk the name, and at the first
      digit cut the name there and stop. */
  method ExtractLabel(filename: string) returns (lbl: string)
    ensures lbl == Label(filename)
  {
    lbl := filename;
    var i := 0;
    while i < |filename|
      invariant 0 <= i <= |filename|
      invariant DigitFree(filename[..i])
      invariant lbl == filename
    {
      if IsDigit(filename[i]) {
        lbl := filename[..i];
        LabelUnique(filename, lbl);
        return;
      }
      i := i + 1;
    }
    assert filename[..i] == filename;
    LabelUnique(filename, lbl);
  }

  // ---------------------------------------------------------------------
  // File names written by `get_images`.

  /** `q.replace(" ", "_")`: every space becomes an underscore. */
  function Underscored(q: string): string {
    seq(|q|, i requires 0 <= i < |q| => if q[i] == ' ' then '_' else q[i])
  }

  function DigitChar(d: nat): (c: char)
    requires d < 10
    ensures IsDigit(c)
  {
    ('0' as int + d) as char
  }

  function DigitValue(c: char): nat
    requires IsDigit(c)
  {
    c as int - '0' as int
  }

  /** `str(n)` for a natural number: its decimal digits, without leading zeros. */
  function DecimalString(n: nat): (s: string)
    ensures s != [] && forall i :: 0 <= i < |s| ==> IsDigit(s[i])
    ensures s[0] == '0' ==> n == 0
    decreases n
  {
    if n < 10 then [DigitChar(n)] else DecimalString(n / 10) + [DigitChar(n % 10)]
  }

  /** The number a string of decimal digits denotes. */
  function ParseDecimal(s: string): nat
    requires forall i :: 0 <= i < |s| ==> IsDigit(s[i])
    decreases |s|
  {
    if s == [] then 0 else ParseDecimal(s[..|s| - 1]) * 10 + DigitValue(s[|s| - 1])
  }

  /** Reading `str(n)` back gives `n`. */
  lemma {:induction false} ParseDecimalString(n: nat)
    ensures ParseDecimal(DecimalString(n)) == n
    decreases n
  {
    var s := DecimalString(n);
    if n >= 10 {
      ParseDecimalString(n / 10);
      assert s[..|s| - 1] == DecimalString(n / 10);
    }
  }

  /** The name under which `get_images` saves the `count`-th image of query `q`. */
  function FileName(q: string, count: nat): string {
    Underscored(q) + DecimalString(count) + ".jpg"
  }

  /** The naming loop of `get_images`: one file name per harvested URL, numbered
      by its position in the list. */
  method ImageFileNames(q: string, urlList: seq<string>) returns (names: seq<string>)
    ensures |names| == |urlList|
    ensures forall i :: 0 <= i < |names| ==> names[i] == FileName(q, i)
    ensures forall i, j :: 0 <= i < j < |names| ==> names[i] != names[j]
    ensures DigitFree(q) ==> forall i :: 0 <= i < |names| ==> Label(names[i]) == Underscored(q)
  {
    var stem := Underscored(q);
    names := [];
    for count := 0 to |urlList|
      invariant |names| == count
      invariant forall i :: 0 <= i < count ==> names[i] == FileName(q, i)
    {
      names := names + [stem + DecimalString(count) + ".jpg"];
    }
    forall i, j | 0 <= i < j < |names|
      ensures names[i] != names[j]
    {
      FileNamesDistinct(q, i, j);
    }
    if DigitFree(q) {
      forall i | 0 <= i < |names|
        ensures Label(names[i]) == Underscored(q)
      {
        LabelOfFileName(q, i);
      }
    }
  }

  /** Two images of one query never share a file name, so none overwrites another. */
  lemma FileNamesDistinct(q: string, i: nat, j: nat)
    requires i != j
    ensures FileName(q, i) != FileName(q, j)
  {
    var stem, di, dj := Underscored(q), DecimalString(i), DecimalString(j);
    if FileName(q, i) == FileName(q, j) {
      assert |di| == |dj|;
      assert di == FileName(q, i)[|stem|..|stem| + |di|];
      assert dj == FileName(q, j)[|stem|..|stem| + |dj|];
      ParseDecimalString(i);
      ParseDecimalString(j);
    }
  }

  /** The naming round trip: for a query without digits, the label read back
      from any file `get_images` wrote for it is the query with its spaces
      turned into underscores. */
  lemma LabelOfFileName(q: string, count: nat)
    requires DigitFree(q)
    ensures Label(FileName(q, count)) == Underscored(q)
  {
    var stem, name := Underscored(q), FileName(q, count);
    assert name[|stem|] == DecimalString(count)[0];
    LabelUnique(name, stem);
  }

  /** A digit inside the query cuts the label short: the images of
      "Top 10 Painting" are labelled "Top_". */
  lemma LabelOfQueryWithDigit()
    ensures Label(FileName("Top 10 Painting", 0)) == "Top_"
  {
    var name := FileName("Top 10 Painting", 0);
    assert name[..4] == "Top_" && IsDigit(name[4]);
    LabelUnique(name, "Top_");
  }
}
