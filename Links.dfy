/**
 * The Pandoc filter `convert_link` (tasks.py): a link to another notebook
 * becomes a TeX chapter reference, a link to a heading becomes a TeX section
 * reference, and every other element is left as it is.
 *
 * The two regular expressions are written out as string predicates. Link
 * targets are assumed to hold no newline (Python's `.` and `$` treat a newline
 * specially), and `\d` is an ASCII digit.
 */
module Links {
  import opened Wrappers
  import opened Labels

  /** The notebook file extension that ends a chapter link. */
  const Extension := ".ipynb"

  /** Length of the run of digits that starts `t` (what `\d+` can consume). */
  function DigitRun(t: string): (k: nat)
    ensures k <= |t|
    ensures forall i :: 0 <= i < k ==> IsDigit(t[i])
    ensures k == |t| || !IsDigit(t[k])
  {
    if t != [] && IsDigit(t[0]) then 1 + DigitRun(t[1..]) else 0
  }

  /** `p` is matched in full by `\d+\-.+\.ipynb`. */
  predicate IsNotebookName(p: string)
    ensures IsNotebookName(p) ==> |p| >= 3 + |Extension| && IsDigit(p[0])
  {
    var k := DigitRun(p);
    1 <= k && k + 2 + |Extension| <= |p| && p[k] == '-' && p[|p| - |Extension|..] == Extension
  }

  predicate AllDigits(s: string) {
    forall i :: 0 <= i < |s| ==> IsDigit(s[i])
  }

  /**
   * Reference reading of `\d+\-.+\.ipynb`: SOME non-empty digit prefix, then `-`,
   * then at least one character, then the extension at the very end.
   */
  predicate NotebookShape(p: string) {
    exists k :: 1 <= k && k + 2 + |Extension| <= |p| && AllDigits(p[..k]) && p[k] == '-'
                && p[|p| - |Extension|..] == Extension
  }

  /** What a recognised link target is rewritten to. */
  datatype Reference = Chapter(name: string) | Section(anchor: string)

  /** The raw TeX that replaces the link. */
  function Tex(r: Reference): (s: string)
    ensures |s| > 8 && s[|s| - 1] == '}'
    ensures r.Chapter? ==> s[..8] == "Chapter "
    ensures r.Section? ==> s[..8] == "Section "
  {
    match r
    case Chapter(name) => "Chapter \\ref{sec:" + name + "}"
    case Section(anchor) => "Section \\ref{" + anchor + "}"
  }

  /** Distinct references give distinct TeX, so the rewrite loses nothing of the target it keeps. */
  lemma TexInjective(a: Reference, b: Reference)
    requires Tex(a) == Tex(b)
    ensures a == b
  {
    var s := Tex(a);
    assert a.Chapter? <==> s[0] == 'C';
    assert b.Chapter? <==> s[0] == 'C';
    match a
    case Chapter(name) =>
      assert s[17..|s| - 1] == name;
      assert b.Chapter? && s[17..|s| - 1] == b.name;
    case Section(anchor) =>
      assert s[13..|s| - 1] == anchor;
      assert b.Section? && s[13..|s| - 1] == b.anchor;
  }

  /**
   * `(\d+\-.+\.ipynb)?#(.+)$` can match with its `#` at position `j`: the part
   * before is empty (the optional group skipped) or a notebook name, and the
   * fragment after it is non-empty.
   */
  predicate IsSplit(t: string, j: int)
    ensures IsSplit(t, j) ==> 0 <= j < |t| - 1 && t[j] == '#'
  {
    0 <= j && j + 1 < |t| && t[j] == '#' && (j == 0 || IsNotebookName(t[..j]))
  }

  /**
   * The largest split position below `n`. The optional group is greedy and so
   * is the `.+` inside it, so the regex engine tries the longest prefix first
   * and falls back to an empty prefix (position 0) last.
   */
  function LastSplit(t: string, n: nat): (r: Option<nat>)
    requires n <= |t|
    ensures r.Some? ==> r.value < n && IsSplit(t, r.value)
    ensures r.Some? ==> forall j :: r.value < j < n ==> !IsSplit(t, j)
    ensures r.None? ==> forall j :: j < n ==> !IsSplit(t, j)
  {
    if n == 0 then None
    else if IsSplit(t, n - 1) then Some(n - 1)
    else LastSplit(t, n - 1)
  }

  /** Group 2 of the section pattern: what follows the `#` the match uses. */
  function Fragment(t: string): (f: Option<string>)
    ensures f.None? <==> forall j :: !IsSplit(t, j)
    ensures f.Some? ==> exists j :: IsSplit(t, j) && (forall j' :: j < j' ==> !IsSplit(t, j'))
                                    && f.value == t[j + 1..]
  {
    match LastSplit(t, |t|)
    case None => None
    case Some(j) => Some(t[j + 1..])
  }

  /**
   * The rewrite `convert_link` makes of a link target, if any: the chapter
   * pattern is tried first, then the section pattern.
   */
  function ConvertTarget(t: string): (r: Option<Reference>)
    ensures IsNotebookName(t) ==> r == Some(Chapter(t[..|t| - |Extension|]))
    ensures !IsNotebookName(t) ==> (r.Some? <==> exists j :: IsSplit(t, j))
    ensures !IsNotebookName(t) && r.Some? ==> r.value.Section?
  {
    if IsNotebookName(t) then Some(Chapter(t[..|t| - |Extension|]))
    else match Fragment(t)
      case None => None
      case Some(fragment) => Some(Section(Clean(fragment)))
  }

  /** Pandoc link attributes: identifier, classes and key-value pairs. */
  datatype Attr = Attr(id: string, classes: seq<string>, pairs: seq<(string, string)>)

  /** The key of any Pandoc element other than a link. */
  type OtherKey = key: string | key != "Link" witness "Str"

  /**
   * A Pandoc inline element as the filter sees it. `Link` carries the payload
   * `[attr, inlines, [url, title]]`; `Other` stands for every element whose
   * key is not "Link" (its key is kept, its payload is of no concern here).
   */
  datatype Element =
    | Link(attr: Attr, content: seq<Element>, url: string, title: string)
    | RawInline(format: string, text: string)
    | Other(key: OtherKey)

  /** `convert_link`: the replacement element, or None to keep the element. */
  function ConvertLink(e: Element): (r: Option<Element>)
    ensures r.Some? ==> e.Link? && ConvertTarget(e.url).Some?
    ensures r.Some? ==> r.value == RawInline("tex", Tex(ConvertTarget(e.url).value))
    ensures e.Link? && ConvertTarget(e.url).Some? ==> r.Some?
  {
    match e
    case Link(_, _, url, _) =>
      (match ConvertTarget(url)
       case Some(reference) => Some(RawInline("tex", Tex(reference)))
       case None => None)
    case _ => None
  }

  /** The element after the filter ran on it: the replacement, or the element itself. */
  function Filtered(e: Element): (r: Element)
    ensures ConvertLink(e).None? ==> r == e
    ensures ConvertLink(e).Some? ==> r == RawInline("tex", Tex(ConvertTarget(e.url).value))
  {
    match ConvertLink(e)
    case Some(replacement) => replacement
    case None => e
  }

  // ----- Recognising notebook names -----

  /** A digit prefix followed by a non-digit is exactly the digit run. */
  lemma DigitRunIs(t: string, k: nat)
    requires k < |t| && AllDigits(t[..k]) && !IsDigit(t[k])
    ensures DigitRun(t) == k
  {
    assert forall i :: 0 <= i < k ==> IsDigit(t[i]) by {
      forall i | 0 <= i < k ensures IsDigit(t[i]) {
        assert t[..k][i] == t[i];
      }
    }
  }

  /** The digit-run recogniser agrees with the reference reading, both ways. */
  lemma NotebookNameShape(p: string)
    ensures IsNotebookName(p) <==> NotebookShape(p)
  {
    if IsNotebookName(p) {
      var k := DigitRun(p);
      assert AllDigits(p[..k]);
    }
    if NotebookShape(p) {
      var k :| 1 <= k && k + 2 + |Extension| <= |p| && AllDigits(p[..k]) && p[k] == '-'
               && p[|p| - |Extension|..] == Extension;
      DigitRunIs(p, k);
    }
  }

  /** Every notebook name starts with a digit. */
  lemma NotebookNameStartsWithDigit(p: string)
    requires IsNotebookName(p)
    ensures p != [] && IsDigit(p[0])
  {
  }

  // ----- Properties of convert_link -----

  /**
   * Chapter links: digits, `-`, at least one more character, then `.ipynb`
   * become `Chapter \ref{sec:<target without .ipynb>}`.
   */
  lemma ChapterLink(digits: string, middle: string)
    requires |digits| >= 1 && AllDigits(digits) && |middle| >= 1
    ensures ConvertTarget(digits + "-" + middle + Extension) == Some(Chapter(digits + "-" + middle))
    ensures Tex(ConvertTarget(digits + "-" + middle + Extension).value)
            == "Chapter \\ref{sec:" + digits + "-" + middle + "}"
  {
    var t := digits + "-" + middle + Extension;
    assert t[..|digits|] == digits;
    DigitRunIs(t, |digits|);
    assert t[..|t| - |Extension|] == digits + "-" + middle;
  }

  /** A target without `#` has no section split. */
  lemma NoHashNoSplit(t: string)
    requires '#' !in t
    ensures forall j :: !IsSplit(t, j)
  {
    forall j | 0 <= j < |t| ensures t[j] != '#' {
      assert t[j] in t;
    }
  }

  /** Only targets starting with a digit or `#` are ever rewritten. */
  lemma RewriteNeedsDigitOrHash(t: string)
    requires ConvertTarget(t).Some?
    ensures t != [] && (IsDigit(t[0]) || t[0] == '#')
  {
    if !IsNotebookName(t) {
      var j :| IsSplit(t, j);
      if j > 0 {
        NotebookNameStartsWithDigit(t[..j]);
        assert t[..j][0] == t[0];
      }
    }
  }

  /**
   * Links to a heading of the same notebook: `#` and a non-empty fragment
   * become `Section \ref{<cleaned fragment>}`.
   */
  lemma LocalSectionLink(fragment: string)
    requires fragment != []
    ensures ConvertTarget("#" + fragment) == Some(Section(Clean(fragment)))
  {
    var t := "#" + fragment;
    assert !IsNotebookName(t) by {
      assert !IsDigit(t[0]);
    }
    assert IsSplit(t, 0);
    forall j | 0 < j ensures !IsSplit(t, j) {
      if IsSplit(t, j) {
        NotebookNameStartsWithDigit(t[..j]);
      }
    }
    GreedySectionSplit(t, 0);
    assert t[1..] == fragment;
  }

  /**
   * Links to a heading of another notebook: `<notebook>#<fragment>`, when the
   * fragment holds no further `#` and the whole is not a chapter link, become
   * `Section \ref{<cleaned fragment>}`.
   */
  lemma NotebookSectionLink(notebook: string, fragment: string)
    requires IsNotebookName(notebook) && fragment != [] && '#' !in fragment
    requires !IsNotebookName(notebook + "#" + fragment)
    ensures ConvertTarget(notebook + "#" + fragment) == Some(Section(Clean(fragment)))
  {
    var t := notebook + "#" + fragment;
    var n := |notebook|;
    assert t[..n] == notebook;
    assert IsSplit(t, n);
    assert |t| == n + 1 + |fragment|;
    forall j | n < j ensures !IsSplit(t, j) {
      if n < j < |t| {
        assert t[j] == fragment[j - n - 1];
        assert fragment[j - n - 1] in fragment;
      }
    }
    GreedySectionSplit(t, n);
    assert t[n + 1..] == fragment;
  }

  /** The section prefix is greedy: the LAST admissible `#` splits off the fragment. */
  lemma GreedySectionSplit(t: string, j: int)
    requires !IsNotebookName(t) && IsSplit(t, j)
    requires forall j' :: j < j' ==> !IsSplit(t, j')
    ensures ConvertTarget(t) == Some(Section(Clean(t[j + 1..])))
  {
    var last := LastSplit(t, |t|);
    assert last.Some?;
    assert last.value == j by {
      assert !(last.value < j);
      assert !(j < last.value);
    }
    assert Fragment(t) == Some(t[j + 1..]);
  }

  /** Non-link elements are never replaced. */
  lemma NonLinkUnchanged(e: Element)
    requires !e.Link?
    ensures ConvertLink(e) == None && Filtered(e) == e
  {
  }

  /** A link whose target matches neither pattern is kept as it is. */
  lemma UnmatchedLinkUnchanged(e: Element)
    requires e.Link? && !IsNotebookName(e.url) && forall j :: !IsSplit(e.url, j)
    ensures ConvertLink(e) == None && Filtered(e) == e
  {
  }

  // ----- Worked examples -----

  /** `3-intro.ipynb` becomes `Chapter \ref{sec:3-intro}`. */
  lemma ExampleChapter()
    ensures ConvertTarget("3-intro.ipynb") == Some(Chapter("3-intro"))
  {
    ChapterLink("3", "intro");
    assert "3" + "-" + "intro" + Extension == "3-intro.ipynb";
    assert "3" + "-" + "intro" == "3-intro";
  }

  /** `1-a.ipynb#b.ipynb` also matches the section pattern, with its `#` at position 9. */
  lemma ExampleSectionSplit()
    ensures IsSplit("1-a.ipynb#b.ipynb", 9)
  {
    var t := "1-a.ipynb#b.ipynb";
    assert t[..9] == "1" + "-" + "a" + Extension;
    ChapterLink("1", "a");
  }

  /** A target matching both patterns is a chapter link: that pattern is tried first. */
  lemma ExampleChapterFirst()
    ensures ConvertTarget("1-a.ipynb#b.ipynb") == Some(Chapter("1-a.ipynb#b"))
  {
    var t := "1-a.ipynb#b.ipynb";
    assert IsNotebookName(t) by {
      DigitRunIs(t, 1);
    }
    assert t[..|t| - |Extension|] == "1-a.ipynb#b";
  }

  /** A fragment's label: the space and `!` are deleted (not turned into `-`), letters lower-cased. */
  lemma ExampleLabel()
    ensures Clean("Go On!") == "goon"
  {
    var fragment := "Go On!";
    var before, after := fragment[..2], fragment[3..];
    assert fragment == before + " " + after;
    CleanDeletesSpace(before, after);
    assert before == "Go" && after == "On!";
  }

  /** `3-intro.ipynb#Go On!` becomes `Section \ref{goon}`. */
  lemma ExampleNotebookSection()
    ensures ConvertTarget("3-intro.ipynb#Go On!") == Some(Section("goon"))
  {
    var notebook, fragment := "3-intro.ipynb", "Go On!";
    ExampleChapter();
    assert notebook + "#" + fragment == "3-intro.ipynb#Go On!";
    assert '#' !in fragment;
    assert !IsNotebookName(notebook + "#" + fragment) by {
      var t := notebook + "#" + fragment;
      assert t[|t| - 1] == '!';
    }
    NotebookSectionLink(notebook, fragment);
    ExampleLabel();
  }

  /** `Intro-1` has the label `intro-1`: `-` and digits are kept. */
  lemma ExampleLocalLabel()
    ensures Clean("Intro-1") == "intro-1"
  {
    var fragment := "Intro-1";
    assert Lower(fragment) == "intro-1";
    StripFixpoint("intro-1");
  }

  /** `#Intro-1` becomes `Section \ref{intro-1}`. */
  lemma ExampleLocalSection()
    ensures ConvertTarget("#Intro-1") == Some(Section("intro-1"))
  {
    var t := "#Intro-1";
    var fragment := t[1..];
    assert t == "#" + fragment;
    LocalSectionLink(fragment);
    assert fragment == "Intro-1";
    ExampleLocalLabel();
  }

  /** With two admissible `#`, the greedy prefix takes the last one. */
  lemma ExampleGreedyPrefix()
    ensures ConvertTarget("1-a.ipynb#b.ipynb#c") == Some(Section("c"))
  {
    var notebook := "1-a.ipynb#b.ipynb";
    ExampleChapterFirst();
    assert notebook + "#" + "c" == "1-a.ipynb#b.ipynb#c";
    assert !IsNotebookName(notebook + "#" + "c") by {
      var t := notebook + "#" + "c";
      assert t[|t| - 1] == 'c';
    }
    NotebookSectionLink(notebook, "c");
    assert Lower("c") == "c";
  }

  /** Targets matching neither pattern are not rewritten. */
  lemma ExampleUnmatched()
    ensures ConvertTarget("https://example.com") == None
    ensures ConvertTarget("#") == None
    ensures ConvertTarget("1-.ipynb") == None
  {
    if ConvertTarget("https://example.com").Some? {
      RewriteNeedsDigitOrHash("https://example.com");
    }
    NoHashNoSplit("1-.ipynb");
  }
}
