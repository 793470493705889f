/**
 * Characters and the label cleaning applied to a section fragment in
 * `convert_link`: the fragment is lower-cased and every run of characters
 * that are neither word characters nor `-` is deleted.
 *
 * ASCII approximation: a word character (`\w`) is an ASCII letter, an ASCII
 * digit or `_`, and lower-casing maps only `A`-`Z` to `a`-`z`.
 */
module Labels {

  predicate IsDigit(c: char) { '0' <= c <= '9' }

  predicate IsUpper(c: char) { 'A' <= c <= 'Z' }

  predicate IsLower(c: char) { 'a' <= c <= 'z' }

  /** `\w`: an ASCII letter, an ASCII digit or the underscore. */
  predicate IsWordChar(c: char) { IsUpper(c) || IsLower(c) || IsDigit(c) || c == '_' }

  /** A character the class `[^\w-]` does NOT match, so it survives cleaning. */
  predicate IsLabelChar(c: char) { IsWordChar(c) || c == '-' }

  /** A finished label character: kept by cleaning and already lower-case. */
  predicate IsCleanChar(c: char) { IsLabelChar(c) && !IsUpper(c) }

  /** `str.lower()` on one character. */
  function LowerChar(c: char): (r: char)
    ensures IsUpper(c) ==> IsLower(r) && r as int - c as int == 'a' as int - 'A' as int
    ensures !IsUpper(c) ==> r == c
    ensures !IsUpper(r)
    ensures IsLabelChar(r) <==> IsLabelChar(c)
  {
    if IsUpper(c) then (c as int - 'A' as int + 'a' as int) as char else c
  }

  /** `str.lower()`: the string with every character lower-cased, in place. */
  function Lower(s: string): (r: string)
    ensures |r| == |s|
    ensures forall i :: 0 <= i < |s| ==> r[i] == LowerChar(s[i])
  {
    if s == [] then [] else [LowerChar(s[0])] + Lower(s[1..])
  }

  /** `re.sub(r"[^\w-]+", "", s)`: every character outside `[\w-]` deleted. */
  function Strip(s: string): (r: string)
    ensures |r| <= |s|
    ensures forall i :: 0 <= i < |r| ==> IsLabelChar(r[i])
  {
    if s == [] then []
    else if IsLabelChar(s[0]) then [s[0]] + Strip(s[1..])
    else Strip(s[1..])
  }

  /** The label `convert_link` makes from a section fragment. */
  function Clean(fragment: string): (cleaned: string)
    ensures |cleaned| <= |fragment|
    ensures forall i :: 0 <= i < |cleaned| ==> IsCleanChar(cleaned[i])
  {
    var lowered := Lower(fragment);
    var stripped := Strip(lowered);
    StripKeepsLower(lowered);
    stripped
  }

  /** `a` is `b` with some characters deleted (order kept, nothing replaced). */
  predicate IsSubsequence(a: string, b: string)
    decreases |b|
  {
    if a == [] then true
    else if b == [] then false
    else (a[0] == b[0] && IsSubsequence(a[1..], b[1..])) || IsSubsequence(a, b[1..])
  }

  /** Stripping a string without upper-case characters leaves none. */
  lemma {:induction false} StripKeepsLower(s: string)
    requires forall i :: 0 <= i < |s| ==> !IsUpper(s[i])
    ensures forall i :: 0 <= i < |Strip(s)| ==> !IsUpper(Strip(s)[i])
  {
    if s != [] {
      StripKeepsLower(s[1..]);
    }
  }

  /** Stripping only deletes characters: it never reorders or replaces them. */
  lemma {:induction false} StripIsSubsequence(s: string)
    ensures IsSubsequence(Strip(s), s)
  {
    if s != [] {
      StripIsSubsequence(s[1..]);
      if !IsLabelChar(s[0]) {
        SubsequenceOfTail(Strip(s[1..]), s);
      }
    }
  }

  /** A subsequence of the tail is a subsequence of the whole. */
  lemma {:induction false} SubsequenceOfTail(a: string, b: string)
    requires b != [] && IsSubsequence(a, b[1..])
    ensures IsSubsequence(a, b)
  {
  }

  /** Stripping keeps every occurrence of every label character. */
  lemma {:induction false} StripKeepsEveryLabelChar(s: string, c: char)
    requires IsLabelChar(c)
    ensures multiset(Strip(s))[c] == multiset(s)[c]
  {
    if s != [] {
      StripKeepsEveryLabelChar(s[1..], c);
      assert s == [s[0]] + s[1..];
    }
  }

  /** Stripping works character by character, so it distributes over concatenation. */
  lemma {:induction false} StripAppend(a: string, b: string)
    ensures Strip(a + b) == Strip(a) + Strip(b)
  {
    if a == [] {
      assert a + b == b;
    } else {
      var ab := a + b;
      assert ab[0] == a[0] && ab[1..] == a[1..] + b;
      StripAppend(a[1..], b);
      if IsLabelChar(a[0]) {
        calc {
          Strip(ab);
          [a[0]] + Strip(a[1..] + b);
          [a[0]] + (Strip(a[1..]) + Strip(b));
          ([a[0]] + Strip(a[1..])) + Strip(b);
        }
      }
    }
  }

  /** Lower-casing works character by character, so it distributes over concatenation. */
  lemma LowerAppend(a: string, b: string)
    ensures Lower(a + b) == Lower(a) + Lower(b)
  {
  }

  /** Stripping changes a string exactly when it holds a character outside `[\w-]`. */
  lemma {:induction false} StripFixpoint(s: string)
    ensures Strip(s) == s <==> forall i :: 0 <= i < |s| ==> IsLabelChar(s[i])
  {
    if s != [] {
      StripFixpoint(s[1..]);
      if !IsLabelChar(s[0]) {
        assert |Strip(s)| < |s|;
      } else if forall i :: 0 <= i < |s| ==> IsLabelChar(s[i]) {
        assert forall i :: 0 <= i < |s[1..]| ==> IsLabelChar(s[1..][i]) by {
          forall i | 0 <= i < |s[1..]| ensures IsLabelChar(s[1..][i]) {
            assert s[1..][i] == s[i + 1];
          }
        }
        assert s == [s[0]] + s[1..];
      } else {
        var k :| 0 <= k < |s| && !IsLabelChar(s[k]);
        assert k > 0 && s[1..][k - 1] == s[k];
      }
    }
  }

  /** Lower-casing changes nothing in a string without upper-case characters. */
  lemma {:induction false} LowerFixpoint(s: string)
    requires forall i :: 0 <= i < |s| ==> !IsUpper(s[i])
    ensures Lower(s) == s
  {
  }

  /** The cleaned label is the lower-cased fragment with characters deleted, not reordered or replaced. */
  lemma CleanIsSubsequenceOfLowered(fragment: string)
    ensures IsSubsequence(Clean(fragment), Lower(fragment))
  {
    StripIsSubsequence(Lower(fragment));
  }

  /** Every word character and `-` of the lower-cased fragment survives cleaning. */
  lemma CleanKeepsEveryLabelChar(fragment: string, c: char)
    requires IsLabelChar(c)
    ensures multiset(Clean(fragment))[c] == multiset(Lower(fragment))[c]
  {
    StripKeepsEveryLabelChar(Lower(fragment), c);
  }

  /** Cleaning is idempotent: a cleaned label is its own label. */
  lemma CleanIdempotent(fragment: string)
    ensures Clean(Clean(fragment)) == Clean(fragment)
  {
    var once := Clean(fragment);
    LowerFixpoint(once);
    StripFixpoint(once);
  }

  /** A fragment is kept verbatim exactly when it is already a clean label. */
  lemma CleanFixpoint(fragment: string)
    ensures Clean(fragment) == fragment <==> forall i :: 0 <= i < |fragment| ==> IsCleanChar(fragment[i])
  {
    if forall i :: 0 <= i < |fragment| ==> IsCleanChar(fragment[i]) {
      LowerFixpoint(fragment);
      StripFixpoint(fragment);
    }
  }

  /**
   * A space in a fragment is deleted, not turned into `-`: the label of
   * `a + " " + b` is the label of `a` followed directly by the label of `b`.
   */
  lemma CleanDeletesSpace(a: string, b: string)
    ensures Clean(a + " " + b) == Clean(a) + Clean(b)
  {
    LowerAppend(a + " ", b);
    LowerAppend(a, " ");
    StripAppend(Lower(a) + Lower(" "), Lower(b));
    StripAppend(Lower(a), Lower(" "));
  }
}
