/** File-type lookups of the client (public/app.js:1062-1080, 1162-1186): the
    extension is whatever follows the last dot, lower-cased, and selects an
    icon class and a Monaco language, with a default for unknown extensions. */
module FileTypes {
  import opened Strings

  /** `filename.split('.').pop().toLowerCase()`. A name without a dot is
      its own extension. */
  function Extension(filename: string): (ext: string)
    ensures '.' !in ext
    ensures |ext| <= |filename|
  {
    var parts := Split(filename, '.');
    LowerNoDot(parts[|parts| - 1]);
    SplitPartLength(filename, '.', |parts| - 1);
    Lower(parts[|parts| - 1])
  }

  /** A name ending in a dot has an empty extension and gets the defaults. */
  lemma TrailingDotDefaults(base: string)
    ensures Extension(base + ".") == ""
    ensures FileIcon(base + ".") == DefaultIcon
    ensures DetectLanguage(base + ".") == DefaultLanguage
  {
    ExtensionAfterLastDot(base, "");
    assert base + "." + "" == base + ".";
    assert "" !in IconMap && "" !in LanguageMap;
  }

  /** A file called `c`, which has no dot, is shown and edited as C source. */
  lemma BareNameLookedUpWhole()
    ensures FileIcon("c") == "fas fa-code"
    ensures DetectLanguage("c") == "c"
  {
    NoDotIsWholeName("c");
    assert Lower("c") == "c";
  }

  /** Lower-casing keeps every dot where it was and makes no new ones. */
  lemma LowerNoDot(s: string)
    requires '.' !in s
    ensures '.' !in Lower(s)
  {
    forall i | 0 <= i < |s| ensures Lower(s)[i] != '.' {
      assert s[i] != '.';
    }
  }

  /** No part of a split is longer than the text. */
  lemma {:induction false} SplitPartLength(s: string, sep: char, k: int)
    requires 0 <= k < |Split(s, sep)|
    ensures |Split(s, sep)[k]| <= |s|
    decreases |s|
  {
    if |s| > 0 {
      var rest := Split(s[1..], sep);
      if s[0] == sep {
        if k > 0 {
          SplitPartLength(s[1..], sep, k - 1);
        }
      } else if k == 0 {
        SplitPartLength(s[1..], sep, 0);
      } else {
        SplitPartLength(s[1..], sep, k);
      }
    }
  }

  /** `iconMap`. */
  const IconMap: map<string, string> := map[
    "js" := "fab fa-js-square",
    "html" := "fab fa-html5",
    "css" := "fab fa-css3-alt",
    "json" := "fas fa-code",
    "md" := "fab fa-markdown",
    "txt" := "fas fa-file-alt",
    "py" := "fab fa-python",
    "java" := "fab fa-java",
    "cpp" := "fas fa-code",
    "c" := "fas fa-code",
    "php" := "fab fa-php",
    "rb" := "fas fa-gem"]

  const DefaultIcon: string := "fas fa-file"

  /** `languageMap`. */
  const LanguageMap: map<string, string> := map[
    "js" := "javascript",
    "ts" := "typescript",
    "html" := "html",
    "css" := "css",
    "json" := "json",
    "xml" := "xml",
    "yaml" := "yaml",
    "yml" := "yaml",
    "md" := "markdown",
    "py" := "python",
    "java" := "java",
    "cpp" := "cpp",
    "c" := "c",
    "php" := "php",
    "rb" := "ruby",
    "go" := "go",
    "rs" := "rust",
    "sh" := "shell"]

  const DefaultLanguage: string := "plaintext"

  /** `getFileIcon`. */
  function FileIcon(filename: string): (icon: string)
    ensures Extension(filename) in IconMap ==> icon == IconMap[Extension(filename)]
    ensures Extension(filename) !in IconMap ==> icon == DefaultIcon
  {
    var ext := Extension(filename);
    if ext in IconMap then IconMap[ext] else DefaultIcon
  }

  /** `detectLanguage`. */
  function DetectLanguage(filename: string): (language: string)
    ensures Extension(filename) in LanguageMap ==> language == LanguageMap[Extension(filename)]
    ensures Extension(filename) !in LanguageMap ==> language == DefaultLanguage
  {
    var ext := Extension(filename);
    if ext in LanguageMap then LanguageMap[ext] else DefaultLanguage
  }

  /** The extension is the lower-cased text after the last dot. */
  lemma ExtensionAfterLastDot(base: string, ext: string)
    requires '.' !in ext
    ensures Extension(base + "." + ext) == Lower(ext)
  {
    assert base + "." + ext == base + ['.'] + ext;
    SplitLastAfterSep(base, '.', ext);
  }

  /** A name without any dot is looked up whole, so a file called `c` is
      shown with the C icon and `Makefile` gets the defaults. */
  lemma NoDotIsWholeName(filename: string)
    requires '.' !in filename
    ensures Extension(filename) == Lower(filename)
  {
    SplitNoSep(filename, '.');
  }

  /** `lparts` are `parts` lower-cased one by one. */
  predicate LowerParts(lparts: seq<string>, parts: seq<string>)
  {
    |lparts| == |parts| && forall k :: 0 <= k < |parts| ==> lparts[k] == Lower(parts[k])
  }

  /** Lower-casing commutes with splitting at a separator that is not a letter. */
  lemma {:induction false} SplitLower(s: string, sep: char)
    requires !('A' <= sep <= 'Z') && !('a' <= sep <= 'z')
    ensures |Split(Lower(s), sep)| == |Split(s, sep)|
    ensures forall k :: 0 <= k < |Split(s, sep)| ==> Split(Lower(s), sep)[k] == Lower(Split(s, sep)[k])
    decreases |s|
  {
    if |s| > 0 {
      var ls := Lower(s);
      assert ls[1..] == Lower(s[1..]);
      SplitLower(s[1..], sep);
      SplitLowerStep(s[0], s[1..], sep);
      assert [s[0]] + s[1..] == s;
      assert [LowerChar(s[0])] + Lower(s[1..]) == ls;
    }
  }

  /** The step of `SplitLower`: one more character in front. */
  lemma SplitLowerStep(c: char, t: string, sep: char)
    requires !('A' <= sep <= 'Z') && !('a' <= sep <= 'z')
    requires LowerParts(Split(Lower(t), sep), Split(t, sep))
    ensures LowerParts(Split([LowerChar(c)] + Lower(t), sep), Split([c] + t, sep))
  {
    var rest, lrest := Split(t, sep), Split(Lower(t), sep);
    SplitCons(c, t, sep);
    SplitCons(LowerChar(c), Lower(t), sep);
    if c != sep {
      LowerCons(c, rest[0]);
      LowerPartsCons([LowerChar(c)] + lrest[0], [c] + rest[0], lrest[1..], rest[1..]);
    } else {
      LowerPartsCons("", "", lrest, rest);
    }
  }

  /** Lower-casing a character in front. */
  lemma LowerCons(c: char, t: string)
    ensures Lower([c] + t) == [LowerChar(c)] + Lower(t)
  {
  }

  /** One more part in front of both lists. */
  lemma LowerPartsCons(lp: string, p: string, lparts: seq<string>, parts: seq<string>)
    requires lp == Lower(p) && LowerParts(lparts, parts)
    ensures LowerParts([lp] + lparts, [p] + parts)
  {
  }

  /** Lookups ignore case: `Main.PY` and `main.py` look the same. */
  lemma LookupIgnoresCase(filename: string)
    ensures Extension(Lower(filename)) == Extension(filename)
    ensures FileIcon(Lower(filename)) == FileIcon(filename)
    ensures DetectLanguage(Lower(filename)) == DetectLanguage(filename)
  {
    ExtensionIgnoresCase(filename);
  }

  /** The extension of a lower-cased name is the name's own extension. */
  lemma ExtensionIgnoresCase(filename: string)
    ensures Extension(Lower(filename)) == Extension(filename)
  {
    SplitLower(filename, '.');
    var parts := Split(filename, '.');
    LowerIdempotent(parts[|parts| - 1]);
  }
}
